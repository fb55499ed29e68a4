/** `H`: a set of positive ids that remembers its largest member, and its fixed-width encoding `ne`. */
module TcfVector {
  import opened Outcomes
  import opened TcfBits

  /** `m` is the largest of `ids`, or 0 when there is none. */
  predicate IsMaxId(m: nat, ids: set<nat>) {
    (m in ids || (m == 0 && ids == {})) && forall x | x in ids :: x <= m
  }

  ghost function MaxId(ids: set<nat>): (m: nat)
    ensures IsMaxId(m, ids)
  {
    if ids == {} then 0
    else
      var x :| x in ids;
      var m := MaxId(ids - {x});
      assert forall y | y in ids :: y in ids - {x} || y == x;
      if x > m then x else m
  }

  /** The ids from `a` to `b`. */
  function Interval(a: nat, b: nat): (ids: set<nat>)
    ensures forall x :: x in ids <==> a <= x <= b
    decreases b + 1 - a
  {
    if a > b then {} else {a} + Interval(a + 1, b)
  }

  class Vector {
    var ids: set<nat>
    var maxId: nat
    var bitLength: nat

    ghost predicate Valid()
      reads this
    {
      0 !in ids && IsMaxId(maxId, ids)
    }

    constructor ()
      ensures Valid() && ids == {} && bitLength == 0
    {
      ids, maxId, bitLength := {}, 0, 0;
    }

    /** `clone`. */
    constructor Clone(of: set<nat>)
      requires 0 !in of
      ensures Valid() && ids == of && bitLength == 0
    {
      ids, maxId, bitLength := {}, 0, 0;
      new;
      var rest := of;
      while rest != {}
        invariant Valid() && rest <= of && ids == of - rest && bitLength == 0
      {
        var t :| t in rest;
        var ok := Set(t);
        rest := rest - {t};
      }
    }

    /** Only positive integers are accepted; anything else throws and changes nothing. */
    method Set(e: int) returns (r: Result<(), TcfError>)
      requires Valid()
      modifies this
      ensures Valid()
      ensures e <= 0 ==> r == Failure(TCModelError) && ids == old(ids) && bitLength == old(bitLength)
      ensures e > 0 ==> r == Success(()) && ids == old(ids) + {e} && bitLength == 0
    {
      if e <= 0 {
        return Failure(TCModelError);
      }
      ids := ids + {e};
      maxId := if e > maxId then e else maxId;
      bitLength := 0;
      return Success(());
    }

    /** The largest id is recomputed only when it was the one removed. */
    method Unset(e: nat)
      requires Valid()
      modifies this
      ensures Valid() && ids == old(ids) - {e} && bitLength == 0
    {
      ids := ids - {e};
      bitLength := 0;
      if e == maxId {
        maxId := 0;
        var rest := ids;
        while rest != {}
          invariant rest <= ids && ids == old(ids) - {e} && bitLength == 0
          invariant IsMaxId(maxId, ids - rest)
        {
          var t :| t in rest;
          maxId := if t > maxId then t else maxId;
          assert forall y | y in ids - (rest - {t}) :: y in ids - rest || y == t;
          rest := rest - {t};
        }
        assert ids - {} == ids;
      }
    }

    method Empty()
      modifies this
      ensures Valid() && ids == {} && bitLength == old(bitLength)
    {
      ids, maxId := {}, 0;
    }
  }

  // ---------- Fixed-width vectors ----------

  function FixedBits(ids: set<nat>, t: nat): (b: BitString)
    ensures |b| == t
    ensures forall k: nat | k < t :: b[k] <==> k + 1 in ids
  {
    if t == 0 then [] else FixedBits(ids, t - 1) + EncodeBool(t in ids)
  }

  /** `ne.encode`. */
  method EncodeFixedText(v: Vector, t: nat) returns (b: BitString)
    ensures b == FixedBits(v.ids, t)
  {
    b := [];
    for s := 1 to t + 1
      invariant b == FixedBits(v.ids, s - 1)
    {
      b := b + EncodeBool(s in v.ids);
    }
  }

  function SetBits(e: BitString): (ids: set<nat>)
    ensures forall s: nat :: s in ids <==> 1 <= s <= |e| && e[s - 1]
  {
    var k := |e| - 1;
    if e == [] then {} else SetBits(e[..k]) + (if e[k] then {k + 1} else {})
  }

  function DecodeFixed(e: BitString, t: nat): Result<set<nat>, TcfError> {
    if |e| != t then Failure(DecodingError) else Success(SetBits(e))
  }

  /** `ne.decode`. */
  method DecodeFixedText(e: BitString, t: nat) returns (r: Result<Vector, TcfError>)
    ensures r.Failure? <==> DecodeFixed(e, t).Failure?
    ensures r.Failure? ==> r.error == DecodingError
    ensures r.Success? ==> fresh(r.value) && r.value.Valid() && r.value.bitLength == t
    ensures r.Success? ==> r.value.ids == DecodeFixed(e, t).value
  {
    if |e| != t {
      return Failure(DecodingError);
    }
    var i := new Vector();
    for s := 1 to t + 1
      invariant i.Valid() && fresh(i)
      invariant i.ids == SetBits(e[..s - 1])
    {
      if DecodeBool([e[s - 1]]) {
        var ok := i.Set(s);
      }
      assert e[..s] == e[..s - 1] + [e[s - 1]];
    }
    assert e[..t] == e;
    i.bitLength := |e|;
    return Success(i);
  }

  /** The ids that a vector of width `t` can hold. */
  function Within(ids: set<nat>, t: nat): set<nat> {
    set x | x in ids && 1 <= x <= t
  }

  /** Decoding gives back exactly the ids inside the width. */
  lemma FixedRoundTrip(ids: set<nat>, t: nat)
    ensures DecodeFixed(FixedBits(ids, t), t) == Success(Within(ids, t))
  {
    assert SetBits(FixedBits(ids, t)) == Within(ids, t);
  }
}
