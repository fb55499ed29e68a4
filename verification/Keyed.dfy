/** A dictionary that keeps the order of insertion, as a sequence of elements with different keys. */
module Keyed {
  import opened Outcomes

  predicate Unique<T, K(==)>(xs: seq<T>, key: T -> K) {
    forall i, j | 0 <= i < j < |xs| :: key(xs[i]) != key(xs[j])
  }

  function Find<T>(xs: seq<T>, key: T -> int, k: int): Option<T> {
    if xs == [] then None else if key(xs[0]) == k then Some(xs[0]) else Find(xs[1..], key, k)
  }

  /** The element with the key of `first` is updated, or else `first` is added. */
  function Upsert<T>(xs: seq<T>, key: T -> int, first: T, update: T -> T): seq<T> {
    if xs == [] then [first]
    else if key(xs[0]) == key(first) then [update(xs[0])] + xs[1..]
    else [xs[0]] + Upsert(xs[1..], key, first, update)
  }

  ghost predicate KeepsKey<T(!new)>(key: T -> int, update: T -> T) {
    forall x :: key(update(x)) == key(x)
  }

  lemma {:induction false} FindMember<T>(xs: seq<T>, key: T -> int, x: T)
    requires Unique(xs, key)
    ensures x in xs <==> Find(xs, key, key(x)) == Some(x)
  {
    if xs != [] {
      assert xs == [xs[0]] + xs[1..];
      FindMember(xs[1..], key, x);
    }
  }

  lemma {:induction false} UpsertFind<T(!new)>(xs: seq<T>, key: T -> int, first: T, update: T -> T, k: int)
    requires KeepsKey(key, update)
    ensures Find(Upsert(xs, key, first, update), key, k)
      == if k != key(first) then Find(xs, key, k)
         else match Find(xs, key, k)
           case Some(x) => Some(update(x))
           case None => Some(first)
  {
    if xs != [] {
      UpsertFind(xs[1..], key, first, update, k);
    }
  }

  lemma {:induction false} UpsertUnique<T(!new)>(xs: seq<T>, key: T -> int, first: T, update: T -> T)
    requires Unique(xs, key) && KeepsKey(key, update)
    ensures Unique(Upsert(xs, key, first, update), key)
    ensures forall x | x in Upsert(xs, key, first, update) ::
      key(x) == key(first) || exists y :: y in xs && key(y) == key(x)
  {
    if xs != [] && key(xs[0]) != key(first) {
      UpsertUnique(xs[1..], key, first, update);
      var r := Upsert(xs[1..], key, first, update);
      forall j | 0 <= j < |r|
        ensures key(r[j]) != key(xs[0])
      {
        assert r[j] in r;
      }
    }
  }

  function KeysOf<T>(xs: seq<T>, key: T -> int): seq<int> {
    if xs == [] then [] else [key(xs[0])] + KeysOf(xs[1..], key)
  }

  /** A new key goes to the end, and a known one stays where it is. */
  lemma {:induction false} UpsertKeys<T(!new)>(xs: seq<T>, key: T -> int, first: T, update: T -> T)
    requires KeepsKey(key, update)
    ensures KeysOf(Upsert(xs, key, first, update), key)
         == if key(first) in KeysOf(xs, key) then KeysOf(xs, key) else KeysOf(xs, key) + [key(first)]
  {
    if xs == [] {
      assert [first][1..] == [];
    } else {
      UpsertKeys(xs[1..], key, first, update);
    }
  }

  /** Different keys stay different in any other order. */
  lemma UniquePermuted<T, K>(xs: seq<T>, ys: seq<T>, key: T -> K)
    requires Unique(xs, key) && multiset(xs) == multiset(ys)
    ensures Unique(ys, key)
  {
    forall i, j | 0 <= i < j < |ys|
      ensures key(ys[i]) != key(ys[j])
    {
      assert ys[i] in multiset(ys) && ys[j] in multiset(ys);
      var a :| 0 <= a < |xs| && xs[a] == ys[i];
      var b :| 0 <= b < |xs| && xs[b] == ys[j];
      if key(ys[i]) == key(ys[j]) {
        assert a == b;
        CountsTwice(ys, i, j);
        CountsOnce(xs, key, ys[i]);
      }
    }
  }

  lemma CountsTwice<T>(xs: seq<T>, i: nat, j: nat)
    requires i < j < |xs| && xs[i] == xs[j]
    ensures multiset(xs)[xs[i]] >= 2
  {
    assert xs == xs[..j] + xs[j..];
    assert xs[..j][i] in multiset(xs[..j]) && xs[j..][0] in multiset(xs[j..]);
  }

  lemma {:induction false} CountsOnce<T, K>(xs: seq<T>, key: T -> K, x: T)
    requires Unique(xs, key)
    ensures multiset(xs)[x] <= 1
  {
    if xs != [] {
      var rest := xs[1..];
      assert xs == [xs[0]] + rest;
      CountsOnce(rest, key, x);
      if x == xs[0] {
        assert x !in rest;
        assert x !in multiset(rest);
      }
    }
  }
}
