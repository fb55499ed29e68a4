/** Cursor-style access to sequences, splitting and joining, shared by the codecs and the parsers. */
module Sequences {

  lemma ConcatAssociative<T>(a: seq<T>, b: seq<T>, c: seq<T>)
    ensures a + b + c == a + (b + c)
  {
  }

  /** `x` occurs in `e` at offset `pos`. */
  ghost predicate At<T>(e: seq<T>, pos: nat, x: seq<T>) {
    pos + |x| <= |e| && forall i: nat | i < |x| :: e[pos + i] == x[i]
  }

  lemma AtConcat<T>(e: seq<T>, pos: nat, x: seq<T>, y: seq<T>)
    requires At(e, pos, x + y)
    ensures At(e, pos, x) && At(e, pos + |x|, y)
  {
    forall i: nat | i < |x|
      ensures e[pos + i] == x[i]
    {
      assert (x + y)[i] == x[i];
    }
    forall i: nat | i < |y|
      ensures e[pos + |x| + i] == y[i]
    {
      assert (x + y)[|x| + i] == y[i];
    }
  }

  lemma AtPrefix<T>(x: seq<T>, tail: seq<T>)
    ensures At(x + tail, 0, x)
  {
  }

  lemma SubstrAt<T>(e: seq<T>, pos: nat, x: seq<T>)
    requires At(e, pos, x)
    ensures Substr(e, pos, |x|) == x
  {
  }

  /** JavaScript's `e.substr(start, n)` for non-negative arguments: never fails, may come out short. */
  function Substr<T>(e: seq<T>, start: nat, n: nat): (r: seq<T>)
    ensures |r| <= n
    ensures |r| == n <==> n == 0 || start + n <= |e|
    ensures start + n <= |e| ==> r == e[start..start + n]
  {
    if start >= |e| then []
    else if start + n <= |e| then e[start..start + n]
    else e[start..]
  }

  /** `e.substr(start)`. */
  function Rest<T>(e: seq<T>, start: nat): seq<T> {
    if start >= |e| then [] else e[start..]
  }

  lemma AtRest<T>(e: seq<T>, pos: nat, x: seq<T>)
    requires At(e, pos, x)
    ensures At(Rest(e, pos), 0, x)
  {
  }

  /** `s.split(c)`: always at least one part. */
  function Split<T(==)>(s: seq<T>, c: T): (parts: seq<seq<T>>)
    ensures |parts| >= 1
    ensures forall part | part in parts :: c !in part
  {
    if s == [] then [[]]
    else
      var rest := Split(s[1..], c);
      if s[0] == c then [[]] + rest else [[s[0]] + rest[0]] + rest[1..]
  }

  /** `c.join(parts)`. */
  function Join<T>(parts: seq<seq<T>>, c: T): seq<T> {
    if |parts| == 0 then []
    else if |parts| == 1 then parts[0]
    else parts[0] + [c] + Join(parts[1..], c)
  }

  lemma {:induction false} SplitConcat<T>(a: seq<T>, c: T, b: seq<T>)
    requires c !in a
    ensures Split(a + [c] + b, c) == [a] + Split(b, c)
  {
    if a == [] {
      assert (a + [c] + b)[1..] == b;
    } else {
      assert (a + [c] + b)[1..] == a[1..] + [c] + b;
      SplitConcat(a[1..], c, b);
      assert [a[0]] + a[1..] == a;
    }
  }

  lemma {:induction false} SplitWhole<T>(a: seq<T>, c: T)
    requires c !in a
    ensures Split(a, c) == [a]
  {
    if a != [] {
      SplitWhole(a[1..], c);
      assert [a[0]] + a[1..] == a;
    }
  }

  /** Splitting undoes joining exactly when no part contains the separator. */
  lemma {:induction false} SplitJoin<T>(parts: seq<seq<T>>, c: T)
    requires |parts| >= 1
    ensures Split(Join(parts, c), c) == parts <==> forall part | part in parts :: c !in part
  {
    if forall part | part in parts :: c !in part {
      if |parts| == 1 {
        SplitWhole(parts[0], c);
      } else {
        SplitConcat(parts[0], c, Join(parts[1..], c));
        SplitJoin(parts[1..], c);
        assert [parts[0]] + parts[1..] == parts;
      }
    }
  }
}
