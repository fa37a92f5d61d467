/** Sequence helpers for ordered child lists. */
module Seqs {
  predicate Distinct<T(==)>(s: seq<T>) {
    forall i, j :: 0 <= i < j < |s| ==> s[i] != s[j]
  }

  /** Position of the first occurrence of x in s. */
  function IndexOf<T(==)>(s: seq<T>, x: T): (i: nat)
    requires x in s
    ensures i < |s| && s[i] == x && x !in s[..i]
  {
    if s[0] == x then 0
    else
      var j := IndexOf(s[1..], x);
      assert s[..j + 1] == [s[0]] + s[1..][..j];
      1 + j
  }

  /** In a list without repetitions, an element's position is unique. */
  lemma IndexOfDistinct<T>(s: seq<T>, k: nat)
    requires Distinct(s) && k < |s|
    ensures IndexOf(s, s[k]) == k
  {
  }

  /** The position of x in X + [x] + Y when X does not hold x. */
  lemma IndexOfSplit<T>(X: seq<T>, x: T, Y: seq<T>)
    requires x !in X
    ensures IndexOf(X + [x] + Y, x) == |X|
  {
    var s := X + [x] + Y;
    var i := IndexOf(s, x);
    assert s[|X|] == x;
    assert forall k :: 0 <= k < |X| ==> s[k] == X[k];
    assert forall k :: 0 <= k < i ==> s[..i][k] == s[k];
  }

  /** In a list without repetitions, an element occurs on neither side of its own position. */
  lemma DistinctSplit<T>(X: seq<T>, x: T, Y: seq<T>)
    requires Distinct(X + [x] + Y)
    ensures x !in X && x !in Y
  {
    var s := X + [x] + Y;
    assert s[|X|] == x;
    assert forall a :: 0 <= a < |X| ==> s[a] == X[a];
    assert forall a :: 0 <= a < |Y| ==> s[|X| + 1 + a] == Y[a];
  }

  /** s with the element x taken out (ChildNode::remove on a child list). */
  function Removed<T(==,!new)>(s: seq<T>, x: T): (r: seq<T>)
    requires x in s
    ensures |r| == |s| - 1
    ensures Distinct(s) ==> Distinct(r) && forall y :: y in r <==> y in s && y != x
  {
    var i := IndexOf(s, x);
    assert s == s[..i] + [x] + s[i + 1..];
    var r := s[..i] + s[i + 1..];
    assert forall a :: 0 <= a < |r| ==> r[a] == if a < i then s[a] else s[a + 1];
    r
  }

  /** s with x placed at position i, the elements from i on moving one place right. */
  function InsertAt<T(==,!new)>(s: seq<T>, x: T, i: nat): (r: seq<T>)
    requires i <= |s|
    ensures |r| == |s| + 1 && r[i] == x
    ensures forall a :: 0 <= a < |r| && a != i ==> r[a] == if a < i then s[a] else s[a - 1]
  {
    s[..i] + [x] + s[i..]
  }

  lemma InsertAtMembers<T(!new)>(s: seq<T>, x: T, i: nat)
    requires i <= |s|
    ensures forall y :: y in InsertAt(s, x, i) <==> y in s || y == x
    ensures Distinct(s) && x !in s ==> Distinct(InsertAt(s, x, i))
  {
    var r := InsertAt(s, x, i);
    forall y | y in s ensures y in r {
      var a :| 0 <= a < |s| && s[a] == y;
      if a < i { assert r[a] == y; } else { assert r[a + 1] == y; }
    }
  }

  /** Q is P with its element x flanked by A in front and B behind. */
  predicate Spliced<T(==)>(P: seq<T>, x: T, A: seq<T>, B: seq<T>, Q: seq<T>) {
    x in P && Q == P[..IndexOf(P, x)] + A + [x] + B + P[IndexOf(P, x) + 1..]
  }

  /** Flanking an element with nothing leaves the list as it is. */
  lemma SplicedNothing<T>(P: seq<T>, x: T)
    requires x in P
    ensures Spliced(P, x, [], [], P)
  {
    var i := IndexOf(P, x);
    assert P[..i] + [] + [x] + [] + P[i + 1..] == P[..i] + [x] + P[i + 1..];
    assert P == P[..i] + [x] + P[i + 1..];
  }

  /** Flattening a list of lists, left to right. */
  function Concat<T>(ss: seq<seq<T>>): (r: seq<T>)
  {
    if ss == [] then [] else Concat(ss[..|ss| - 1]) + ss[|ss| - 1]
  }

  lemma SplitFirst<T>(s: seq<T>)
    requires s != []
    ensures s == [s[0]] + s[1..]
  {
  }

  lemma SplitLast<T>(s: seq<T>)
    requires s != []
    ensures s == s[..|s| - 1] + [s[|s| - 1]]
  {
  }

  /** Regrouping a concatenation; stated once so that long chains need not re-derive it. */
  lemma AppendAssoc<T>(a: seq<T>, b: seq<T>, c: seq<T>)
    ensures a + (b + c) == a + b + c
  {
  }

  lemma {:induction false} ConcatAppend<T>(a: seq<seq<T>>, b: seq<seq<T>>)
    ensures Concat(a + b) == Concat(a) + Concat(b)
  {
    if b == [] {
      assert a + b == a;
    } else {
      assert (a + b)[..|a + b| - 1] == a + b[..|b| - 1];
      ConcatAppend(a, b[..|b| - 1]);
    }
  }
}
