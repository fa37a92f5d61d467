/**
 * The one step both migration loops repeat: take the first (or last) child
 * of a node m and put it into m's parent just before (or just after) m.
 * Such a step changes no node's leaf sequence except m's own: the moved child lands next to m on the side it left from.
 */
module TreeMoves {
  import opened Nodes
  import opened Seqs
  import opened Tree
  import opened TreeFrame

  /** m's first child moved to just before m in p's child list. */
  ghost function LiftFirst(ch: Children, m: NodeId, p: NodeId): Children
    requires m in ch && p in ch && ch[m] != [] && m in ch[p]
  {
    ch[m := ch[m][1..]][p := InsertAt(ch[p], ch[m][0], IndexOf(ch[p], m))]
  }

  /** m's last child moved to just after m in p's child list. */
  ghost function LiftLast(ch: Children, m: NodeId, p: NodeId): Children
    requires m in ch && p in ch && ch[m] != [] && m in ch[p]
  {
    ch[m := ch[m][..|ch[m]| - 1]][p := InsertAt(ch[p], ch[m][|ch[m]| - 1], IndexOf(ch[p], m) + 1)]
  }

  ghost function Lift(ch: Children, m: NodeId, p: NodeId, first: bool): Children
    requires m in ch && p in ch && ch[m] != [] && m in ch[p]
  {
    if first then LiftFirst(ch, m, p) else LiftLast(ch, m, p)
  }

  /** A lift keeps every child ranked below its parent. */
  lemma LiftRanked(kind: Kinds, ch: Children, parent: Parents, rank: Ranks, m: NodeId, first: bool)
    requires WellFormed(kind, ch, parent, rank) && m in parent && ch[m] != []
    ensures parent[m] in ch && m in ch[parent[m]] && m != parent[m]
    ensures var ch2 := Lift(ch, m, parent[m], first);
      Ranked(ch2, rank) && ch2.Keys == ch.Keys
  {
    var p := parent[m];
    ParentOutranks(kind, ch, parent, rank, m);
    var ch2 := Lift(ch, m, p, first);
    var c := if first then ch[m][0] else ch[m][|ch[m]| - 1];
    assert rank[c] < rank[m];
    forall n, i | n in ch2 && 0 <= i < |ch2[n]|
      ensures ch2[n][i] in ch2 && rank[ch2[n][i]] < rank[n]
    {
      if n == p {
        var pos := if first then IndexOf(ch[p], m) else IndexOf(ch[p], m) + 1;
        if i < pos { assert ch2[n][i] == ch[p][i]; }
        else if i > pos { assert ch2[n][i] == ch[p][i - 1]; }
      } else if n == m {
        if first { assert ch2[n][i] == ch[m][i + 1]; } else { assert ch2[n][i] == ch[m][i]; }
      }
    }
  }

  /** The child lists a lift produces, spelled out; no other list changes. */
  lemma LiftShape(ch: Children, m: NodeId, p: NodeId, first: bool)
    requires m in ch && p in ch && m != p && ch[m] != [] && m in ch[p] && Distinct(ch[p])
    ensures var i := IndexOf(ch[p], m); var kids := ch[m]; var ch2 := Lift(ch, m, p, first);
      ch[p] == ch[p][..i] + [m] + ch[p][i + 1..] &&
      m !in ch[p][..i] && m !in ch[p][i + 1..] &&
      (first ==> ch2[p] == ch[p][..i] + [kids[0]] + [m] + ch[p][i + 1..] && ch2[m] == kids[1..]) &&
      (!first ==> ch2[p] == ch[p][..i] + [m] + [kids[|kids| - 1]] + ch[p][i + 1..] && ch2[m] == kids[..|kids| - 1]) &&
      ch2.Keys == ch.Keys && forall y :: y in ch && y != m && y != p ==> ch2[y] == ch[y]
  {
    var i := IndexOf(ch[p], m);
    var B := ch[p][i + 1..];
    assert ch[p] == ch[p][..i] + [m] + B;
    forall k | 0 <= k < |B| ensures B[k] != m {
      assert B[k] == ch[p][i + 1 + k];
    }
  }

  /** The leaves of n whose children are a + [y] + b, split around y. */
  lemma LeavesSplit3(kind: Kinds, ch: Children, rank: Ranks, n: NodeId, a: seq<NodeId>, y: NodeId, b: seq<NodeId>)
    requires Ranked(ch, rank) && ch.Keys <= kind.Keys && n in ch && y in ch
    requires forall k :: 0 <= k < |a| ==> a[k] in ch
    requires forall k :: 0 <= k < |b| ==> b[k] in ch
    requires ch[n] == a + [y] + b
    ensures Leaves(kind, ch, rank, n) == (if MayHaveChildren(kind[n]) then [] else [n]) +
      (LeavesOf(kind, ch, rank, a) + Leaves(kind, ch, rank, y) + LeavesOf(kind, ch, rank, b))
  {
    LeavesUnfold(kind, ch, rank, n);
    LeavesOfAround(kind, ch, rank, a, y, b);
  }

  /** The leaves of n whose children are a + [y] + [z] + b, split around y and z. */
  lemma LeavesSplit4(kind: Kinds, ch: Children, rank: Ranks, n: NodeId, a: seq<NodeId>, y: NodeId, z: NodeId, b: seq<NodeId>)
    requires Ranked(ch, rank) && ch.Keys <= kind.Keys && n in ch && y in ch && z in ch
    requires forall k :: 0 <= k < |a| ==> a[k] in ch
    requires forall k :: 0 <= k < |b| ==> b[k] in ch
    requires ch[n] == a + [y] + [z] + b
    ensures Leaves(kind, ch, rank, n) == (if MayHaveChildren(kind[n]) then [] else [n]) +
      (LeavesOf(kind, ch, rank, a) + Leaves(kind, ch, rank, y) + Leaves(kind, ch, rank, z) + LeavesOf(kind, ch, rank, b))
  {
    LeavesUnfold(kind, ch, rank, n);
    LeavesOfAround(kind, ch, rank, a + [y], z, b);
    LeavesOfAppend(kind, ch, rank, a, [y]);
    LeavesOfSingle(kind, ch, rank, y);
  }

  /** A node that may have children contributes only its children's leaves. */
  lemma LeavesOfContainer(kind: Kinds, ch: Children, rank: Ranks, n: NodeId)
    requires Ranked(ch, rank) && ch.Keys <= kind.Keys && n in ch && MayHaveChildren(kind[n])
    ensures Leaves(kind, ch, rank, n) == LeavesOf(kind, ch, rank, ch[n])
  {
    LeavesUnfold(kind, ch, rank, n);
    assert [] + LeavesOf(kind, ch, rank, ch[n]) == LeavesOf(kind, ch, rank, ch[n]);
  }

  /** The parent's leaves after lifting the first child c of m, where m's children were [c] + rest. */
  lemma LeavesAtParentFirst(kind: Kinds, ch: Children, ch2: Children, rank: Ranks,
                            p: NodeId, m: NodeId, A: seq<NodeId>, B: seq<NodeId>, c: NodeId, rest: seq<NodeId>)
    requires Ranked(ch, rank) && Ranked(ch2, rank) && ch.Keys <= kind.Keys && ch2.Keys <= kind.Keys
    requires p in ch && m in ch && c in ch && p in ch2 && m in ch2 && c in ch2 && MayHaveChildren(kind[m])
    requires forall k :: 0 <= k < |A| ==> A[k] in ch && A[k] in ch2
    requires forall k :: 0 <= k < |B| ==> B[k] in ch && B[k] in ch2
    requires forall k :: 0 <= k < |rest| ==> rest[k] in ch && rest[k] in ch2
    requires ch[p] == A + [m] + B && ch[m] == [c] + rest
    requires ch2[p] == A + [c] + [m] + B && ch2[m] == rest
    requires Leaves(kind, ch2, rank, c) == Leaves(kind, ch, rank, c)
    requires LeavesOf(kind, ch2, rank, A) == LeavesOf(kind, ch, rank, A)
    requires LeavesOf(kind, ch2, rank, B) == LeavesOf(kind, ch, rank, B)
    requires LeavesOf(kind, ch2, rank, rest) == LeavesOf(kind, ch, rank, rest)
    ensures Leaves(kind, ch2, rank, p) == Leaves(kind, ch, rank, p)
  {
    var own := if MayHaveChildren(kind[p]) then [] else [p];
    var la, lc, lr, lb := LeavesOf(kind, ch, rank, A), Leaves(kind, ch, rank, c), LeavesOf(kind, ch, rank, rest), LeavesOf(kind, ch, rank, B);
    LeavesSplit3(kind, ch, rank, p, A, m, B);
    LeavesOfContainer(kind, ch, rank, m);
    LeavesOfAppend(kind, ch, rank, [c], rest);
    LeavesOfSingle(kind, ch, rank, c);
    assert Leaves(kind, ch, rank, p) == own + (la + (lc + lr) + lb);
    LeavesSplit4(kind, ch2, rank, p, A, c, m, B);
    LeavesOfContainer(kind, ch2, rank, m);
    assert Leaves(kind, ch2, rank, p) == own + (la + lc + lr + lb);
    AppendAssoc(la, lc, lr);
  }

  /** The parent's leaves after lifting the last child c of m, where m's children were rest + [c]. */
  lemma LeavesAtParentLast(kind: Kinds, ch: Children, ch2: Children, rank: Ranks,
                           p: NodeId, m: NodeId, A: seq<NodeId>, B: seq<NodeId>, c: NodeId, rest: seq<NodeId>)
    requires Ranked(ch, rank) && Ranked(ch2, rank) && ch.Keys <= kind.Keys && ch2.Keys <= kind.Keys
    requires p in ch && m in ch && c in ch && p in ch2 && m in ch2 && c in ch2 && MayHaveChildren(kind[m])
    requires forall k :: 0 <= k < |A| ==> A[k] in ch && A[k] in ch2
    requires forall k :: 0 <= k < |B| ==> B[k] in ch && B[k] in ch2
    requires forall k :: 0 <= k < |rest| ==> rest[k] in ch && rest[k] in ch2
    requires ch[p] == A + [m] + B && ch[m] == rest + [c]
    requires ch2[p] == A + [m] + [c] + B && ch2[m] == rest
    requires Leaves(kind, ch2, rank, c) == Leaves(kind, ch, rank, c)
    requires LeavesOf(kind, ch2, rank, A) == LeavesOf(kind, ch, rank, A)
    requires LeavesOf(kind, ch2, rank, B) == LeavesOf(kind, ch, rank, B)
    requires LeavesOf(kind, ch2, rank, rest) == LeavesOf(kind, ch, rank, rest)
    ensures Leaves(kind, ch2, rank, p) == Leaves(kind, ch, rank, p)
  {
    var own := if MayHaveChildren(kind[p]) then [] else [p];
    var la, lc, lr, lb := LeavesOf(kind, ch, rank, A), Leaves(kind, ch, rank, c), LeavesOf(kind, ch, rank, rest), LeavesOf(kind, ch, rank, B);
    LeavesSplit3(kind, ch, rank, p, A, m, B);
    LeavesOfContainer(kind, ch, rank, m);
    LeavesOfAppend(kind, ch, rank, rest, [c]);
    LeavesOfSingle(kind, ch, rank, c);
    assert Leaves(kind, ch, rank, p) == own + (la + (lr + lc) + lb);
    LeavesSplit4(kind, ch2, rank, p, A, m, c, B);
    LeavesOfContainer(kind, ch2, rank, m);
    assert Leaves(kind, ch2, rank, p) == own + (la + lr + lc + lb);
    AppendAssoc(la, lr, lc);
  }

  /**
   * Lifting the first or last child of m next to m keeps the leaf sequence
   * of every node other than m.
   */
  lemma {:induction false} LiftKeeps(kind: Kinds, ch: Children, parent: Parents, rank: Ranks, m: NodeId, first: bool, x: NodeId)
    requires WellFormed(kind, ch, parent, rank) && m in parent && ch[m] != []
    requires x in ch && x != m
    ensures parent[m] in ch && m in ch[parent[m]] && m != parent[m]
    ensures Ranked(Lift(ch, m, parent[m], first), rank)
    ensures Leaves(kind, Lift(ch, m, parent[m], first), rank, x) == Leaves(kind, ch, rank, x)
    decreases rank[x]
  {
    var p := parent[m];
    LiftRanked(kind, ch, parent, rank, m, first);
    var ch2 := Lift(ch, m, p, first);
    LiftShape(ch, m, p, first);
    if x != p {
      var s := ch[x];
      assert ch2[x] == s;
      forall i | 0 <= i < |s|
        ensures Leaves(kind, ch2, rank, s[i]) == Leaves(kind, ch, rank, s[i])
      {
        assert parent[s[i]] == x;
        LiftKeeps(kind, ch, parent, rank, m, first, s[i]);
      }
      LeavesOfPointwise(kind, ch, ch2, rank, s);
      LeavesUnfold(kind, ch, rank, x);
      LeavesUnfold(kind, ch2, rank, x);
    } else {
      LiftAtParent(kind, ch, parent, rank, m, first);
    }
  }

  /** LiftKeeps for every node of a list below the bound, as their joint leaf sequence. */
  lemma {:induction false} LiftKeepsAll(kind: Kinds, ch: Children, parent: Parents, rank: Ranks, m: NodeId, first: bool,
                                        s: seq<NodeId>, bound: nat)
    requires WellFormed(kind, ch, parent, rank) && m in parent && ch[m] != []
    requires forall k :: 0 <= k < |s| ==> s[k] in ch && s[k] != m && rank[s[k]] < bound
    ensures parent[m] in ch && m in ch[parent[m]] && m != parent[m]
    ensures Ranked(Lift(ch, m, parent[m], first), rank) && Lift(ch, m, parent[m], first).Keys == ch.Keys
    ensures LeavesOf(kind, Lift(ch, m, parent[m], first), rank, s) == LeavesOf(kind, ch, rank, s)
    decreases bound, 0
  {
    LiftRanked(kind, ch, parent, rank, m, first);
    var ch2 := Lift(ch, m, parent[m], first);
    forall k | 0 <= k < |s|
      ensures Leaves(kind, ch2, rank, s[k]) == Leaves(kind, ch, rank, s[k])
    {
      LiftKeeps(kind, ch, parent, rank, m, first, s[k]);
    }
    LeavesOfPointwise(kind, ch, ch2, rank, s);
  }

  /** The parent case of LiftKeeps, given the claim for the parent's and m's children. */
  lemma {:induction false} LiftAtParent(kind: Kinds, ch: Children, parent: Parents, rank: Ranks, m: NodeId, first: bool)
    requires WellFormed(kind, ch, parent, rank) && m in parent && ch[m] != []
    ensures parent[m] in ch && m in ch[parent[m]] && m != parent[m]
    ensures Ranked(Lift(ch, m, parent[m], first), rank)
    ensures Leaves(kind, Lift(ch, m, parent[m], first), rank, parent[m]) == Leaves(kind, ch, rank, parent[m])
    decreases rank[parent[m]], 2
  {
    if first {
      LiftFirstAtParent(kind, ch, parent, rank, m);
    } else {
      LiftLastAtParent(kind, ch, parent, rank, m);
    }
  }

  /** The child list of m's parent split around m, with each part known to lie below the parent. */
  lemma AroundChild(kind: Kinds, ch: Children, parent: Parents, rank: Ranks, m: NodeId) returns (A: seq<NodeId>, B: seq<NodeId>)
    requires WellFormed(kind, ch, parent, rank) && m in parent
    ensures parent[m] in ch && m != parent[m]
    ensures A == ch[parent[m]][..IndexOf(ch[parent[m]], m)] && B == ch[parent[m]][IndexOf(ch[parent[m]], m) + 1..]
    ensures ch[parent[m]] == A + [m] + B
    ensures forall k :: 0 <= k < |A| ==> A[k] in ch && A[k] != m && rank[A[k]] < rank[parent[m]]
    ensures forall k :: 0 <= k < |B| ==> B[k] in ch && B[k] != m && rank[B[k]] < rank[parent[m]]
  {
    var p := parent[m];
    ParentOutranks(kind, ch, parent, rank, m);
    var i := IndexOf(ch[p], m);
    A, B := ch[p][..i], ch[p][i + 1..];
    assert ch[p] == A + [m] + B;
    forall k | 0 <= k < |A| ensures A[k] in ch && A[k] != m && rank[A[k]] < rank[p] {
      assert A[k] == ch[p][k];
    }
    forall k | 0 <= k < |B| ensures B[k] in ch && B[k] != m && rank[B[k]] < rank[p] {
      assert B[k] == ch[p][i + 1 + k];
    }
  }

  lemma {:induction false} LiftFirstAtParent(kind: Kinds, ch: Children, parent: Parents, rank: Ranks, m: NodeId)
    requires WellFormed(kind, ch, parent, rank) && m in parent && ch[m] != []
    ensures parent[m] in ch && m in ch[parent[m]] && m != parent[m]
    ensures Ranked(Lift(ch, m, parent[m], true), rank)
    ensures Leaves(kind, Lift(ch, m, parent[m], true), rank, parent[m]) == Leaves(kind, ch, rank, parent[m])
    decreases rank[parent[m]], 1
  {
    var p := parent[m];
    LiftRanked(kind, ch, parent, rank, m, true);
    var A, B := AroundChild(kind, ch, parent, rank, m);
    var ch2 := Lift(ch, m, p, true);
    LiftShape(ch, m, p, true);
    var c, rest := ch[m][0], ch[m][1..];
    assert rank[m] < rank[p];
    forall k | 0 <= k < |rest| ensures rest[k] in ch && rest[k] != m && rank[rest[k]] < rank[p] {
      assert rest[k] == ch[m][k + 1];
    }
    LiftKeepsAll(kind, ch, parent, rank, m, true, A, rank[p]);
    LiftKeepsAll(kind, ch, parent, rank, m, true, B, rank[p]);
    LiftKeepsAll(kind, ch, parent, rank, m, true, rest, rank[p]);
    LiftKeeps(kind, ch, parent, rank, m, true, c);
    SplitFirst(ch[m]);
    LeavesAtParentFirst(kind, ch, ch2, rank, p, m, A, B, c, rest);
  }

  lemma {:induction false} LiftLastAtParent(kind: Kinds, ch: Children, parent: Parents, rank: Ranks, m: NodeId)
    requires WellFormed(kind, ch, parent, rank) && m in parent && ch[m] != []
    ensures parent[m] in ch && m in ch[parent[m]] && m != parent[m]
    ensures Ranked(Lift(ch, m, parent[m], false), rank)
    ensures Leaves(kind, Lift(ch, m, parent[m], false), rank, parent[m]) == Leaves(kind, ch, rank, parent[m])
    decreases rank[parent[m]], 1
  {
    var p := parent[m];
    LiftRanked(kind, ch, parent, rank, m, false);
    var A, B := AroundChild(kind, ch, parent, rank, m);
    var ch2 := Lift(ch, m, p, false);
    LiftShape(ch, m, p, false);
    var last := |ch[m]| - 1;
    var c, rest := ch[m][last], ch[m][..last];
    assert rank[m] < rank[p];
    forall k | 0 <= k < |rest| ensures rest[k] in ch && rest[k] != m && rank[rest[k]] < rank[p] {
      assert rest[k] == ch[m][k];
    }
    LiftKeepsAll(kind, ch, parent, rank, m, false, A, rank[p]);
    LiftKeepsAll(kind, ch, parent, rank, m, false, B, rank[p]);
    LiftKeepsAll(kind, ch, parent, rank, m, false, rest, rank[p]);
    LiftKeeps(kind, ch, parent, rank, m, false, c);
    SplitLast(ch[m]);
    LeavesAtParentLast(kind, ch, ch2, rank, p, m, A, B, c, rest);
  }

  // ---------------------------------------------------------------------
  // A lift as a DOM move

  /** After the move, every listed child is ranked below its new parent and points back to it. */
  lemma MoveChildLinks(kind: Kinds, ch: Children, parent: Parents, rank: Ranks, p: NodeId, c: NodeId, pos: nat)
    requires WellFormed(kind, ch, parent, rank)
    requires p in ch && c in parent && parent[c] != p && rank[c] < rank[p] && c !in ch[p]
    requires pos <= |ch[p]|
    ensures var ch2 := ch[parent[c] := Removed(ch[parent[c]], c)][p := InsertAt(ch[p], c, pos)];
      forall n, i :: n in ch2 && 0 <= i < |ch2[n]| ==>
        ch2[n][i] in ch2 && rank[ch2[n][i]] < rank[n] && ch2[n][i] in parent[c := p] && parent[c := p][ch2[n][i]] == n
  {
    var q := parent[c];
    var rq := Removed(ch[q], c);
    var ch2 := ch[q := rq][p := InsertAt(ch[p], c, pos)];
    forall n, i | n in ch2 && 0 <= i < |ch2[n]|
      ensures ch2[n][i] in ch2 && rank[ch2[n][i]] < rank[n]
      ensures ch2[n][i] in parent[c := p] && parent[c := p][ch2[n][i]] == n
    {
      var y := ch2[n][i];
      if n == p {
        if i != pos {
          var j := if i < pos then i else i - 1;
          assert y == ch[p][j];
        }
      } else if n == q {
        assert y in rq;
        var j :| 0 <= j < |ch[q]| && ch[q][j] == y;
      } else {
        assert y == ch[n][i];
      }
    }
  }

  /**
   * Moving an attached node c out of its parent's list into position pos of
   * p's list (p being neither its present parent nor below it) keeps the
   * tree well formed.
   */
  lemma MoveWellFormed(kind: Kinds, ch: Children, parent: Parents, rank: Ranks, p: NodeId, c: NodeId, pos: nat)
    requires WellFormed(kind, ch, parent, rank)
    requires p in ch && MayHaveChildren(kind[p]) && c in parent && parent[c] != p && rank[c] < rank[p]
    requires pos <= |ch[p]|
    ensures c in ch[parent[c]] && c !in ch[p]
    ensures WellFormed(kind, ch[parent[c] := Removed(ch[parent[c]], c)][p := InsertAt(ch[p], c, pos)], parent[c := p], rank)
  {
    var q := parent[c];
    var rq := Removed(ch[q], c);
    var ch2 := ch[q := rq][p := InsertAt(ch[p], c, pos)];
    var parent2 := parent[c := p];
    assert c !in ch[p];
    InsertAtMembers(ch[p], c, pos);
    MoveChildLinks(kind, ch, parent, rank, p, c, pos);
    forall x | x in parent2
      ensures parent2[x] in ch2 && x in ch2[parent2[x]]
    {
      if x != c {
        var r := parent[x];
        assert x in ch[r];
        if r == q {
          assert x in rq;
        }
      }
    }
    assert MayHaveChildren(kind[q]) by {
      assert ch[q] != [];
    }
  }

  /** Lifting m's first or last child is the DOM move insertBefore performs in the pass. */
  lemma LiftIsMove(kind: Kinds, ch: Children, parent: Parents, rank: Ranks, m: NodeId, first: bool)
    requires WellFormed(kind, ch, parent, rank) && m in parent && ch[m] != []
    ensures parent[m] in ch && m in ch[parent[m]]
    ensures var p := parent[m]; var kids := ch[m];
      var c := if first then kids[0] else kids[|kids| - 1];
      c in parent && parent[c] == m && rank[c] < rank[p] && MayHaveChildren(kind[p]) &&
      Lift(ch, m, p, first) ==
        ch[m := Removed(kids, c)][p := InsertAt(ch[p], c, if first then IndexOf(ch[p], m) else IndexOf(ch[p], m) + 1)]
  {
    var p := parent[m];
    ParentOutranks(kind, ch, parent, rank, m);
    var kids := ch[m];
    var last := |kids| - 1;
    var c := if first then kids[0] else kids[last];
    assert rank[c] < rank[m];
    assert ch[p] != [];
    if first {
      IndexOfDistinct(kids, 0);
      assert kids[..0] + kids[1..] == kids[1..];
    } else {
      IndexOfDistinct(kids, last);
      assert kids[..last] + kids[last + 1..] == kids[..last];
    }
  }

  // ---------------------------------------------------------------------
  // Runs of lifts

  /**
   * m's first n children moved, in their order, to just before m in p's
   * child list: what the end-marker loop does.
   */
  ghost function LeadMove(ch: Children, m: NodeId, p: NodeId, n: nat): Children
    requires m in ch && p in ch && m in ch[p] && n <= |ch[m]|
  {
    var i := IndexOf(ch[p], m);
    ch[m := ch[m][n..]][p := ch[p][..i] + ch[m][..n] + [m] + ch[p][i + 1..]]
  }

  /**
   * m's last n children moved, in their order, to just after m in p's child
   * list: what the start-marker loop does.
   */
  ghost function TrailMove(ch: Children, m: NodeId, p: NodeId, n: nat): Children
    requires m in ch && p in ch && m in ch[p] && n <= |ch[m]|
  {
    var i := IndexOf(ch[p], m);
    var L := ch[m];
    ch[m := L[..|L| - n]][p := ch[p][..i] + [m] + L[|L| - n..] + ch[p][i + 1..]]
  }

  /** A lead move only redistributes the children of m and p: none is lost or duplicated. */
  lemma LeadMoveRedistributes(ch: Children, m: NodeId, p: NodeId, n: nat)
    requires m in ch && p in ch && m != p && m in ch[p] && n <= |ch[m]|
    ensures var r := LeadMove(ch, m, p, n);
      multiset(r[m]) + multiset(r[p]) == multiset(ch[m]) + multiset(ch[p])
  {
    var i := IndexOf(ch[p], m);
    assert ch[m] == ch[m][..n] + ch[m][n..];
    assert ch[p] == ch[p][..i] + [m] + ch[p][i + 1..];
  }

  /** A trail move only redistributes the children of m and p: none is lost or duplicated. */
  lemma TrailMoveRedistributes(ch: Children, m: NodeId, p: NodeId, n: nat)
    requires m in ch && p in ch && m != p && m in ch[p] && n <= |ch[m]|
    ensures var r := TrailMove(ch, m, p, n);
      multiset(r[m]) + multiset(r[p]) == multiset(ch[m]) + multiset(ch[p])
  {
    var i := IndexOf(ch[p], m);
    var L := ch[m];
    assert L == L[..|L| - n] + L[|L| - n..];
    assert ch[p] == ch[p][..i] + [m] + ch[p][i + 1..];
  }

  lemma LeadMoveZero(ch: Children, m: NodeId, p: NodeId)
    requires m in ch && p in ch && m in ch[p]
    ensures LeadMove(ch, m, p, 0) == ch
  {
    var i := IndexOf(ch[p], m);
    assert ch[p][..i] + ch[m][..0] + [m] + ch[p][i + 1..] == ch[p];
  }

  lemma TrailMoveZero(ch: Children, m: NodeId, p: NodeId)
    requires m in ch && p in ch && m in ch[p]
    ensures TrailMove(ch, m, p, 0) == ch
  {
    var i := IndexOf(ch[p], m);
    var L := ch[m];
    assert L[..|L|] == L && L[|L|..] == [];
    assert ch[p][..i] + [m] + L[|L|..] + ch[p][i + 1..] == ch[p];
    assert ch[m := L][p := ch[p]] == ch;
  }

  /** One more turn of the end-marker loop: lift the first remaining child. */
  lemma LeadMoveStep(ch: Children, m: NodeId, p: NodeId, t: nat)
    requires m in ch && p in ch && m != p && m in ch[p] && m !in ch[m] && t < |ch[m]|
    ensures var ch1 := LeadMove(ch, m, p, t);
      m in ch1 && p in ch1 && ch1[m] != [] && m in ch1[p] && ch1[m][0] == ch[m][t] &&
      IndexOf(ch1[p], m) == IndexOf(ch[p], m) + t &&
      Lift(ch1, m, p, true) == LeadMove(ch, m, p, t + 1)
  {
    var i := IndexOf(ch[p], m);
    var P, L := ch[p], ch[m];
    var X, R := P[..i] + L[..t], P[i + 1..];
    assert m !in L[..t];
    IndexOfSplit(X, m, R);
    var ch1 := LeadMove(ch, m, p, t);
    assert ch1[p] == X + [m] + R;
    assert InsertAt(X + [m] + R, L[t], |X|) == X + [L[t]] + [m] + R by {
      assert (X + [m] + R)[..|X|] == X;
      assert (X + [m] + R)[|X|..] == [m] + R;
    }
    assert L[t..][1..] == L[t + 1..];
    assert L[..t + 1] == L[..t] + [L[t]];
    AppendAssoc(P[..i], L[..t], [L[t]]);
    assert X + [L[t]] == P[..i] + L[..t + 1];
    assert Lift(ch1, m, p, true) == ch1[m := L[t + 1..]][p := X + [L[t]] + [m] + R];
  }

  /** Lifting m's last child when m stands between X and Y in p's list. */
  lemma LiftLastAt(ch: Children, m: NodeId, p: NodeId, X: seq<NodeId>, Y: seq<NodeId>)
    requires m in ch && p in ch && m != p && ch[m] != [] && ch[p] == X + [m] + Y && m !in X
    ensures var M := ch[m];
      Lift(ch, m, p, false) == ch[m := M[..|M| - 1]][p := X + [m] + ([M[|M| - 1]] + Y)]
  {
    IndexOfSplit(X, m, Y);
    var M := ch[m];
    assert InsertAt(X + [m] + Y, M[|M| - 1], |X| + 1) == X + [m] + ([M[|M| - 1]] + Y) by {
      assert (X + [m] + Y)[..|X| + 1] == X + [m];
      assert (X + [m] + Y)[|X| + 1..] == Y;
    }
  }

  /** One more turn of the start-marker loop: lift the last remaining child. */
  lemma TrailMoveStep(ch: Children, m: NodeId, p: NodeId, t: nat)
    requires m in ch && p in ch && m != p && m in ch[p] && t < |ch[m]|
    ensures var ch1 := TrailMove(ch, m, p, t); var L := ch[m];
      m in ch1 && p in ch1 && ch1[m] != [] && m in ch1[p] && ch1[m][|ch1[m]| - 1] == L[|L| - t - 1] &&
      IndexOf(ch1[p], m) == IndexOf(ch[p], m) &&
      Lift(ch1, m, p, false) == TrailMove(ch, m, p, t + 1)
  {
    var i := IndexOf(ch[p], m);
    var P, L := ch[p], ch[m];
    var k := |L| - t;
    var X, R := P[..i], P[i + 1..];
    assert P == X + [m] + R;
    TrailMoveAt(ch, m, p, X, R, t);
    TrailMoveAt(ch, m, p, X, R, t + 1);
    var ch1 := TrailMove(ch, m, p, t);
    var Y := L[k..] + R;
    assert ch1[p] == X + [m] + Y;
    IndexOfSplit(X, m, Y);
    LiftLastAt(ch1, m, p, X, Y);
    assert L[..k][..k - 1] == L[..k - 1];
    assert [L[k - 1]] + Y == L[k - 1..] + R by {
      assert L[k - 1..] == [L[k - 1]] + L[k..];
      AppendAssoc([L[k - 1]], L[k..], R);
    }
    AppendAssoc(X + [m], L[k - 1..], R);
  }

  /** A trailing run of t lifts, when m stands between X and R in p's list. */
  lemma TrailMoveAt(ch: Children, m: NodeId, p: NodeId, X: seq<NodeId>, R: seq<NodeId>, t: nat)
    requires m in ch && p in ch && m != p && ch[p] == X + [m] + R && m !in X && t <= |ch[m]|
    ensures TrailMove(ch, m, p, t)[m] == ch[m][..|ch[m]| - t]
    ensures TrailMove(ch, m, p, t)[p] == X + [m] + ch[m][|ch[m]| - t..] + R
    ensures TrailMove(ch, m, p, t).Keys == ch.Keys
    ensures forall y :: y in ch && y != m && y != p ==> TrailMove(ch, m, p, t)[y] == ch[y]
  {
    IndexOfSplit(X, m, R);
    assert ch[p][..|X|] == X;
    assert ch[p][|X| + 1..] == R;
  }

  /** A leading run of n lifts, spelled out around m's place in p. */
  lemma LeadMoveAt(ch: Children, m: NodeId, p: NodeId, n: nat)
    requires m in ch && p in ch && m != p && m in ch[p] && n <= |ch[m]|
    ensures var i := IndexOf(ch[p], m); var ch1 := LeadMove(ch, m, p, n);
      ch1.Keys == ch.Keys && ch1[m] == ch[m][n..] &&
      ch1[p] == ch[p][..i] + ch[m][..n] + [m] + ch[p][i + 1..] &&
      forall y :: y in ch && y != m && y != p ==> ch1[y] == ch[y]
  {
  }

  /** A leading run of n lifts followed by a trailing run of t lifts, spelled out. */
  lemma LeadTrailShape(ch: Children, m: NodeId, p: NodeId, n: nat, t: nat)
    requires m in ch && p in ch && m != p && m in ch[p] && m !in ch[m] && n + t <= |ch[m]|
    ensures LeadMove(ch, m, p, n)[m] == ch[m][n..] && m in LeadMove(ch, m, p, n)[p]
    ensures var ch2 := TrailMove(LeadMove(ch, m, p, n), m, p, t); var L := ch[m]; var i := IndexOf(ch[p], m);
      ch2.Keys == ch.Keys && ch2[m] == L[n..|L| - t] &&
      ch2[p] == ch[p][..i] + L[..n] + [m] + L[|L| - t..] + ch[p][i + 1..] &&
      forall y :: y in ch && y != m && y != p ==> ch2[y] == ch[y]
  {
    var P, L := ch[p], ch[m];
    var i := IndexOf(P, m);
    var X, R := P[..i] + L[..n], P[i + 1..];
    LeadMoveAt(ch, m, p, n);
    var ch1 := LeadMove(ch, m, p, n);
    assert m !in L[..n];
    var M := ch1[m];
    TrailMoveAt(ch1, m, p, X, R, t);
    assert M[..|M| - t] == L[n..|L| - t];
    assert M[|M| - t..] == L[|L| - t..];
  }

  /** The same, read as a split of m's children into the part that leaves in front, what stays and the part that leaves behind. */
  lemma LeadTrailSplit(ch: Children, m: NodeId, p: NodeId, n: nat, t: nat)
    requires m in ch && p in ch && m != p && m in ch[p] && m !in ch[m] && n + t <= |ch[m]|
    ensures var ch2 := TrailMove(LeadMove(ch, m, p, n), m, p, t); var L := ch[m]; var i := IndexOf(ch[p], m);
      ch2.Keys == ch.Keys && L == L[..n] + ch2[m] + L[|L| - t..] &&
      ch2[p] == ch[p][..i] + L[..n] + [m] + L[|L| - t..] + ch[p][i + 1..] &&
      forall y :: y in ch && y != m && y != p ==> ch2[y] == ch[y]
  {
    LeadTrailShape(ch, m, p, n, t);
    var L := ch[m];
    assert L == L[..n] + L[n..|L| - t] + L[|L| - t..];
  }
}
