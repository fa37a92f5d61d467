/**
 * The document tree as values: a kind per node, an ordered child list per
 * node and a parent per attached node. A rank per node (strictly larger than
 * the ranks of its children) witnesses that the parent links have no cycle;
 * the marker-migration pass only ever lifts a node one level up, next to its
 * old parent, so a single rank serves the tree before and after every move.
 *
 * On these values are defined what the pass is specified by: the nodes
 * below a node (Sub), the left-to-right sequence of leaf nodes (Leaves: text,
 * comments and marker metas) and the post-order in which the pass checks
 * nodes (PostOrder).
 */
module Tree {
  import opened Nodes
  import opened Seqs

  type Kinds = map<NodeId, NodeKind>
  type Children = map<NodeId, seq<NodeId>>
  type Parents = map<NodeId, NodeId>
  type Ranks = map<NodeId, nat>

  /** Every child is a node of the arena and ranks lower than its parent. */
  ghost predicate Ranked(ch: Children, rank: Ranks) {
    ch.Keys <= rank.Keys &&
    forall n, i :: n in ch && 0 <= i < |ch[n]| ==> ch[n][i] in ch && rank[ch[n][i]] < rank[n]
  }

  /**
   * A DOM tree: child lists and parent links agree, a node appears at most
   * once in a child list and in at most one child list, there is no cycle,
   * and only the fragment root and non-marker elements hold children.
   */
  ghost predicate WellFormed(kind: Kinds, ch: Children, parent: Parents, rank: Ranks) {
    ch.Keys == kind.Keys && Ranked(ch, rank) &&
    (forall n, i :: n in ch && 0 <= i < |ch[n]| ==> ch[n][i] in parent && parent[ch[n][i]] == n) &&
    (forall c :: c in parent ==> parent[c] in ch && c in ch[parent[c]]) &&
    (forall n :: n in ch ==> Distinct(ch[n])) &&
    (forall n :: n in ch && ch[n] != [] ==> MayHaveChildren(kind[n]))
  }

  /** The nodes of the subtree rooted at n, n included. */
  ghost function Sub(ch: Children, rank: Ranks, n: NodeId): (r: set<NodeId>)
    requires Ranked(ch, rank) && n in ch
    ensures n in r
    ensures forall x :: x in r ==> x in ch && rank[x] <= rank[n]
    decreases rank[n]
  {
    {n} + set i, x | 0 <= i < |ch[n]| && x in Sub(ch, rank, ch[n][i]) :: x
  }

  /** The nodes of the subtrees rooted at the nodes of s. */
  ghost function SubOf(ch: Children, rank: Ranks, s: seq<NodeId>): set<NodeId>
    requires Ranked(ch, rank) && forall i :: 0 <= i < |s| ==> s[i] in ch
  {
    set i, x | 0 <= i < |s| && x in Sub(ch, rank, s[i]) :: x
  }

  /** The leaf nodes (text, comments, marker metas) below n, in document order. */
  ghost function Leaves(kind: Kinds, ch: Children, rank: Ranks, n: NodeId): seq<NodeId>
    requires Ranked(ch, rank) && ch.Keys <= kind.Keys && n in ch
    decreases rank[n]
  {
    (if MayHaveChildren(kind[n]) then [] else [n]) +
    Concat(seq(|ch[n]|, i requires 0 <= i < |ch[n]| => Leaves(kind, ch, rank, ch[n][i])))
  }

  /** The leaf nodes below the nodes of s, in document order. */
  ghost function LeavesOf(kind: Kinds, ch: Children, rank: Ranks, s: seq<NodeId>): seq<NodeId>
    requires Ranked(ch, rank) && ch.Keys <= kind.Keys && forall i :: 0 <= i < |s| ==> s[i] in ch
  {
    Concat(seq(|s|, i requires 0 <= i < |s| => Leaves(kind, ch, rank, s[i])))
  }

  /**
   * The order in which the pass checks nodes for migration when started at
   * n: each child that has children is processed, left to right, and then n
   * itself.
   */
  ghost function PostOrder(ch: Children, rank: Ranks, n: NodeId): seq<NodeId>
    requires Ranked(ch, rank) && n in ch
    decreases rank[n]
  {
    Concat(seq(|ch[n]|, i requires 0 <= i < |ch[n]| =>
      if ch[ch[n][i]] == [] then [] else PostOrder(ch, rank, ch[n][i])))
    + [n]
  }

  /** The checks made for the nodes of s, taken as siblings, left to right. */
  ghost function PostOrderOf(ch: Children, rank: Ranks, s: seq<NodeId>): seq<NodeId>
    requires Ranked(ch, rank) && forall i :: 0 <= i < |s| ==> s[i] in ch
  {
    Concat(seq(|s|, i requires 0 <= i < |s| =>
      if ch[s[i]] == [] then [] else PostOrder(ch, rank, s[i])))
  }

  /** visited is the order in which the pass checks the nodes of n's subtree. */
  ghost predicate IsPostOrder(ch: Children, rank: Ranks, n: NodeId, visited: seq<NodeId>) {
    Ranked(ch, rank) && n in ch && visited == PostOrder(ch, rank, n)
  }

  /**
   * Conservation of the leaf order: in ch2 every node of ch1 other than m
   * has the leaf sequence it has in ch1.
   */
  ghost predicate LeavesKept(kind: Kinds, rank: Ranks, ch1: Children, ch2: Children, m: NodeId) {
    Ranked(ch1, rank) && Ranked(ch2, rank) && ch1.Keys <= kind.Keys && ch2.Keys == ch1.Keys &&
    forall x :: x in ch1 && x != m ==> Leaves(kind, ch2, rank, x) == Leaves(kind, ch1, rank, x)
  }

  lemma LeavesKeptRefl(kind: Kinds, rank: Ranks, ch: Children, m: NodeId)
    requires Ranked(ch, rank) && ch.Keys <= kind.Keys
    ensures LeavesKept(kind, rank, ch, ch, m)
  {
  }

  lemma LeavesKeptTrans(kind: Kinds, rank: Ranks, ch1: Children, ch2: Children, ch3: Children, m: NodeId)
    requires LeavesKept(kind, rank, ch1, ch2, m) && LeavesKept(kind, rank, ch2, ch3, m)
    ensures LeavesKept(kind, rank, ch1, ch3, m)
  {
  }

  /**
   * Conservation of the leaf order around a zone: in ch2 every node of ch1
   * outside zone has the leaf sequence it has in ch1.
   */
  ghost predicate LeavesKeptOutside(kind: Kinds, rank: Ranks, ch1: Children, ch2: Children, zone: set<NodeId>) {
    Ranked(ch1, rank) && Ranked(ch2, rank) && ch1.Keys <= kind.Keys && ch2.Keys == ch1.Keys &&
    forall x :: x in ch1 && x !in zone ==> Leaves(kind, ch2, rank, x) == Leaves(kind, ch1, rank, x)
  }

  /** Nothing changes outside a zone: every child list of a node outside it is as it was. */
  ghost predicate SameOutside(ch1: Children, ch2: Children, zone: set<NodeId>) {
    ch2.Keys == ch1.Keys && forall y :: y in ch1 && y !in zone ==> ch2[y] == ch1[y]
  }

  lemma LeavesKeptAt(kind: Kinds, rank: Ranks, ch1: Children, ch2: Children, zone: set<NodeId>, x: NodeId)
    requires LeavesKeptOutside(kind, rank, ch1, ch2, zone) && x in ch1 && x !in zone
    ensures Leaves(kind, ch2, rank, x) == Leaves(kind, ch1, rank, x)
  {
  }

  lemma SameOutsideTrans(ch1: Children, ch2: Children, ch3: Children, z1: set<NodeId>, z2: set<NodeId>)
    requires SameOutside(ch1, ch2, z1) && SameOutside(ch2, ch3, z2)
    ensures SameOutside(ch1, ch3, z1 + z2)
  {
  }

  // ---------------------------------------------------------------------
  // Unfolding and splitting

  lemma SubUnfold(ch: Children, rank: Ranks, n: NodeId)
    requires Ranked(ch, rank) && n in ch
    ensures Sub(ch, rank, n) == {n} + SubOf(ch, rank, ch[n])
  {
  }

  lemma LeavesUnfold(kind: Kinds, ch: Children, rank: Ranks, n: NodeId)
    requires Ranked(ch, rank) && ch.Keys <= kind.Keys && n in ch
    ensures Leaves(kind, ch, rank, n) ==
      (if MayHaveChildren(kind[n]) then [] else [n]) + LeavesOf(kind, ch, rank, ch[n])
  {
    assert seq(|ch[n]|, i requires 0 <= i < |ch[n]| => Leaves(kind, ch, rank, ch[n][i])) ==
      seq(|ch[n]|, i requires 0 <= i < |ch[n]| => Leaves(kind, ch, rank, ch[n][i]));
  }

  lemma PostOrderUnfold(ch: Children, rank: Ranks, n: NodeId)
    requires Ranked(ch, rank) && n in ch
    ensures PostOrder(ch, rank, n) == PostOrderOf(ch, rank, ch[n]) + [n]
  {
  }

  lemma LeavesOfAppend(kind: Kinds, ch: Children, rank: Ranks, a: seq<NodeId>, b: seq<NodeId>)
    requires Ranked(ch, rank) && ch.Keys <= kind.Keys
    requires forall i :: 0 <= i < |a| ==> a[i] in ch
    requires forall i :: 0 <= i < |b| ==> b[i] in ch
    ensures LeavesOf(kind, ch, rank, a + b) == LeavesOf(kind, ch, rank, a) + LeavesOf(kind, ch, rank, b)
  {
    var f := i requires 0 <= i < |a + b| => Leaves(kind, ch, rank, (a + b)[i]);
    var fa := i requires 0 <= i < |a| => Leaves(kind, ch, rank, a[i]);
    var fb := i requires 0 <= i < |b| => Leaves(kind, ch, rank, b[i]);
    assert seq(|a + b|, f) == seq(|a|, fa) + seq(|b|, fb);
    ConcatAppend(seq(|a|, fa), seq(|b|, fb));
  }

  lemma LeavesOfSingle(kind: Kinds, ch: Children, rank: Ranks, y: NodeId)
    requires Ranked(ch, rank) && ch.Keys <= kind.Keys && y in ch
    ensures LeavesOf(kind, ch, rank, [y]) == Leaves(kind, ch, rank, y)
  {
    var s := seq(|[y]|, i requires 0 <= i < |[y]| => Leaves(kind, ch, rank, [y][i]));
    assert s[..0] == [];
    assert Concat(s) == Concat(s[..0]) + s[0];
  }

  lemma PostOrderOfAppend(ch: Children, rank: Ranks, s: seq<NodeId>, y: NodeId)
    requires Ranked(ch, rank) && y in ch && forall i :: 0 <= i < |s| ==> s[i] in ch
    ensures PostOrderOf(ch, rank, s + [y]) ==
      PostOrderOf(ch, rank, s) + (if ch[y] == [] then [] else PostOrder(ch, rank, y))
  {
    var t := s + [y];
    var f := seq(|t|, i requires 0 <= i < |t| => if ch[t[i]] == [] then [] else PostOrder(ch, rank, t[i]));
    assert f[..|f| - 1] == seq(|s|, i requires 0 <= i < |s| => if ch[s[i]] == [] then [] else PostOrder(ch, rank, s[i]));
  }

  lemma SubOfAppend(ch: Children, rank: Ranks, s: seq<NodeId>, y: NodeId)
    requires Ranked(ch, rank) && y in ch && forall i :: 0 <= i < |s| ==> s[i] in ch
    ensures SubOf(ch, rank, s + [y]) == SubOf(ch, rank, s) + Sub(ch, rank, y)
  {
    var t := s + [y];
    forall x | x in Sub(ch, rank, y) ensures x in SubOf(ch, rank, t) {
      assert t[|s|] == y;
    }
    forall x | x in SubOf(ch, rank, s) ensures x in SubOf(ch, rank, t) {
      var i :| 0 <= i < |s| && x in Sub(ch, rank, s[i]);
      assert t[i] == s[i];
    }
  }

  lemma SubOfConcat(ch: Children, rank: Ranks, a: seq<NodeId>, b: seq<NodeId>)
    requires Ranked(ch, rank)
    requires forall i :: 0 <= i < |a| ==> a[i] in ch
    requires forall i :: 0 <= i < |b| ==> b[i] in ch
    ensures SubOf(ch, rank, a + b) == SubOf(ch, rank, a) + SubOf(ch, rank, b)
  {
    var t := a + b;
    forall x | x in SubOf(ch, rank, t) ensures x in SubOf(ch, rank, a) + SubOf(ch, rank, b) {
      var i :| 0 <= i < |t| && x in Sub(ch, rank, t[i]);
      if i < |a| { assert t[i] == a[i]; } else { assert t[i] == b[i - |a|]; }
    }
    forall x | x in SubOf(ch, rank, a) ensures x in SubOf(ch, rank, t) {
      var i :| 0 <= i < |a| && x in Sub(ch, rank, a[i]);
      assert t[i] == a[i];
    }
    forall x | x in SubOf(ch, rank, b) ensures x in SubOf(ch, rank, t) {
      var i :| 0 <= i < |b| && x in Sub(ch, rank, b[i]);
      assert t[|a| + i] == b[i];
    }
  }

  lemma SubOfSingle(ch: Children, rank: Ranks, y: NodeId)
    requires Ranked(ch, rank) && y in ch
    ensures SubOf(ch, rank, [y]) == Sub(ch, rank, y)
  {
    forall x | x in Sub(ch, rank, y) ensures x in SubOf(ch, rank, [y]) {
      assert [y][0] == y;
    }
  }

  /** Two arenas that agree on the leaves of each node of s agree on the leaves of s. */
  lemma LeavesOfPointwise(kind: Kinds, ch1: Children, ch2: Children, rank: Ranks, s: seq<NodeId>)
    requires Ranked(ch1, rank) && Ranked(ch2, rank) && ch1.Keys <= kind.Keys && ch2.Keys <= kind.Keys
    requires forall i :: 0 <= i < |s| ==> s[i] in ch1 && s[i] in ch2
    requires forall i :: 0 <= i < |s| ==> Leaves(kind, ch2, rank, s[i]) == Leaves(kind, ch1, rank, s[i])
    ensures LeavesOf(kind, ch2, rank, s) == LeavesOf(kind, ch1, rank, s)
  {
    assert seq(|s|, i requires 0 <= i < |s| => Leaves(kind, ch2, rank, s[i])) ==
           seq(|s|, i requires 0 <= i < |s| => Leaves(kind, ch1, rank, s[i]));
  }

  /** Two arenas that agree on the subtree of each node of s agree on the subtrees of s. */
  lemma SubOfPointwise(ch1: Children, ch2: Children, rank: Ranks, s: seq<NodeId>)
    requires Ranked(ch1, rank) && Ranked(ch2, rank)
    requires forall i :: 0 <= i < |s| ==> s[i] in ch1 && s[i] in ch2
    requires forall i :: 0 <= i < |s| ==> Sub(ch2, rank, s[i]) == Sub(ch1, rank, s[i])
    ensures SubOf(ch2, rank, s) == SubOf(ch1, rank, s)
  {
  }

  lemma LeavesOfAround(kind: Kinds, ch: Children, rank: Ranks, a: seq<NodeId>, y: NodeId, b: seq<NodeId>)
    requires Ranked(ch, rank) && ch.Keys <= kind.Keys && y in ch
    requires forall i :: 0 <= i < |a| ==> a[i] in ch
    requires forall i :: 0 <= i < |b| ==> b[i] in ch
    ensures LeavesOf(kind, ch, rank, a + [y] + b) ==
      LeavesOf(kind, ch, rank, a) + Leaves(kind, ch, rank, y) + LeavesOf(kind, ch, rank, b)
  {
    LeavesOfAppend(kind, ch, rank, a + [y], b);
    LeavesOfAppend(kind, ch, rank, a, [y]);
    LeavesOfSingle(kind, ch, rank, y);
  }

  lemma SubOfAround(ch: Children, rank: Ranks, a: seq<NodeId>, y: NodeId, b: seq<NodeId>)
    requires Ranked(ch, rank) && y in ch
    requires forall i :: 0 <= i < |a| ==> a[i] in ch
    requires forall i :: 0 <= i < |b| ==> b[i] in ch
    ensures SubOf(ch, rank, a + [y] + b) == SubOf(ch, rank, a) + Sub(ch, rank, y) + SubOf(ch, rank, b)
  {
    SubOfConcat(ch, rank, a + [y], b);
    SubOfConcat(ch, rank, a, [y]);
    SubOfSingle(ch, rank, y);
  }
}
