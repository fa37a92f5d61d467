/**
 * What a change confined to one subtree leaves alone, and why the subtrees
 * of two siblings never share a node.
 */
module TreeFrame {
  import opened Nodes
  import opened Seqs
  import opened Tree

  /**
   * Sub, Leaves and PostOrder at n read only the child lists of the nodes
   * below n: two arenas that agree there agree on all three.
   */
  lemma {:induction false} FrameSub(kind: Kinds, ch1: Children, ch2: Children, rank: Ranks, n: NodeId)
    requires Ranked(ch1, rank) && Ranked(ch2, rank)
    requires ch1.Keys <= kind.Keys && ch2.Keys <= kind.Keys && n in ch1
    requires forall x :: x in Sub(ch1, rank, n) ==> x in ch2 && ch2[x] == ch1[x]
    ensures Sub(ch2, rank, n) == Sub(ch1, rank, n)
    ensures Leaves(kind, ch2, rank, n) == Leaves(kind, ch1, rank, n)
    ensures PostOrder(ch2, rank, n) == PostOrder(ch1, rank, n)
    decreases rank[n]
  {
    var s := ch1[n];
    assert ch2[n] == s;
    forall i | 0 <= i < |s|
      ensures Sub(ch2, rank, s[i]) == Sub(ch1, rank, s[i])
      ensures Leaves(kind, ch2, rank, s[i]) == Leaves(kind, ch1, rank, s[i])
      ensures PostOrder(ch2, rank, s[i]) == PostOrder(ch1, rank, s[i])
      ensures ch2[s[i]] == ch1[s[i]]
    {
      forall x | x in Sub(ch1, rank, s[i]) ensures x in Sub(ch1, rank, n) { }
      FrameSub(kind, ch1, ch2, rank, s[i]);
    }
    assert seq(|s|, i requires 0 <= i < |s| => Leaves(kind, ch2, rank, s[i])) ==
           seq(|s|, i requires 0 <= i < |s| => Leaves(kind, ch1, rank, s[i]));
    assert seq(|s|, i requires 0 <= i < |s| => if ch2[s[i]] == [] then [] else PostOrder(ch2, rank, s[i])) ==
           seq(|s|, i requires 0 <= i < |s| => if ch1[s[i]] == [] then [] else PostOrder(ch1, rank, s[i]));
    SubUnfold(ch1, rank, n);
    SubUnfold(ch2, rank, n);
  }

  /** A node strictly below a has a parent, and that parent is below a too. */
  lemma {:induction false} UpStep(kind: Kinds, ch: Children, parent: Parents, rank: Ranks, a: NodeId, x: NodeId)
    requires WellFormed(kind, ch, parent, rank) && a in ch
    requires x in Sub(ch, rank, a) && x != a
    ensures x in parent && parent[x] in Sub(ch, rank, a)
    decreases rank[a]
  {
    var i :| 0 <= i < |ch[a]| && x in Sub(ch, rank, ch[a][i]);
    var c := ch[a][i];
    if x != c {
      UpStep(kind, ch, parent, rank, c, x);
      var q := parent[x];
      assert q in Sub(ch, rank, c);
    }
  }

  /** A parent outranks its child. */
  lemma ParentOutranks(kind: Kinds, ch: Children, parent: Parents, rank: Ranks, x: NodeId)
    requires WellFormed(kind, ch, parent, rank) && x in parent
    ensures x in ch && rank[x] < rank[parent[x]]
  {
    var q := parent[x];
    var k := IndexOf(ch[q], x);
  }

  /** Two subtrees that share a node are nested. */
  lemma {:induction false} Chain(kind: Kinds, ch: Children, parent: Parents, rank: Ranks, a: NodeId, b: NodeId, x: NodeId)
    requires WellFormed(kind, ch, parent, rank) && a in ch && b in ch
    requires x in Sub(ch, rank, a) && x in Sub(ch, rank, b)
    ensures a in Sub(ch, rank, b) || b in Sub(ch, rank, a)
    decreases rank[a] - rank[x]
  {
    if x != a && x != b {
      UpStep(kind, ch, parent, rank, a, x);
      UpStep(kind, ch, parent, rank, b, x);
      ParentOutranks(kind, ch, parent, rank, x);
      Chain(kind, ch, parent, rank, a, b, parent[x]);
    }
  }

  /** The subtree of a child shares no node with the subtrees of its elder siblings. */
  lemma SiblingsDisjoint(kind: Kinds, ch: Children, parent: Parents, rank: Ranks, n: NodeId, j: nat)
    requires WellFormed(kind, ch, parent, rank) && n in ch && j < |ch[n]|
    ensures Sub(ch, rank, ch[n][j]) !! SubOf(ch, rank, ch[n][..j])
  {
    var a := ch[n][j];
    forall x | x in Sub(ch, rank, a) && x in SubOf(ch, rank, ch[n][..j]) ensures false {
      var k :| 0 <= k < j && x in Sub(ch, rank, ch[n][..j][k]);
      var b := ch[n][k];
      assert ch[n][..j][k] == b;
      Chain(kind, ch, parent, rank, a, b, x);
      if a in Sub(ch, rank, b) {
        UpStep(kind, ch, parent, rank, b, a);
      } else {
        UpStep(kind, ch, parent, rank, a, b);
      }
    }
  }

  /**
   * A change that touches only child lists below n and keeps n's leaf
   * sequence keeps the leaf sequence of every node outside n's subtree: an
   * ancestor of n sees n's leaves in n's place, any other node sees nothing
   * that changed.
   */
  lemma {:induction false} LeavesOutside(kind: Kinds, ch1: Children, parent: Parents, rank: Ranks, ch2: Children,
                                         n: NodeId, x: NodeId)
    requires WellFormed(kind, ch1, parent, rank) && Ranked(ch2, rank) && ch2.Keys == ch1.Keys && n in ch1
    requires forall y :: y in ch1 && y !in Sub(ch1, rank, n) ==> ch2[y] == ch1[y]
    requires Leaves(kind, ch2, rank, n) == Leaves(kind, ch1, rank, n)
    requires x in ch1 && (x == n || x !in Sub(ch1, rank, n))
    ensures Leaves(kind, ch2, rank, x) == Leaves(kind, ch1, rank, x)
    decreases rank[x]
  {
    if x != n {
      var s := ch1[x];
      assert ch2[x] == s;
      forall i | 0 <= i < |s|
        ensures Leaves(kind, ch2, rank, s[i]) == Leaves(kind, ch1, rank, s[i])
      {
        var y := s[i];
        assert y == n || y !in Sub(ch1, rank, n) by {
          if y != n && y in Sub(ch1, rank, n) {
            UpStep(kind, ch1, parent, rank, n, y);
          }
        }
        LeavesOutside(kind, ch1, parent, rank, ch2, n, y);
      }
      LeavesOfPointwise(kind, ch1, ch2, rank, s);
      LeavesUnfold(kind, ch1, rank, x);
      LeavesUnfold(kind, ch2, rank, x);
    }
  }
}
