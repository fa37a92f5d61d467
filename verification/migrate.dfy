/**
 * MigrateTemplateMarkerMetas: the Parsoid DOM post-processing pass that moves
 * template/extension boundary markers out of wrapper elements whose start or
 * end tag produced no wikitext, so that each marker sits as close as
 * possible to the content the template produced.
 *
 * doMigrate is split along its three parts: the walk over the children
 * (MigrateChildren), the node's own check (MigrateOut) with its two loops
 * (MigrateLeading, MigrateTrailing), and DoMigrate, which runs the first
 * two in order.
 */
module MigrateTemplateMarkerMetas {
  import opened Wrappers
  import opened Nodes
  import opened Seqs
  import opened Tree
  import opened TreeFrame
  import opened TreeMoves
  import opened Boundary
  import opened Dom

  // ---------------------------------------------------------------------
  // The node's own check, on values

  /**
   * How many leading and how many trailing children the node's own check
   * moves out: the leading run is decided on the node's children, the
   * trailing run on what the leading move leaves behind.
   */
  ghost function Runs(widths: TagWidths, kind: Kinds, L: seq<NodeId>, k: NodeKind): (r: (nat, nat))
    requires forall i :: 0 <= i < |L| ==> L[i] in kind
    requires L != [] ==> MayHaveChildren(k)
    ensures r.0 + r.1 <= |L|
  {
    var ks := KindsOf(kind, L);
    var n := LeadingRun(widths, k, ks);
    (n, TrailingRun(widths, k, ks[n..]))
  }

  /** Where a node with a parent stands, as far as its own check needs to know. */
  lemma Placement(kind: Kinds, ch: Children, parent: Parents, rank: Ranks, node: NodeId)
    requires WellFormed(kind, ch, parent, rank) && node in parent
    ensures var p := parent[node];
      node in ch && p in ch && node != p && node in ch[p] && node !in ch[node] && node in kind &&
      (forall i :: 0 <= i < |ch[node]| ==> ch[node][i] in kind) &&
      (ch[node] != [] ==> MayHaveChildren(kind[node]))
  {
    ParentOutranks(kind, ch, parent, rank, node);
  }

  /**
   * The node's own migration check applied to child lists ch: its leading
   * run (up to a first end-marker) lifted to just before it, then the
   * trailing run (from a last start-marker) of what remains lifted to just
   * after it. At the top of the fragment nothing moves.
   */
  ghost function OwnStep(widths: TagWidths, kind: Kinds, ch: Children, parent: Parents, rank: Ranks, node: NodeId): (r: Children)
    requires WellFormed(kind, ch, parent, rank) && node in ch
    requires node in parent || AtTheTop(kind[node])
    ensures r.Keys == ch.Keys
    ensures AtTheTop(kind[node]) ==> r == ch
  {
    if AtTheTop(kind[node]) then ch
    else
      Placement(kind, ch, parent, rank, node);
      var p := parent[node];
      var r := Runs(widths, kind, ch[node], kind[node]);
      LeadTrailShape(ch, node, p, r.0, r.1);
      TrailMove(LeadMove(ch, node, p, r.0), node, p, r.1)
  }

  /** The children the node's own check moves out in front of it. */
  ghost function LeadOut(widths: TagWidths, kind: Kinds, ch: Children, parent: Parents, rank: Ranks, node: NodeId): seq<NodeId>
    requires WellFormed(kind, ch, parent, rank) && node in ch
  {
    var L := ch[node];
    L[..Runs(widths, kind, L, kind[node]).0]
  }

  /** The children the node's own check moves out behind it. */
  ghost function TrailOut(widths: TagWidths, kind: Kinds, ch: Children, parent: Parents, rank: Ranks, node: NodeId): seq<NodeId>
    requires WellFormed(kind, ch, parent, rank) && node in ch
  {
    var L := ch[node];
    L[|L| - Runs(widths, kind, L, kind[node]).1..]
  }

  /**
   * What the node's own check does to the tree: its children split into a
   * leading run, what stays and a trailing run; the leading run lands, in
   * order, just before the node in its parent's list and the trailing run
   * just after it; no other child list changes and no node appears or
   * disappears.
   */
  lemma OwnStepShape(widths: TagWidths, kind: Kinds, ch: Children, parent: Parents, rank: Ranks, node: NodeId)
    requires WellFormed(kind, ch, parent, rank) && node in parent
    ensures parent[node] in ch && node in ch[parent[node]]
    ensures var r := OwnStep(widths, kind, ch, parent, rank, node); var p := parent[node];
      var A := LeadOut(widths, kind, ch, parent, rank, node);
      var B := TrailOut(widths, kind, ch, parent, rank, node);
      r.Keys == ch.Keys && ch[node] == A + r[node] + B && Spliced(ch[p], node, A, B, r[p]) &&
      forall y :: y in ch && y != node && y != p ==> r[y] == ch[y]
  {
    if AtTheTop(kind[node]) {
      OwnStepShapeTop(widths, kind, ch, parent, rank, node);
    } else {
      OwnStepShapeBelow(widths, kind, ch, parent, rank, node);
    }
  }

  /** OwnStepShape for a node at the top of the fragment, which has a parent but keeps its children. */
  lemma OwnStepShapeTop(widths: TagWidths, kind: Kinds, ch: Children, parent: Parents, rank: Ranks, node: NodeId)
    requires WellFormed(kind, ch, parent, rank) && node in parent && AtTheTop(kind[node])
    ensures parent[node] in ch && node in ch[parent[node]]
    ensures var r := OwnStep(widths, kind, ch, parent, rank, node); var p := parent[node];
      var A := LeadOut(widths, kind, ch, parent, rank, node);
      var B := TrailOut(widths, kind, ch, parent, rank, node);
      r.Keys == ch.Keys && ch[node] == A + r[node] + B && Spliced(ch[p], node, A, B, r[p]) &&
      forall y :: y in ch && y != node && y != p ==> r[y] == ch[y]
  {
    Placement(kind, ch, parent, rank, node);
    var L := ch[node];
    assert OwnStep(widths, kind, ch, parent, rank, node) == ch;
    LeadOutRun(widths, kind, ch, parent, rank, node);
    TrailOutRun(widths, kind, ch, parent, rank, node);
    assert Runs(widths, kind, L, kind[node]) == (0, 0);
    assert L[..0] == [] && L[|L| - 0..] == [] && L == [] + L + [];
    SplicedNothing(ch[parent[node]], node);
  }

  /** OwnStepShape for a node below the top of the fragment. */
  lemma OwnStepShapeBelow(widths: TagWidths, kind: Kinds, ch: Children, parent: Parents, rank: Ranks, node: NodeId)
    requires WellFormed(kind, ch, parent, rank) && node in parent && !AtTheTop(kind[node])
    ensures parent[node] in ch && node in ch[parent[node]]
    ensures var r := OwnStep(widths, kind, ch, parent, rank, node); var p := parent[node];
      var A := LeadOut(widths, kind, ch, parent, rank, node);
      var B := TrailOut(widths, kind, ch, parent, rank, node);
      r.Keys == ch.Keys && ch[node] == A + r[node] + B && Spliced(ch[p], node, A, B, r[p]) &&
      forall y :: y in ch && y != node && y != p ==> r[y] == ch[y]
  {
    Placement(kind, ch, parent, rank, node);
    var n := Runs(widths, kind, ch[node], kind[node]);
    LeadTrailSplit(ch, node, parent[node], n.0, n.1);
  }

  /**
   * The leading run the node's own check picks out ends in an end-marker
   * and is separators before it; it is non-empty only for an element below
   * the top of the fragment.
   */
  lemma LeadRunIsMarkerRun(widths: TagWidths, kind: Kinds, L: seq<NodeId>, k: NodeKind)
    requires forall i :: 0 <= i < |L| ==> L[i] in kind
    requires L != [] ==> MayHaveChildren(k)
    ensures var A := L[..Runs(widths, kind, L, k).0];
      A != [] ==> (!AtTheTop(k) && k.Element? &&
        IsTplEndMarkerMeta(kind[A[|A| - 1]]) && forall j :: 0 <= j < |A| - 1 ==> IsSeparator(kind[A[j]]))
  {
    var ks := KindsOf(kind, L);
    var n := LeadingRun(widths, k, ks);
    assert Runs(widths, kind, L, k).0 == n;
    var A := L[..n];
    if A != [] {
      assert A[|A| - 1] == L[n - 1];
      forall j | 0 <= j < |A| - 1 ensures IsSeparator(kind[A[j]]) {
        assert A[j] == L[j];
      }
    }
  }

  /**
   * The trailing run the node's own check picks out starts with a
   * start-marker and is separators after it; it is non-empty only for an
   * element below the top of the fragment.
   */
  lemma TrailRunIsMarkerRun(widths: TagWidths, kind: Kinds, L: seq<NodeId>, k: NodeKind)
    requires forall i :: 0 <= i < |L| ==> L[i] in kind
    requires L != [] ==> MayHaveChildren(k)
    ensures var B := L[|L| - Runs(widths, kind, L, k).1..];
      B != [] ==> (!AtTheTop(k) && k.Element? &&
        IsTplStartMarkerMeta(kind[B[0]]) && forall j :: 0 < j < |B| ==> IsSeparator(kind[B[j]]))
  {
    var ks := KindsOf(kind, L);
    var n := LeadingRun(widths, k, ks);
    var M := ks[n..];
    var t := TrailingRun(widths, k, M);
    assert Runs(widths, kind, L, k).1 == t;
    var B := L[|L| - t..];
    if t > 0 {
      var a := |M| - t;
      assert IsTplStartMarkerMeta(M[a]);
      assert M[a] == ks[|L| - t] == kind[B[0]];
      forall j | 0 < j < |B| ensures IsSeparator(kind[B[j]]) {
        assert M[a + j] == ks[|L| - t + j];
        assert B[j] == L[|L| - t + j];
      }
    }
  }

  /** LeadOut is the leading run of the node's own children. */
  lemma LeadOutRun(widths: TagWidths, kind: Kinds, ch: Children, parent: Parents, rank: Ranks, node: NodeId)
    requires WellFormed(kind, ch, parent, rank) && node in ch
    ensures forall i :: 0 <= i < |ch[node]| ==> ch[node][i] in kind
    ensures ch[node] != [] ==> MayHaveChildren(kind[node])
    ensures var L := ch[node];
      LeadOut(widths, kind, ch, parent, rank, node) == L[..Runs(widths, kind, L, kind[node]).0]
  {
  }

  /** TrailOut is the trailing run of the node's own children. */
  lemma TrailOutRun(widths: TagWidths, kind: Kinds, ch: Children, parent: Parents, rank: Ranks, node: NodeId)
    requires WellFormed(kind, ch, parent, rank) && node in ch
    ensures forall i :: 0 <= i < |ch[node]| ==> ch[node][i] in kind
    ensures ch[node] != [] ==> MayHaveChildren(kind[node])
    ensures var L := ch[node];
      TrailOut(widths, kind, ch, parent, rank, node) == L[|L| - Runs(widths, kind, L, kind[node]).1..]
  {
  }

  /**
   * The node's own check moves only marker runs, in front: what leaves
   * before the node ends in an end-marker and is separators before it, and
   * it is non-empty only for an element below the top of the fragment.
   */
  lemma LeadOutIsMarkerRun(widths: TagWidths, kind: Kinds, ch: Children, parent: Parents, rank: Ranks, node: NodeId)
    requires WellFormed(kind, ch, parent, rank) && node in ch
    ensures forall x :: x in LeadOut(widths, kind, ch, parent, rank, node) ==> x in ch[node] && x in kind
    ensures var A := LeadOut(widths, kind, ch, parent, rank, node);
      A != [] ==> (!AtTheTop(kind[node]) && kind[node].Element? &&
        IsTplEndMarkerMeta(kind[A[|A| - 1]]) && forall j :: 0 <= j < |A| - 1 ==> IsSeparator(kind[A[j]]))
  {
    LeadOutRun(widths, kind, ch, parent, rank, node);
    LeadRunIsMarkerRun(widths, kind, ch[node], kind[node]);
  }

  /**
   * The node's own check moves only marker runs, behind: what leaves after
   * the node starts with a start-marker and is separators after it, and it
   * is non-empty only for an element below the top of the fragment.
   */
  lemma TrailOutIsMarkerRun(widths: TagWidths, kind: Kinds, ch: Children, parent: Parents, rank: Ranks, node: NodeId)
    requires WellFormed(kind, ch, parent, rank) && node in ch
    ensures forall x :: x in TrailOut(widths, kind, ch, parent, rank, node) ==> x in ch[node] && x in kind
    ensures var B := TrailOut(widths, kind, ch, parent, rank, node);
      B != [] ==> (!AtTheTop(kind[node]) && kind[node].Element? &&
        IsTplStartMarkerMeta(kind[B[0]]) && forall j :: 0 < j < |B| ==> IsSeparator(kind[B[j]]))
  {
    TrailOutRun(widths, kind, ch, parent, rank, node);
    TrailRunIsMarkerRun(widths, kind, ch[node], kind[node]);
  }

  // ---------------------------------------------------------------------
  // The two sentinel loops

  /** LeadMove of m's children up to and including the sentinel s. */
  ghost function LeadMoveThrough(ch: Children, m: NodeId, p: NodeId, s: NodeId): Children
    requires m in ch && p in ch && m in ch[p] && s in ch[m]
  {
    LeadMove(ch, m, p, IndexOf(ch[m], s) + 1)
  }

  lemma LeadMoveThroughIs(ch: Children, m: NodeId, p: NodeId, s: NodeId, n: nat)
    requires m in ch && p in ch && m in ch[p] && s in ch[m] && n == IndexOf(ch[m], s) + 1
    ensures LeadMoveThrough(ch, m, p, s) == LeadMove(ch, m, p, n)
  {
  }

  /** TrailMove of m's children from the sentinel s on. */
  ghost function TrailMoveFrom(ch: Children, m: NodeId, p: NodeId, s: NodeId): Children
    requires m in ch && p in ch && m in ch[p] && s in ch[m]
  {
    TrailMove(ch, m, p, |ch[m]| - IndexOf(ch[m], s))
  }

  lemma TrailMoveFromIs(ch: Children, m: NodeId, p: NodeId, s: NodeId, n: nat)
    requires m in ch && p in ch && m in ch[p] && s in ch[m] && n == |ch[m]| - IndexOf(ch[m], s)
    ensures TrailMoveFrom(ch, m, p, s) == TrailMove(ch, m, p, n)
  {
  }

  /**
   * The end-marker loop: the node's first child is moved to just before the
   * node, again and again, until the sentinel itself has moved. The children
   * up to the sentinel thus land, in their order, in front of the node, the
   * rest stay inside, and no node's leaf sequence changes but the node's own.
   */
  method MigrateLeading(doc: Document, node: NodeId, sentinel: NodeId)
    requires doc.Valid() && node in doc.parent && node in doc.children && sentinel in doc.children[node]
    modifies doc
    ensures doc.Valid() && doc.parent.Keys == old(doc.parent.Keys) && node in doc.parent
    ensures doc.parent[node] == old(doc.parent[node])
    ensures old(doc.parent[node] in doc.children && node in doc.children[doc.parent[node]])
    ensures doc.children == LeadMoveThrough(old(doc.children), node, old(doc.parent[node]), sentinel)
    ensures LeavesKept(doc.kind, doc.rank, old(doc.children), doc.children, node)
  {
    ghost var ch0 := doc.children;
    var p := doc.parent[node];
    ParentOutranks(doc.kind, ch0, doc.parent, doc.rank, node);
    ghost var L := ch0[node];
    ghost var k := IndexOf(L, sentinel);
    assert p in ch0 && node in ch0[p] && sentinel in L && node != p;
    assert forall j :: 0 <= j < |L| ==> doc.rank[L[j]] < doc.rank[node];
    LeadMoveZero(ch0, node, p);
    LeavesKeptRefl(doc.kind, doc.rank, ch0, node);
    ghost var t: nat := 0;
    var done := false;
    while !done
      invariant doc.Valid() && doc.parent.Keys == old(doc.parent.Keys) && doc.children.Keys == ch0.Keys
      invariant node in doc.parent && doc.parent[node] == p
      invariant t <= k + 1 && (done <==> t == k + 1)
      invariant doc.children == LeadMove(ch0, node, p, t)
      invariant LeavesKept(doc.kind, doc.rank, ch0, doc.children, node)
      decreases k + 1 - t
    {
      ghost var t1 := t + 1;
      var first := MoveFirstOut(doc, node, p, ch0, t, t1);
      IndexOfDistinct(L, k);
      IndexOfDistinct(L, t);
      t := t1;
      done := first == sentinel;
    }
    LeadMoveThroughIs(ch0, node, p, sentinel, t);
  }

  /**
   * The start-marker loop: the node's last child is moved to just before
   * the node's next sibling (to the end of the parent when there is none),
   * again and again, until the sentinel itself has moved. The children from
   * the sentinel on thus land, in their order, right after the node, and no
   * node's leaf sequence changes but the node's own.
   */
  method MigrateTrailing(doc: Document, node: NodeId, sentinel: NodeId)
    requires doc.Valid() && node in doc.parent && node in doc.children && sentinel in doc.children[node]
    modifies doc
    ensures doc.Valid() && doc.parent.Keys == old(doc.parent.Keys) && node in doc.parent
    ensures doc.parent[node] == old(doc.parent[node])
    ensures old(doc.parent[node] in doc.children && node in doc.children[doc.parent[node]])
    ensures doc.children == TrailMoveFrom(old(doc.children), node, old(doc.parent[node]), sentinel)
    ensures LeavesKept(doc.kind, doc.rank, old(doc.children), doc.children, node)
  {
    ghost var ch0 := doc.children;
    var p := doc.parent[node];
    ParentOutranks(doc.kind, ch0, doc.parent, doc.rank, node);
    ghost var L := ch0[node];
    ghost var k := IndexOf(L, sentinel);
    assert p in ch0 && node in ch0[p] && sentinel in L && node != p;
    TrailMoveZero(ch0, node, p);
    LeavesKeptRefl(doc.kind, doc.rank, ch0, node);
    ghost var t: nat := 0;
    var done := false;
    while !done
      invariant doc.Valid() && doc.parent.Keys == old(doc.parent.Keys) && doc.children.Keys == ch0.Keys
      invariant node in doc.parent && doc.parent[node] == p
      invariant t <= |L| - k && (done <==> t == |L| - k)
      invariant doc.children == TrailMove(ch0, node, p, t)
      invariant LeavesKept(doc.kind, doc.rank, ch0, doc.children, node)
      decreases |L| - k - t
    {
      ghost var t1 := t + 1;
      var last := MoveLastOut(doc, node, p, ch0, t, t1);
      IndexOfDistinct(L, k);
      IndexOfDistinct(L, |L| - t1);
      t := t1;
      done := last == sentinel;
    }
    TrailMoveFromIs(ch0, node, p, sentinel, t);
  }

  /**
   * One turn of the end-marker loop: the node's current first child is
   * inserted into the parent just before the node.
   */
  method MoveFirstOut(doc: Document, node: NodeId, p: NodeId, ghost ch0: Children, ghost t: nat, ghost t1: nat)
    returns (first: NodeId)
    requires doc.Valid() && node in doc.parent && doc.parent[node] == p && doc.children.Keys == ch0.Keys
    requires node in ch0 && p in ch0 && node != p && node in ch0[p] && node !in ch0[node] && t < |ch0[node]|
    requires doc.children == LeadMove(ch0, node, p, t) && t1 == t + 1
    requires LeavesKept(doc.kind, doc.rank, ch0, doc.children, node)
    modifies doc
    ensures doc.Valid() && doc.parent.Keys == old(doc.parent.Keys) && doc.children.Keys == ch0.Keys
    ensures node in doc.parent && doc.parent[node] == p
    ensures first == ch0[node][t] && doc.children == LeadMove(ch0, node, p, t1)
    ensures LeavesKept(doc.kind, doc.rank, ch0, doc.children, node)
  {
    ghost var ch: Children := doc.children;
    LeadTurn(doc.kind, ch, doc.parent, doc.rank, ch0, node, p, t, t1);
    first := doc.children[node][0];
    doc.InsertBefore(p, first, Some(node));
    LeavesKeptTrans(doc.kind, doc.rank, ch0, ch, doc.children, node);
  }

  /**
   * One turn of the start-marker loop: the node's current last child is
   * inserted into the parent just before the node's next sibling, or at the
   * end of the parent when the node has none.
   */
  method MoveLastOut(doc: Document, node: NodeId, p: NodeId, ghost ch0: Children, ghost t: nat, ghost t1: nat)
    returns (last: NodeId)
    requires doc.Valid() && node in doc.parent && doc.parent[node] == p && doc.children.Keys == ch0.Keys
    requires node in ch0 && p in ch0 && node != p && node in ch0[p] && t < |ch0[node]|
    requires doc.children == TrailMove(ch0, node, p, t) && t1 == t + 1
    requires LeavesKept(doc.kind, doc.rank, ch0, doc.children, node)
    modifies doc
    ensures doc.Valid() && doc.parent.Keys == old(doc.parent.Keys) && doc.children.Keys == ch0.Keys
    ensures node in doc.parent && doc.parent[node] == p
    ensures last == ch0[node][|ch0[node]| - t1] && doc.children == TrailMove(ch0, node, p, t1)
    ensures LeavesKept(doc.kind, doc.rank, ch0, doc.children, node)
  {
    var next := doc.NextSibling(node);
    ghost var ch: Children, par: Parents := doc.children, doc.parent;
    TrailTurnReady(doc.kind, ch, par, doc.rank, ch0, node, p, t, t1, next);
    last := doc.children[node][|doc.children[node]| - 1];
    doc.InsertBefore(p, last, next);
    TrailTurnDone(doc.kind, ch, par, doc.rank, ch0, doc.children, node, p, t, t1, next);
  }

  /**
   * Inserting before the node's next sibling, or at the end when there is
   * none, inserts just after the node.
   */
  lemma NextPosition(s: seq<NodeId>, node: NodeId, next: Option<NodeId>) returns (pos: nat)
    requires node in s && Distinct(s)
    requires var i := IndexOf(s, node); (i + 1 < |s| ==> next == Some(s[i + 1])) && (i + 1 == |s| ==> next.None?)
    ensures pos == IndexOf(s, node) + 1
    ensures next.Some? ==> next.value in s && IndexOf(s, next.value) == pos
    ensures next.None? ==> |s| == pos
  {
    pos := IndexOf(s, node) + 1;
    if next.Some? {
      IndexOfDistinct(s, pos);
    }
  }

  /** One turn of the end-marker loop, on values: the DOM move it makes and what it keeps. */
  lemma LeadTurn(kind: Kinds, ch: Children, parent: Parents, rank: Ranks, ch0: Children, node: NodeId, p: NodeId,
                 t: nat, t1: nat)
    requires WellFormed(kind, ch, parent, rank) && node in parent && parent[node] == p
    requires node in ch0 && p in ch0 && node != p && node in ch0[p] && node !in ch0[node] && t < |ch0[node]|
    requires ch == LeadMove(ch0, node, p, t) && t1 == t + 1
    ensures ch[node] != [] && ch[node][0] == ch0[node][t] && node in ch[p] && p in ch
    ensures var c := ch[node][0];
      c in parent && parent[c] == node && rank[c] < rank[p] && MayHaveChildren(kind[p]) &&
      LeadMove(ch0, node, p, t1) == ch[node := Removed(ch[node], c)][p := InsertAt(ch[p], c, IndexOf(ch[p], node))]
    ensures LeavesKept(kind, rank, ch, LeadMove(ch0, node, p, t1), node)
  {
    LeadMoveStep(ch0, node, p, t);
    LiftIsMove(kind, ch, parent, rank, node, true);
    LiftRanked(kind, ch, parent, rank, node, true);
    forall x | x in ch && x != node
      ensures Leaves(kind, Lift(ch, node, p, true), rank, x) == Leaves(kind, ch, rank, x)
    {
      LiftKeeps(kind, ch, parent, rank, node, true, x);
    }
  }

  /** One turn of the start-marker loop, on values: the DOM move it makes and what it keeps. */
  lemma TrailTurn(kind: Kinds, ch: Children, parent: Parents, rank: Ranks, ch0: Children, node: NodeId, p: NodeId,
                  t: nat, t1: nat, next: Option<NodeId>)
    requires WellFormed(kind, ch, parent, rank) && node in parent && parent[node] == p
    requires node in ch0 && p in ch0 && node != p && node in ch0[p] && t < |ch0[node]|
    requires ch == TrailMove(ch0, node, p, t) && t1 == t + 1
    requires var s := ch[p]; var i := IndexOf(s, node);
      (i + 1 < |s| ==> next == Some(s[i + 1])) && (i + 1 == |s| ==> next.None?)
    ensures ch[node] != [] && ch[node][|ch[node]| - 1] == ch0[node][|ch0[node]| - t1]
    ensures next.Some? ==> next.value in ch[p]
    ensures var c := ch[node][|ch[node]| - 1];
      var pos := if next.Some? then IndexOf(ch[p], next.value) else |ch[p]|;
      c in parent && parent[c] == node && rank[c] < rank[p] && MayHaveChildren(kind[p]) &&
      TrailMove(ch0, node, p, t1) == ch[node := Removed(ch[node], c)][p := InsertAt(ch[p], c, pos)]
    ensures LeavesKept(kind, rank, ch, TrailMove(ch0, node, p, t1), node)
  {
    var pos := NextPosition(ch[p], node, next);
    TrailMoveStep(ch0, node, p, t);
    LiftIsMove(kind, ch, parent, rank, node, false);
    LiftRanked(kind, ch, parent, rank, node, false);
    var c := ch[node][|ch[node]| - 1];
    assert Lift(ch, node, p, false) == ch[node := Removed(ch[node], c)][p := InsertAt(ch[p], c, pos)];
    forall x | x in ch && x != node
      ensures Leaves(kind, Lift(ch, node, p, false), rank, x) == Leaves(kind, ch, rank, x)
    {
      LiftKeeps(kind, ch, parent, rank, node, false, x);
    }
  }

  /** What inserting the node's last child after the node needs to hold before the insertion. */
  lemma TrailTurnReady(kind: Kinds, ch: Children, parent: Parents, rank: Ranks, ch0: Children, node: NodeId,
                       p: NodeId, t: nat, t1: nat, next: Option<NodeId>)
    requires WellFormed(kind, ch, parent, rank) && node in parent && parent[node] == p
    requires node in ch0 && p in ch0 && node != p && node in ch0[p] && t < |ch0[node]|
    requires ch == TrailMove(ch0, node, p, t) && t1 == t + 1
    requires var s := ch[p]; var i := IndexOf(s, node);
      (i + 1 < |s| ==> next == Some(s[i + 1])) && (i + 1 == |s| ==> next.None?)
    ensures node in ch && p in ch && ch[node] != [] && (next.Some? ==> next.value in ch[p])
    ensures var c := ch[node][|ch[node]| - 1];
      c == ch0[node][|ch0[node]| - t1] && c in parent && parent[c] == node && rank[c] < rank[p] &&
      MayHaveChildren(kind[p])
  {
    TrailTurn(kind, ch, parent, rank, ch0, node, p, t, t1, next);
  }

  /**
   * After the insertion: the child lists are the start-marker loop's value
   * one turn further on, and the node's leaves are still those of ch0.
   */
  lemma TrailTurnDone(kind: Kinds, ch: Children, parent: Parents, rank: Ranks, ch0: Children, ch2: Children,
                      node: NodeId, p: NodeId, t: nat, t1: nat, next: Option<NodeId>)
    requires WellFormed(kind, ch, parent, rank) && node in parent && parent[node] == p
    requires node in ch0 && p in ch0 && node != p && node in ch0[p] && t < |ch0[node]|
    requires ch == TrailMove(ch0, node, p, t) && t1 == t + 1
    requires LeavesKept(kind, rank, ch0, ch, node)
    requires var s := ch[p]; var i := IndexOf(s, node);
      (i + 1 < |s| ==> next == Some(s[i + 1])) && (i + 1 == |s| ==> next.None?)
    requires ch[node] != [] && (next.Some? ==> next.value in ch[p])
    requires var c := ch[node][|ch[node]| - 1];
      c in parent && parent[c] in ch && c in ch[parent[c]] &&
      ch2 == ch[parent[c] := Removed(ch[parent[c]], c)]
               [p := InsertAt(ch[p], c, if next.Some? then IndexOf(ch[p], next.value) else |ch[p]|)]
    ensures ch2 == TrailMove(ch0, node, p, t1)
    ensures LeavesKept(kind, rank, ch0, ch2, node)
  {
    TrailTurn(kind, ch, parent, rank, ch0, node, p, t, t1, next);
    LeavesKeptTrans(kind, rank, ch0, ch, ch2, node);
  }

  // ---------------------------------------------------------------------
  // The node's own check

  /**
   * The end-marker half of the check: when the node's first non-separator
   * child is an end-marker and the node's start tag may be crossed, the
   * children up to that marker move to just before the node.
   */
  method MoveEndMarkerOut(doc: Document, node: NodeId, widths: TagWidths)
    requires doc.Valid() && node in doc.parent && !AtTheTop(doc.kind[node])
    modifies doc
    ensures doc.Valid() && doc.parent.Keys == old(doc.parent.Keys) && node in doc.parent
    ensures doc.parent[node] == old(doc.parent[node])
    ensures old(doc.parent[node] in doc.children && node in doc.children[doc.parent[node]])
    ensures old(forall i :: 0 <= i < |doc.children[node]| ==> doc.children[node][i] in doc.kind)
    ensures old(doc.children[node] != [] ==> MayHaveChildren(doc.kind[node]))
    ensures var n := LeadingRun(widths, doc.kind[node], KindsOf(doc.kind, old(doc.children[node])));
      n <= old(|doc.children[node]|) && doc.children == LeadMove(old(doc.children), node, old(doc.parent[node]), n)
    ensures LeavesKept(doc.kind, doc.rank, old(doc.children), doc.children, node)
  {
    ghost var ch0 := doc.children;
    ghost var p := doc.parent[node];
    Placement(doc.kind, ch0, doc.parent, doc.rank, node);
    ghost var L := ch0[node];
    ghost var n := LeadingRun(widths, doc.kind[node], KindsOf(doc.kind, L));
    var firstChild := doc.FirstNonSepChild(node);
    if firstChild.Some? && IsTplEndMarkerMeta(doc.kind[firstChild.value]) {
      // DOMUtils::assertElt: a node with a child that is not the fragment root is an element
      assert doc.kind[node].Element?;
      if StartTagCrossable(widths, doc.kind[node]) {
        ghost var i := IndexOf(L, firstChild.value);
        IndexOfDistinct(L, FirstNonSep(KindsOf(doc.kind, L)).value);
        MigrateLeading(doc, node, firstChild.value);
        LeadMoveThroughIs(ch0, node, p, firstChild.value, n);
        return;
      }
    }
    LeadMoveZero(ch0, node, p);
    LeavesKeptRefl(doc.kind, doc.rank, ch0, node);
  }

  /**
   * The start-marker half of the check: when the node's last non-separator
   * child is a start-marker and the node's end tag may be crossed, the
   * children from that marker on move to just after the node.
   */
  method MoveStartMarkerOut(doc: Document, node: NodeId, widths: TagWidths)
    requires doc.Valid() && node in doc.parent && !AtTheTop(doc.kind[node])
    modifies doc
    ensures doc.Valid() && doc.parent.Keys == old(doc.parent.Keys) && node in doc.parent
    ensures doc.parent[node] == old(doc.parent[node])
    ensures old(doc.parent[node] in doc.children && node in doc.children[doc.parent[node]])
    ensures old(forall i :: 0 <= i < |doc.children[node]| ==> doc.children[node][i] in doc.kind)
    ensures old(doc.children[node] != [] ==> MayHaveChildren(doc.kind[node]))
    ensures var n := TrailingRun(widths, doc.kind[node], KindsOf(doc.kind, old(doc.children[node])));
      n <= old(|doc.children[node]|) && doc.children == TrailMove(old(doc.children), node, old(doc.parent[node]), n)
    ensures LeavesKept(doc.kind, doc.rank, old(doc.children), doc.children, node)
  {
    ghost var ch0 := doc.children;
    ghost var p := doc.parent[node];
    Placement(doc.kind, ch0, doc.parent, doc.rank, node);
    ghost var L := ch0[node];
    ghost var n := TrailingRun(widths, doc.kind[node], KindsOf(doc.kind, L));
    var lastChild := doc.LastNonSepChild(node);
    if lastChild.Some? && IsTplStartMarkerMeta(doc.kind[lastChild.value]) {
      // DOMUtils::assertElt, as above
      assert doc.kind[node].Element?;
      if EndTagCrossable(widths, doc.kind[node]) {
        IndexOfDistinct(L, LastNonSep(KindsOf(doc.kind, L)).value);
        MigrateTrailing(doc, node, lastChild.value);
        TrailMoveFromIs(ch0, node, p, lastChild.value, n);
        return;
      }
    }
    TrailMoveZero(ch0, node, p);
    LeavesKeptRefl(doc.kind, doc.rank, ch0, node);
  }

  /**
   * The node's own check (everything doMigrate does after the walk over the
   * children): nothing at the top of the fragment; otherwise the end-marker
   * half, then the start-marker half on what it left. The result is OwnStep
   * of the tree as it was, and no leaf sequence but the node's own changes.
   */
  method MigrateOut(doc: Document, node: NodeId, widths: TagWidths)
    requires doc.Valid() && node in doc.children && (node in doc.parent || AtTheTop(doc.kind[node]))
    modifies doc
    ensures doc.Valid() && doc.parent.Keys == old(doc.parent.Keys)
    ensures node in old(doc.parent) ==> node in doc.parent && doc.parent[node] == old(doc.parent[node])
    ensures doc.children == OwnStep(widths, doc.kind, old(doc.children), old(doc.parent), doc.rank, node)
    ensures LeavesKept(doc.kind, doc.rank, old(doc.children), doc.children, node)
  {
    ghost var ch0 := doc.children;
    if AtTheTop(doc.kind[node]) {
      LeavesKeptRefl(doc.kind, doc.rank, ch0, node);
      return;
    }
    ghost var par0 := doc.parent;
    Placement(doc.kind, ch0, par0, doc.rank, node);
    MoveEndMarkerOut(doc, node, widths);
    ghost var ch1: Children := doc.children;
    MoveStartMarkerOut(doc, node, widths);
    OwnStepIs(widths, doc.kind, ch0, par0, doc.rank, node, ch1, doc.children);
    LeavesKeptTrans(doc.kind, doc.rank, ch0, ch1, doc.children, node);
  }

  /** The node's own check is its end-marker half followed by its start-marker half. */
  lemma OwnStepIs(widths: TagWidths, kind: Kinds, ch0: Children, parent: Parents, rank: Ranks, node: NodeId,
                  ch1: Children, ch2: Children)
    requires WellFormed(kind, ch0, parent, rank) && node in parent && !AtTheTop(kind[node])
    requires var p := parent[node]; p in ch0 && node in ch0 && node in ch0[p]
    requires var n := LeadingRun(widths, kind[node], KindsOf(kind, ch0[node]));
      n <= |ch0[node]| && ch1 == LeadMove(ch0, node, parent[node], n)
    requires node in ch1 && parent[node] in ch1 && node in ch1[parent[node]] && (forall i :: 0 <= i < |ch1[node]| ==> ch1[node][i] in kind)
    requires ch1[node] != [] ==> MayHaveChildren(kind[node])
    requires var t := TrailingRun(widths, kind[node], KindsOf(kind, ch1[node]));
      t <= |ch1[node]| && ch2 == TrailMove(ch1, node, parent[node], t)
    ensures ch2 == OwnStep(widths, kind, ch0, parent, rank, node)
  {
    Placement(kind, ch0, parent, rank, node);
    var L := ch0[node];
    var n := LeadingRun(widths, kind[node], KindsOf(kind, L));
    LeadTrailShape(ch0, node, parent[node], n, 0);
    KindsOfDrop(kind, L, n);
  }

  // ---------------------------------------------------------------------
  // The post-order walk

  /**
   * The checks a walk made, as a run of trees: states[0] is the tree before
   * the walk, and each tree follows from the one before it by the own check
   * of the next visited node, taken with the parent links of that moment.
   */
  ghost predicate Steps(widths: TagWidths, kind: Kinds, rank: Ranks,
                        states: seq<Children>, parents: seq<Parents>, visited: seq<NodeId>)
  {
    |states| == |visited| + 1 && |parents| == |visited| &&
    forall i :: 0 <= i < |visited| ==>
      WellFormed(kind, states[i], parents[i], rank) && visited[i] in states[i] &&
      (visited[i] in parents[i] || AtTheTop(kind[visited[i]])) &&
      states[i + 1] == OwnStep(widths, kind, states[i], parents[i], rank, visited[i])
  }

  /** Two runs of checks, the second starting where the first ended, make one run. */
  lemma StepsAppend(widths: TagWidths, kind: Kinds, rank: Ranks,
                    s1: seq<Children>, p1: seq<Parents>, v1: seq<NodeId>,
                    s2: seq<Children>, p2: seq<Parents>, v2: seq<NodeId>)
    requires Steps(widths, kind, rank, s1, p1, v1) && Steps(widths, kind, rank, s2, p2, v2)
    requires s1[|v1|] == s2[0]
    ensures Steps(widths, kind, rank, s1 + s2[1..], p1 + p2, v1 + v2)
    ensures (s1 + s2[1..])[0] == s1[0] && (s1 + s2[1..])[|v1 + v2|] == s2[|v2|]
  {
    var s, p, v := s1 + s2[1..], p1 + p2, v1 + v2;
    forall i | 0 <= i < |v|
      ensures WellFormed(kind, s[i], p[i], rank) && v[i] in s[i] && (v[i] in p[i] || AtTheTop(kind[v[i]])) &&
        s[i + 1] == OwnStep(widths, kind, s[i], p[i], rank, v[i])
    {
      if i < |v1| {
        assert s[i] == s1[i] && s[i + 1] == s1[i + 1] && p[i] == p1[i] && v[i] == v1[i];
      } else {
        var k := i - |v1|;
        assert s[i] == s2[k] && s[i + 1] == s2[k + 1] && p[i] == p2[k] && v[i] == v2[k];
      }
    }
  }

  /** The run of checks from ch0 to ch. */
  ghost predicate Traced(widths: TagWidths, kind: Kinds, rank: Ranks, ch0: Children, ch: Children,
                         states: seq<Children>, parents: seq<Parents>, visited: seq<NodeId>)
  {
    Steps(widths, kind, rank, states, parents, visited) && states[0] == ch0 && states[|visited|] == ch
  }

  /** A run from ch0 to chb and a run from chb to ch make a run from ch0 to ch. */
  lemma TraceStep(widths: TagWidths, kind: Kinds, rank: Ranks, ch0: Children, chb: Children, ch: Children,
                  states: seq<Children>, parents: seq<Parents>, visited: seq<NodeId>,
                  s2: seq<Children>, p2: seq<Parents>, v2: seq<NodeId>)
    requires Traced(widths, kind, rank, ch0, chb, states, parents, visited)
    requires Traced(widths, kind, rank, chb, ch, s2, p2, v2)
    ensures Traced(widths, kind, rank, ch0, ch, states + s2[1..], parents + p2, visited + v2)
  {
    StepsAppend(widths, kind, rank, states, parents, visited, s2, p2, v2);
  }

  /** One check is a run of checks. */
  lemma StepsOne(widths: TagWidths, kind: Kinds, rank: Ranks, ch: Children, parent: Parents, node: NodeId, ch2: Children)
    requires WellFormed(kind, ch, parent, rank) && node in ch && (node in parent || AtTheTop(kind[node]))
    requires ch2 == OwnStep(widths, kind, ch, parent, rank, node)
    ensures Steps(widths, kind, rank, [ch, ch2], [parent], [node])
  {
  }

  /** A run of checks followed by one more check on the tree it ended with. */
  lemma StepsSnoc(widths: TagWidths, kind: Kinds, rank: Ranks,
                  s: seq<Children>, p: seq<Parents>, v: seq<NodeId>,
                  parent: Parents, node: NodeId, ch2: Children)
    requires Steps(widths, kind, rank, s, p, v)
    requires WellFormed(kind, s[|v|], parent, rank) && node in s[|v|] && (node in parent || AtTheTop(kind[node]))
    requires ch2 == OwnStep(widths, kind, s[|v|], parent, rank, node)
    ensures Steps(widths, kind, rank, s + [ch2], p + [parent], v + [node])
    ensures (s + [ch2])[0] == s[0] && (s + [ch2])[|v|] == s[|v|]
  {
    var s1, p1, v1 := [s[|v|], ch2], [parent], [node];
    StepsOne(widths, kind, rank, s[|v|], parent, node, ch2);
    StepsAppend(widths, kind, rank, s, p, v, s1, p1, v1);
    assert s1[1..] == [ch2];
  }

  /**
   * doMigrate: first the walk over the node's children, then the node's
   * own check. mid and midParent are the tree between the two; visited
   * lists the nodes whose own check ran, in the order it ran.
   */
  method DoMigrate(doc: Document, node: NodeId, widths: TagWidths)
    returns (ghost mid: Children, ghost midParent: Parents, ghost visited: seq<NodeId>,
             ghost states: seq<Children>, ghost parents: seq<Parents>)
    requires doc.Valid() && node in doc.children && (node in doc.parent || AtTheTop(doc.kind[node]))
    modifies doc
    decreases doc.rank[node], 3
    ensures doc.Valid() && doc.parent.Keys == old(doc.parent.Keys) && doc.children.Keys == old(doc.children.Keys)
    // the walk over the children
    ensures WellFormed(doc.kind, mid, midParent, doc.rank) && midParent.Keys == old(doc.parent.Keys)
    ensures node in mid && (node in midParent || AtTheTop(doc.kind[node]))
    ensures SameOutside(old(doc.children), mid, Sub(old(doc.children), doc.rank, node))
    ensures Leaves(doc.kind, mid, doc.rank, node) == Leaves(doc.kind, old(doc.children), doc.rank, node)
    ensures IsPostOrder(old(doc.children), doc.rank, node, visited)
    // every check made, in the order made, from the tree before to the tree after
    ensures Steps(widths, doc.kind, doc.rank, states, parents, visited)
    ensures states[0] == old(doc.children) && states[|visited|] == doc.children
    ensures visited != [] && visited[|visited| - 1] == node
    ensures states[|visited| - 1] == mid && parents[|visited| - 1] == midParent
    // then the node's own check
    ensures doc.children == OwnStep(widths, doc.kind, mid, midParent, doc.rank, node)
    // what this means outside the node's subtree
    ensures LeavesKeptOutside(doc.kind, doc.rank, old(doc.children), doc.children, Sub(old(doc.children), doc.rank, node))
    ensures node in old(doc.parent) ==> node in doc.parent && doc.parent[node] == old(doc.parent[node])
    ensures node in old(doc.parent) ==> old(doc.parent[node] in doc.children && node in doc.children[doc.parent[node]])
    ensures node in old(doc.parent) ==> var p := old(doc.parent[node]);
      SameOutside(old(doc.children), doc.children, Sub(old(doc.children), doc.rank, node) + {p}) &&
      Spliced(old(doc.children[p]), node, LeadOut(widths, doc.kind, mid, midParent, doc.rank, node),
        TrailOut(widths, doc.kind, mid, midParent, doc.rank, node), doc.children[p])
  {
    ghost var ch0 := doc.children;
    ghost var par0 := doc.parent;
    visited, states, parents := MigrateChildren(doc, node, widths);
    mid, midParent := doc.children, doc.parent;
    if node in par0 {
      ParentOutranks(doc.kind, ch0, par0, doc.rank, node);
      assert mid[par0[node]] == ch0[par0[node]];
    }
    forall x | x in ch0 && x !in Sub(ch0, doc.rank, node)
      ensures Leaves(doc.kind, mid, doc.rank, x) == Leaves(doc.kind, ch0, doc.rank, x)
    {
      LeavesOutside(doc.kind, ch0, par0, doc.rank, mid, node, x);
    }
    PostOrderUnfold(ch0, doc.rank, node);
    MigrateOut(doc, node, widths);
    StepsSnoc(widths, doc.kind, doc.rank, states, parents, visited, midParent, node, doc.children);
    states, parents, visited := states + [doc.children], parents + [midParent], visited + [node];
    if node in par0 {
      OwnStepShape(widths, doc.kind, mid, midParent, doc.rank, node);
    }
  }

  /**
   * The walk over the children (doMigrate's first loop): each original
   * child that has children is migrated in turn, left to right. The next
   * sibling is taken before the recursive call, so the nodes that call moves
   * out next to the child are not visited again. Nothing outside the node's
   * subtree changes and the node's leaf sequence is kept.
   */
  method MigrateChildren(doc: Document, node: NodeId, widths: TagWidths)
    returns (ghost visited: seq<NodeId>, ghost states: seq<Children>, ghost parents: seq<Parents>)
    requires doc.Valid() && node in doc.children
    modifies doc
    decreases doc.rank[node], 2
    ensures doc.Valid() && doc.parent.Keys == old(doc.parent.Keys)
    ensures SameOutside(old(doc.children), doc.children, Sub(old(doc.children), doc.rank, node))
    ensures Leaves(doc.kind, doc.children, doc.rank, node) == Leaves(doc.kind, old(doc.children), doc.rank, node)
    ensures visited == PostOrderOf(old(doc.children), doc.rank, old(doc.children[node]))
    ensures Steps(widths, doc.kind, doc.rank, states, parents, visited)
    ensures states[0] == old(doc.children) && states[|visited|] == doc.children
  {
    ghost var ch0 := doc.children;
    ghost var par0 := doc.parent;
    ghost var orig := ch0[node];
    ghost var done: seq<NodeId> := [];
    ghost var j := 0;
    visited, states, parents := [], [ch0], [];
    assert orig[..0] == [] && orig[0..] == orig;
    var c := doc.FirstChild(node);
    while c.Some?
      invariant doc.Valid() && doc.parent.Keys == par0.Keys
      invariant j <= |orig| && c == (if j < |orig| then Some(orig[j]) else None)
      invariant Walked(doc.kind, ch0, par0, doc.rank, node, j, done, doc.children, visited)
      invariant Traced(widths, doc.kind, doc.rank, ch0, doc.children, states, parents, visited)
      decreases |orig| - j
    {
      var sibling;
      sibling, done, visited, states, parents := WalkTurn(doc, node, widths, ch0, par0, j, done, visited, states, parents, c.value);
      j := j + 1;
      c := sibling;
    }
    WalkDone(doc.kind, ch0, par0, doc.rank, node, j, done, doc.children, visited);
  }

  /**
   * One turn of the walk: the sibling after the current child is read
   * first, then the child is migrated; the walk's invariant moves one
   * original child further on.
   */
  method WalkTurn(doc: Document, node: NodeId, widths: TagWidths, ghost ch0: Children, ghost par0: Parents, ghost j: nat,
                  ghost done: seq<NodeId>, ghost visited: seq<NodeId>,
                  ghost states: seq<Children>, ghost parents: seq<Parents>, cur: NodeId)
    returns (sibling: Option<NodeId>, ghost done1: seq<NodeId>, ghost visited1: seq<NodeId>,
             ghost states1: seq<Children>, ghost parents1: seq<Parents>)
    requires doc.Valid() && doc.parent.Keys == par0.Keys
    requires Walked(doc.kind, ch0, par0, doc.rank, node, j, done, doc.children, visited)
    requires Traced(widths, doc.kind, doc.rank, ch0, doc.children, states, parents, visited)
    requires j < |ch0[node]| && cur == ch0[node][j]
    modifies doc
    decreases doc.rank[node], 1
    ensures doc.Valid() && doc.parent.Keys == par0.Keys
    ensures Walked(doc.kind, ch0, par0, doc.rank, node, j + 1, done1, doc.children, visited1)
    ensures Traced(widths, doc.kind, doc.rank, ch0, doc.children, states1, parents1, visited1)
    ensures sibling == if j + 1 < |ch0[node]| then Some(ch0[node][j + 1]) else None
  {
    ghost var orig := ch0[node];
    ghost var j1 := j + 1;
    ghost var chb: Children := doc.children;
    assert chb[node] == done + orig[j..];
    NextInWalk(chb[node], done, orig, j, j1);
    assert chb[node][|done|] == cur;
    assert doc.parent[cur] == node;
    sibling := doc.NextSibling(cur);
    ghost var A, B, v, sts, pts := MigrateChild(doc, node, cur, widths);
    WalkStep(doc.kind, ch0, par0, doc.rank, node, j, j1, done, chb, doc.children, visited, A, B, v);
    TraceStep(widths, doc.kind, doc.rank, ch0, chb, doc.children, states, parents, visited, sts, pts, v);
    states1, parents1, visited1 := states + sts[1..], parents + pts, visited + v;
    done1 := done + A + [cur] + B;
  }

  /**
   * The walk over the first j original children is done: they and what
   * their checks moved out make up done, the rest of the node's list is
   * still to come, nothing outside their subtrees and the node has changed,
   * the node's leaf sequence is kept and visited holds their checks in
   * post-order.
   */
  ghost predicate Walked(kind: Kinds, ch0: Children, par0: Parents, rank: Ranks, node: NodeId, j: nat,
                         done: seq<NodeId>, ch: Children, visited: seq<NodeId>)
  {
    WellFormed(kind, ch0, par0, rank) && node in ch0 && j <= |ch0[node]| &&
    Ranked(ch, rank) && ch.Keys == ch0.Keys &&
    ch[node] == done + ch0[node][j..] &&
    SameOutside(ch0, ch, SubOf(ch0, rank, ch0[node][..j]) + {node}) &&
    Leaves(kind, ch, rank, node) == Leaves(kind, ch0, rank, node) &&
    visited == PostOrderOf(ch0, rank, ch0[node][..j])
  }

  /** One turn of the walk keeps Walked, one child further on. */
  lemma WalkStep(kind: Kinds, ch0: Children, par0: Parents, rank: Ranks, node: NodeId, j: nat, j1: nat,
                 done: seq<NodeId>, chb: Children, ch: Children, visited: seq<NodeId>,
                 A: seq<NodeId>, B: seq<NodeId>, v: seq<NodeId>)
    requires Walked(kind, ch0, par0, rank, node, j, done, chb, visited) && j < |ch0[node]| && j1 == j + 1
    requires Ranked(ch, rank) && ch.Keys == chb.Keys && Distinct(chb[node])
    requires var cur := ch0[node][j];
      SameOutside(chb, ch, Sub(chb, rank, cur) + {node}) &&
      Leaves(kind, ch, rank, node) == Leaves(kind, chb, rank, node) &&
      Spliced(chb[node], cur, A, B, ch[node]) &&
      (chb[cur] == [] ==> v == []) && (chb[cur] != [] ==> IsPostOrder(chb, rank, cur, v))
    ensures Walked(kind, ch0, par0, rank, node, j1, done + A + [ch0[node][j]] + B, ch, visited + v)
  {
    var orig := ch0[node];
    var cur := orig[j];
    SiblingUntouched(kind, ch0, par0, rank, chb, node, j);
    NextInWalk(chb[node], done, orig, j, j1);
    assert ch[node] == done + A + [cur] + B + orig[j1..];
    WalkFrame(kind, ch0, par0, rank, chb, ch, node, j, j1);
    WalkVisited(kind, ch0, par0, rank, node, j, j1, chb, visited, v);
  }

  /** The trace grows by the j-th original child's post-order, when it has children. */
  lemma WalkVisited(kind: Kinds, ch0: Children, par0: Parents, rank: Ranks, node: NodeId, j: nat, j1: nat,
                    chb: Children, visited: seq<NodeId>, v: seq<NodeId>)
    requires WellFormed(kind, ch0, par0, rank) && node in ch0 && j < |ch0[node]| && j1 == j + 1
    requires Ranked(chb, rank) && visited == PostOrderOf(ch0, rank, ch0[node][..j])
    requires var cur := ch0[node][j];
      cur in chb && chb[cur] == ch0[cur] && PostOrder(chb, rank, cur) == PostOrder(ch0, rank, cur) &&
      (chb[cur] == [] ==> v == []) && (chb[cur] != [] ==> IsPostOrder(chb, rank, cur, v))
    ensures visited + v == PostOrderOf(ch0, rank, ch0[node][..j1])
  {
    var orig := ch0[node];
    var cur := orig[j];
    assert orig[..j1] == orig[..j] + [cur];
    PostOrderOfAppend(ch0, rank, orig[..j], cur);
  }

  /**
   * Where the j-th original child stands in the node's list once the walk
   * has replaced the first j by done, and which sibling follows it.
   */
  lemma NextInWalk(s: seq<NodeId>, done: seq<NodeId>, orig: seq<NodeId>, j: nat, j1: nat)
    requires j < |orig| && j1 == j + 1 && s == done + orig[j..] && Distinct(s)
    ensures orig[j] in s && IndexOf(s, orig[j]) == |done|
    ensures s == done + [orig[j]] + orig[j1..] && s[..|done|] == done && s[|done| + 1..] == orig[j1..]
    ensures orig[..j1] == orig[..j] + [orig[j]]
    ensures |done| + 1 < |s| <==> j1 < |orig|
    ensures j1 < |orig| ==> s[|done| + 1] == orig[j1]
  {
    assert orig[j..] == [orig[j]] + orig[j1..];
    assert s == done + [orig[j]] + orig[j1..];
    DistinctSplit(done, orig[j], orig[j1..]);
    IndexOfSplit(done, orig[j], orig[j1..]);
  }

  /** At the end of the walk the touched zone is the node's whole subtree. */
  lemma WalkDone(kind: Kinds, ch0: Children, par0: Parents, rank: Ranks, node: NodeId, j: nat,
                 done: seq<NodeId>, ch: Children, visited: seq<NodeId>)
    requires Walked(kind, ch0, par0, rank, node, j, done, ch, visited) && j == |ch0[node]|
    ensures SameOutside(ch0, ch, Sub(ch0, rank, node))
    ensures Leaves(kind, ch, rank, node) == Leaves(kind, ch0, rank, node)
    ensures visited == PostOrderOf(ch0, rank, ch0[node])
  {
    assert ch0[node][..j] == ch0[node];
    SubUnfold(ch0, rank, node);
  }

  /**
   * One turn of the walk: a child that has children is migrated (doMigrate
   * on it), a childless one is left alone. The child's own check puts the
   * runs before and after around it in the node's list; nothing outside the
   * child's subtree and the node changes, and the node's leaf sequence is
   * kept.
   */
  method MigrateChild(doc: Document, node: NodeId, cur: NodeId, widths: TagWidths)
    returns (ghost before: seq<NodeId>, ghost after: seq<NodeId>, ghost visited: seq<NodeId>,
             ghost states: seq<Children>, ghost parents: seq<Parents>)
    requires doc.Valid() && node in doc.children && cur in doc.parent && doc.parent[cur] == node
    modifies doc
    decreases doc.rank[node], 0
    ensures doc.Valid() && doc.parent.Keys == old(doc.parent.Keys)
    ensures old(cur in doc.children && cur in doc.children[node])
    ensures old(doc.children[cur]) == [] ==> visited == []
    ensures old(doc.children[cur]) != [] ==> IsPostOrder(old(doc.children), doc.rank, cur, visited)
    ensures SameOutside(old(doc.children), doc.children, old(Sub(doc.children, doc.rank, cur)) + {node})
    ensures Leaves(doc.kind, doc.children, doc.rank, node) == old(Leaves(doc.kind, doc.children, doc.rank, node))
    ensures Spliced(old(doc.children[node]), cur, before, after, doc.children[node])
    ensures Steps(widths, doc.kind, doc.rank, states, parents, visited)
    ensures states[0] == old(doc.children) && states[|visited|] == doc.children
    ensures old(doc.children[cur]) == [] ==> doc.children == old(doc.children) && before == [] && after == []
    ensures old(doc.children[cur]) != [] ==>
      (visited != [] && visited[|visited| - 1] == cur &&
       var k := |visited| - 1;
       before == LeadOut(widths, doc.kind, states[k], parents[k], doc.rank, cur) &&
       after == TrailOut(widths, doc.kind, states[k], parents[k], doc.rank, cur))
  {
    ghost var ch0 := doc.children;
    ParentOutranks(doc.kind, ch0, doc.parent, doc.rank, cur);
    if doc.children[cur] != [] {
      ghost var m, mp;
      m, mp, visited, states, parents := DoMigrate(doc, cur, widths);
      before, after := LeadOut(widths, doc.kind, m, mp, doc.rank, cur), TrailOut(widths, doc.kind, m, mp, doc.rank, cur);
      LeavesKeptAt(doc.kind, doc.rank, ch0, doc.children, Sub(ch0, doc.rank, cur), node);
    } else {
      before, after, visited, states, parents := [], [], [], [ch0], [];
      SplicedNothing(ch0[node], cur);
    }
  }

  /**
   * When the walk reaches the j-th original child, nothing has touched that
   * child's subtree yet: it is the subtree it was at the start.
   */
  lemma SiblingUntouched(kind: Kinds, ch0: Children, par0: Parents, rank: Ranks, ch: Children, node: NodeId, j: nat)
    requires WellFormed(kind, ch0, par0, rank) && node in ch0 && j < |ch0[node]|
    requires Ranked(ch, rank) && SameOutside(ch0, ch, SubOf(ch0, rank, ch0[node][..j]) + {node})
    ensures var c := ch0[node][j];
      c in ch0 && ch[c] == ch0[c] && node !in Sub(ch0, rank, c) &&
      Sub(ch, rank, c) == Sub(ch0, rank, c) && PostOrder(ch, rank, c) == PostOrder(ch0, rank, c)
  {
    var c := ch0[node][j];
    SiblingsDisjoint(kind, ch0, par0, rank, node, j);
    FrameSub(kind, ch0, ch, rank, c);
  }

  /** After the j-th original child, the zone the walk may have touched grows by that child's subtree. */
  lemma WalkFrame(kind: Kinds, ch0: Children, par0: Parents, rank: Ranks, ch: Children, ch2: Children, node: NodeId,
                  j: nat, j1: nat)
    requires WellFormed(kind, ch0, par0, rank) && node in ch0 && j < |ch0[node]| && j1 == j + 1
    requires SameOutside(ch0, ch, SubOf(ch0, rank, ch0[node][..j]) + {node})
    requires SameOutside(ch, ch2, Sub(ch0, rank, ch0[node][j]) + {node})
    ensures SameOutside(ch0, ch2, SubOf(ch0, rank, ch0[node][..j1]) + {node})
  {
    var s := ch0[node];
    assert s[..j1] == s[..j] + [s[j]];
    SubOfAppend(ch0, rank, s[..j], s[j]);
    SameOutsideTrans(ch0, ch, ch2, SubOf(ch0, rank, s[..j]) + {node}, Sub(ch0, rank, s[j]) + {node});
  }

  /**
   * The pass's entry point: doMigrate on the root. The environment, the
   * options and atTopLevel play no part. Every node below the root that has
   * children, and then the root, gets its own check, in post-order; the leaf
   * sequence of every node outside the root's subtree is kept, and when the
   * root is the top of the fragment so is the root's own.
   */
  method Run(doc: Document, root: NodeId, widths: TagWidths, atTopLevel: bool)
    returns (ghost visited: seq<NodeId>, ghost states: seq<Children>, ghost parents: seq<Parents>)
    requires doc.Valid() && root in doc.children && (root in doc.parent || AtTheTop(doc.kind[root]))
    modifies doc
    ensures doc.Valid() && doc.children.Keys == old(doc.children.Keys)
    ensures visited == PostOrder(old(doc.children), doc.rank, root)
    ensures Steps(widths, doc.kind, doc.rank, states, parents, visited)
    ensures states[0] == old(doc.children) && states[|visited|] == doc.children
    ensures LeavesKeptOutside(doc.kind, doc.rank, old(doc.children), doc.children, Sub(old(doc.children), doc.rank, root))
    ensures AtTheTop(doc.kind[root]) ==>
      Leaves(doc.kind, doc.children, doc.rank, root) == Leaves(doc.kind, old(doc.children), doc.rank, root) &&
      SameOutside(old(doc.children), doc.children, Sub(old(doc.children), doc.rank, root))
  {
    ghost var m, mp;
    m, mp, visited, states, parents := DoMigrate(doc, root, widths);
  }
}
