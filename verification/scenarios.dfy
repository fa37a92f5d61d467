/**
 * Two worked inputs of the pass, each derived from Run's contract alone:
 * an end-marker that leaves a span and then the div around it in one run,
 * and a tree on which a second run moves more than the first did.
 */
module Scenarios {
  import opened Nodes
  import opened Seqs
  import opened Boundary
  import opened Tree
  import opened TreeMoves
  import opened Dom
  import opened MigrateTemplateMarkerMetas

  // ---------------------------------------------------------------------
  // Reading a node's own check off its runs

  /** The own check of a node whose trailing run is empty is the lead move of its leading run. */
  lemma LeadOnlyStep(widths: TagWidths, kind: Kinds, ch: Children, parent: Parents, rank: Ranks, node: NodeId, n: nat)
    requires WellFormed(kind, ch, parent, rank) && node in parent && !AtTheTop(kind[node])
    requires node in ch && forall i :: 0 <= i < |ch[node]| ==> ch[node][i] in kind
    requires ch[node] != [] ==> MayHaveChildren(kind[node])
    requires Runs(widths, kind, ch[node], kind[node]) == (n, 0)
    ensures parent[node] in ch && node in ch[parent[node]] && n <= |ch[node]|
    ensures OwnStep(widths, kind, ch, parent, rank, node) == LeadMove(ch, node, parent[node], n)
  {
    Placement(kind, ch, parent, rank, node);
    var p := parent[node];
    LeadMoveAt(ch, node, p, n);
    TrailMoveZero(LeadMove(ch, node, p, n), node, p);
  }

  /** The i-th step of a trace. */
  lemma StepAt(widths: TagWidths, kind: Kinds, rank: Ranks,
               states: seq<Children>, parents: seq<Parents>, visited: seq<NodeId>, i: nat)
    requires Steps(widths, kind, rank, states, parents, visited) && i < |visited|
    ensures WellFormed(kind, states[i], parents[i], rank) && visited[i] in states[i]
    ensures visited[i] in parents[i] || AtTheTop(kind[visited[i]])
    ensures states[i + 1] == OwnStep(widths, kind, states[i], parents[i], rank, visited[i])
  {
  }

  /** A step that checks the top leaves the tree as it was. */
  lemma TopStepAt(widths: TagWidths, kind: Kinds, rank: Ranks,
                  states: seq<Children>, parents: seq<Parents>, visited: seq<NodeId>, i: nat, top: NodeId)
    requires Steps(widths, kind, rank, states, parents, visited) && i < |visited|
    requires visited[i] == top && top in kind && AtTheTop(kind[top])
    ensures states[i + 1] == states[i]
  {
  }

  /** A lead move read off the parent's child list split around the moved node. */
  lemma LeadMoveOf(ch: Children, m: NodeId, p: NodeId, n: nat, before: seq<NodeId>, after: seq<NodeId>, res: Children)
    requires m in ch && p in ch && m != p && ch[p] == before + [m] + after && m !in before && n <= |ch[m]|
    requires res.Keys == ch.Keys && res[m] == ch[m][n..] && res[p] == before + ch[m][..n] + [m] + after
    requires forall y :: y in ch && y != m && y != p ==> res[y] == ch[y]
    ensures LeadMove(ch, m, p, n) == res
  {
    LeadMoveAt(ch, m, p, n);
    IndexOfSplit(before, m, after);
    var i := |before|;
    assert ch[p][..i] == before && ch[p][i + 1..] == after;
  }

  /** The checks of a list of childless nodes make no entries. */
  lemma {:induction false} PostOrderOfLeaves(ch: Children, rank: Ranks, s: seq<NodeId>)
    requires Ranked(ch, rank) && forall i :: 0 <= i < |s| ==> s[i] in ch && ch[s[i]] == []
    ensures PostOrderOf(ch, rank, s) == []
  {
    if s != [] {
      var s0 := s[..|s| - 1];
      PostOrderOfLeaves(ch, rank, s0);
      PostOrderOfAppend(ch, rank, s0, s[|s| - 1]);
      assert s == s0 + [s[|s| - 1]];
    }
  }

  /** A node whose children are all childless is checked alone. */
  lemma PostOrderOfLeafParent(ch: Children, rank: Ranks, n: NodeId)
    requires Ranked(ch, rank) && n in ch
    requires forall i :: 0 <= i < |ch[n]| ==> ch[n][i] in ch && ch[ch[n][i]] == []
    ensures PostOrder(ch, rank, n) == [n]
  {
    PostOrderOfLeaves(ch, rank, ch[n]);
    PostOrderUnfold(ch, rank, n);
  }

  // ---------------------------------------------------------------------
  // An end-marker leaves a span and then the div around it

  /**
   * The fragment root holds a div (its start tag auto-inserted), which holds
   * a span (a zero-width start tag in the table), which holds an end-marker
   * and then some text.
   */
  const NestedKinds: Kinds := map[0 := FragmentRoot, 1 := PlainElement("div", true, false),
                                  2 := PlainElement("span", false, false), 3 := EndMarker, 4 := Text(false)]
  const NestedWidths: TagWidths := map["span" := (0, 0)]
  const NestedTree: Children := map[0 := [1], 1 := [2], 2 := [3, 4], 3 := [], 4 := []]
  const NestedParents: Parents := map[1 := 0, 2 := 1, 3 := 2, 4 := 2]
  const NestedRanks: Ranks := map[0 := 3, 1 := 2, 2 := 1, 3 := 0, 4 := 0]
  /** The end-marker ends in front of the div, at the top; the span keeps its text. */
  const NestedResult: Children := map[0 := [3, 1], 1 := [2], 2 := [4], 3 := [], 4 := []]

  /** After the span's check: the end-marker stands before the span, inside the div. */
  const NestedMid: Children := map[0 := [1], 1 := [3, 2], 2 := [4], 3 := [], 4 := []]

  lemma NestedRanked()
    ensures Ranked(NestedTree, NestedRanks)
  {
    var ch, rank := NestedTree, NestedRanks;
    forall n, i | n in ch && 0 <= i < |ch[n]| ensures ch[n][i] in ch && rank[ch[n][i]] < rank[n] {
      if n == 0 {} else if n == 1 {} else if n == 2 {}
    }
  }

  lemma NestedLinked()
    ensures forall n, i :: n in NestedTree && 0 <= i < |NestedTree[n]| ==>
      NestedTree[n][i] in NestedParents && NestedParents[NestedTree[n][i]] == n
    ensures forall c :: c in NestedParents ==> NestedParents[c] in NestedTree && c in NestedTree[NestedParents[c]]
  {
    var ch, par := NestedTree, NestedParents;
    forall n, i | n in ch && 0 <= i < |ch[n]| ensures ch[n][i] in par && par[ch[n][i]] == n {
      if n == 0 {} else if n == 1 {} else if n == 2 {}
    }
    forall c | c in par ensures par[c] in ch && c in ch[par[c]] {
      if c == 1 {} else if c == 2 {} else if c == 3 {} else { assert c == 4; }
    }
  }

  lemma NestedLists()
    ensures forall n :: n in NestedTree ==> Distinct(NestedTree[n])
    ensures forall n :: n in NestedTree && NestedTree[n] != [] ==> MayHaveChildren(NestedKinds[n])
  {
    var ch := NestedTree;
    forall n | n in ch ensures Distinct(ch[n]) && (ch[n] != [] ==> MayHaveChildren(NestedKinds[n])) {
      if n == 0 {} else if n == 1 {} else if n == 2 {}
    }
  }

  lemma NestedWellFormed()
    ensures WellFormed(NestedKinds, NestedTree, NestedParents, NestedRanks)
  {
    NestedRanked();
    NestedLinked();
    NestedLists();
  }

  /** The pass checks the span, then the div, then the root. */
  lemma NestedOrder()
    ensures Ranked(NestedTree, NestedRanks) && 0 in NestedTree
    ensures PostOrder(NestedTree, NestedRanks, 0) == [2, 1, 0]
  {
    NestedRanked();
    var ch, rank := NestedTree, NestedRanks;
    PostOrderOfLeaves(ch, rank, [3, 4]);
    PostOrderUnfold(ch, rank, 2);
    PostOrderOfLeaves(ch, rank, []);
    PostOrderOfAppend(ch, rank, [], 2);
    PostOrderUnfold(ch, rank, 1);
    PostOrderOfAppend(ch, rank, [], 1);
    PostOrderUnfold(ch, rank, 0);
  }

  /** The entries of the nested trees the steps below read. */
  lemma NestedFacts()
    ensures 0 in NestedKinds && NestedKinds[0] == FragmentRoot
    ensures 1 in NestedTree && NestedTree[1] == [2] && 2 in NestedTree && NestedTree[2] == [3, 4]
    ensures 0 in NestedMid && NestedMid[0] == [1] && 1 in NestedMid && NestedMid[1] == [3, 2]
  {
  }

  /** The span's runs: the end-marker leads and crosses the zero-width start tag; the text stays. */
  lemma NestedSpanRuns()
    ensures Runs(NestedWidths, NestedKinds, [3, 4], NestedKinds[2]) == (1, 0)
  {
    var ks := KindsOf(NestedKinds, [3, 4]);
    assert ks == [EndMarker, Text(false)];
    LeadingRunExactly(NestedWidths, NestedKinds[2], ks, 1);
    LastNonSepAt(ks[1..], 0);
  }

  /** The div's runs: the end-marker, now first, crosses the auto-inserted start tag. */
  lemma NestedDivRuns()
    ensures Runs(NestedWidths, NestedKinds, [3, 2], NestedKinds[1]) == (1, 0)
  {
    var ks := KindsOf(NestedKinds, [3, 2]);
    assert ks == [EndMarker, NestedKinds[2]];
    LeadingRunExactly(NestedWidths, NestedKinds[1], ks, 1);
    LastNonSepAt(ks[1..], 0);
  }

  lemma NestedSpanMove()
    ensures LeadMove(NestedTree, 2, 1, 1) == NestedMid
  {
    NestedFacts();
    LeadMoveOf(NestedTree, 2, 1, 1, [], [], NestedMid);
  }

  lemma NestedDivMove()
    ensures LeadMove(NestedMid, 1, 0, 1) == NestedResult
  {
    NestedFacts();
    LeadMoveOf(NestedMid, 1, 0, 1, [], [], NestedResult);
  }

  /** The span's check moves the end-marker out in front of the span. */
  lemma NestedSpanStep(states: seq<Children>, parents: seq<Parents>, visited: seq<NodeId>)
    requires Steps(NestedWidths, NestedKinds, NestedRanks, states, parents, visited)
    requires |visited| > 0 && visited[0] == 2 && states[0] == NestedTree
    ensures states[1] == NestedMid
  {
    StepAt(NestedWidths, NestedKinds, NestedRanks, states, parents, visited, 0);
    NestedFacts();
    NestedSpanRuns();
    LeadOnlyStep(NestedWidths, NestedKinds, NestedTree, parents[0], NestedRanks, 2, 1);
    NestedSpanMove();
  }

  /** The div's check moves the end-marker on, out in front of the div. */
  lemma NestedDivStep(states: seq<Children>, parents: seq<Parents>, visited: seq<NodeId>)
    requires Steps(NestedWidths, NestedKinds, NestedRanks, states, parents, visited)
    requires |visited| > 1 && visited[1] == 1 && states[1] == NestedMid
    ensures states[2] == NestedResult
  {
    StepAt(NestedWidths, NestedKinds, NestedRanks, states, parents, visited, 1);
    NestedFacts();
    NestedDivRuns();
    LeadOnlyStep(NestedWidths, NestedKinds, NestedMid, parents[1], NestedRanks, 1, 1);
    NestedDivMove();
  }

  /**
   * Any run of checks in that order, from the nested tree, ends with the
   * end-marker in front of the div: it left the span and then the div.
   */
  lemma NestedSteps(states: seq<Children>, parents: seq<Parents>, visited: seq<NodeId>)
    requires Steps(NestedWidths, NestedKinds, NestedRanks, states, parents, visited)
    requires visited == [2, 1, 0] && states[0] == NestedTree
    ensures states[3] == NestedResult
  {
    NestedSpanStep(states, parents, visited);
    NestedDivStep(states, parents, visited);
    // the root is the top: nothing moves
    NestedFacts();
    TopStepAt(NestedWidths, NestedKinds, NestedRanks, states, parents, visited, 2, 0);
  }

  /** The pass run on the nested tree, from its root. */
  method NestedEndMarkerRun() returns (result: Children)
    ensures result == NestedResult
  {
    NestedWellFormed();
    var doc := new Document(NestedKinds, NestedTree, NestedParents, NestedRanks);
    ghost var visited, states, parents;
    visited, states, parents := Run(doc, 0, NestedWidths, false);
    NestedOrder();
    NestedSteps(states, parents, visited);
    result := doc.children;
  }

  // ---------------------------------------------------------------------
  // A second run moves more: the pass is not idempotent

  /**
   * The fragment root holds a span whose start tag was auto-inserted; the
   * span holds an end-marker, a blank text, a second end-marker and text.
   */
  const TwiceKinds: Kinds := map[0 := FragmentRoot, 1 := PlainElement("span", true, false),
                                 2 := EndMarker, 3 := Blank, 4 := EndMarker, 5 := Text(false)]
  const TwiceWidths: TagWidths := map[]
  const TwiceTree: Children := map[0 := [1], 1 := [2, 3, 4, 5], 2 := [], 3 := [], 4 := [], 5 := []]
  const TwiceParents: Parents := map[1 := 0, 2 := 1, 3 := 1, 4 := 1, 5 := 1]
  const TwiceRanks: Ranks := map[0 := 2, 1 := 1, 2 := 0, 3 := 0, 4 := 0, 5 := 0]
  /** After one run: only the first end-marker has left the span. */
  const TwiceMid: Children := map[0 := [2, 1], 1 := [3, 4, 5], 2 := [], 3 := [], 4 := [], 5 := []]
  /** After a second run: the blank and the second end-marker have followed it. */
  const TwiceResult: Children := map[0 := [2, 3, 4, 1], 1 := [5], 2 := [], 3 := [], 4 := [], 5 := []]

  lemma TwiceRanked()
    ensures Ranked(TwiceTree, TwiceRanks) && Ranked(TwiceMid, TwiceRanks)
  {
    var ch, rank := TwiceTree, TwiceRanks;
    forall n, i | n in ch && 0 <= i < |ch[n]| ensures ch[n][i] in ch && rank[ch[n][i]] < rank[n] {
      if n == 0 {} else if n == 1 {}
    }
    ch := TwiceMid;
    forall n, i | n in ch && 0 <= i < |ch[n]| ensures ch[n][i] in ch && rank[ch[n][i]] < rank[n] {
      if n == 0 {} else if n == 1 {}
    }
  }

  lemma TwiceLinked()
    ensures forall n, i :: n in TwiceTree && 0 <= i < |TwiceTree[n]| ==>
      TwiceTree[n][i] in TwiceParents && TwiceParents[TwiceTree[n][i]] == n
    ensures forall c :: c in TwiceParents ==> TwiceParents[c] in TwiceTree && c in TwiceTree[TwiceParents[c]]
  {
    var ch, par := TwiceTree, TwiceParents;
    forall n, i | n in ch && 0 <= i < |ch[n]| ensures ch[n][i] in par && par[ch[n][i]] == n {
      if n == 0 {} else if n == 1 {}
    }
    forall c | c in par ensures par[c] in ch && c in ch[par[c]] {
      if c == 1 {} else if c == 2 {} else if c == 3 {} else if c == 4 {} else { assert c == 5; }
    }
  }

  lemma TwiceLists()
    ensures forall n :: n in TwiceTree ==> Distinct(TwiceTree[n])
    ensures forall n :: n in TwiceTree && TwiceTree[n] != [] ==> MayHaveChildren(TwiceKinds[n])
  {
    var ch := TwiceTree;
    forall n | n in ch ensures Distinct(ch[n]) && (ch[n] != [] ==> MayHaveChildren(TwiceKinds[n])) {
      if n == 0 {} else if n == 1 {}
    }
  }

  lemma TwiceWellFormed()
    ensures WellFormed(TwiceKinds, TwiceTree, TwiceParents, TwiceRanks)
  {
    TwiceRanked();
    TwiceLinked();
    TwiceLists();
  }

  /** The entries of the trees the steps below read. */
  lemma TwiceFacts()
    ensures 0 in TwiceKinds && TwiceKinds[0] == FragmentRoot
    ensures 1 in TwiceTree && TwiceTree[1] == [2, 3, 4, 5] && 0 in TwiceTree && TwiceTree[0] == [1]
    ensures 1 in TwiceMid && TwiceMid[1] == [3, 4, 5] && 0 in TwiceMid && TwiceMid[0] == [2, 1]
    ensures TwiceResult[1] == [5] && TwiceMid != TwiceResult
  {
    assert TwiceMid[1] != TwiceResult[1];
  }

  /** Both runs check the span and then the root. */
  lemma TwiceFirstOrder()
    ensures Ranked(TwiceTree, TwiceRanks) && 0 in TwiceTree && PostOrder(TwiceTree, TwiceRanks, 0) == [1, 0]
  {
    TwiceRanked();
    TwiceFacts();
    var ch, rank := TwiceTree, TwiceRanks;
    PostOrderOfLeafParent(ch, rank, 1);
    PostOrderOfLeaves(ch, rank, []);
    PostOrderOfAppend(ch, rank, [], 1);
    assert ch[0] == [] + [1];
    PostOrderUnfold(ch, rank, 0);
  }

  lemma TwiceSecondOrder()
    ensures Ranked(TwiceMid, TwiceRanks) && 0 in TwiceMid && PostOrder(TwiceMid, TwiceRanks, 0) == [1, 0]
  {
    TwiceRanked();
    TwiceFacts();
    var ch, rank := TwiceMid, TwiceRanks;
    PostOrderOfLeafParent(ch, rank, 1);
    PostOrderOfLeaves(ch, rank, [2]);
    PostOrderOfAppend(ch, rank, [2], 1);
    assert ch[0] == [2] + [1];
    PostOrderUnfold(ch, rank, 0);
  }

  /** First run: only the first end-marker leads; the text is last, so nothing trails. */
  lemma TwiceFirstRuns()
    ensures Runs(TwiceWidths, TwiceKinds, [2, 3, 4, 5], TwiceKinds[1]) == (1, 0)
  {
    var ks := KindsOf(TwiceKinds, [2, 3, 4, 5]);
    assert ks == [EndMarker, Blank, EndMarker, Text(false)];
    LeadingRunExactly(TwiceWidths, TwiceKinds[1], ks, 1);
    LastNonSepAt(ks[1..], 2);
  }

  /** Second run: the blank and the second end-marker now lead. */
  lemma TwiceSecondRuns()
    ensures Runs(TwiceWidths, TwiceKinds, [3, 4, 5], TwiceKinds[1]) == (2, 0)
  {
    var ks := KindsOf(TwiceKinds, [3, 4, 5]);
    assert ks == [Blank, EndMarker, Text(false)];
    LeadingRunExactly(TwiceWidths, TwiceKinds[1], ks, 2);
    LastNonSepAt(ks[2..], 0);
  }

  lemma TwiceFirstMove()
    ensures LeadMove(TwiceTree, 1, 0, 1) == TwiceMid
  {
    TwiceFacts();
    LeadMoveOf(TwiceTree, 1, 0, 1, [], [], TwiceMid);
  }

  lemma TwiceSecondMove()
    ensures LeadMove(TwiceMid, 1, 0, 2) == TwiceResult
  {
    TwiceFacts();
    assert TwiceMid[0] == [2] + [1] + [];
    LeadMoveOf(TwiceMid, 1, 0, 2, [2], [], TwiceResult);
  }

  /** Any run from the first tree, span then root, ends in the middle tree. */
  lemma TwiceFirstSteps(states: seq<Children>, parents: seq<Parents>, visited: seq<NodeId>)
    requires Steps(TwiceWidths, TwiceKinds, TwiceRanks, states, parents, visited)
    requires visited == [1, 0] && states[0] == TwiceTree
    ensures states[2] == TwiceMid
  {
    StepAt(TwiceWidths, TwiceKinds, TwiceRanks, states, parents, visited, 0);
    TwiceFacts();
    TwiceFirstRuns();
    LeadOnlyStep(TwiceWidths, TwiceKinds, TwiceTree, parents[0], TwiceRanks, 1, 1);
    TwiceFirstMove();
    TopStepAt(TwiceWidths, TwiceKinds, TwiceRanks, states, parents, visited, 1, 0);
  }

  /** Any run from the middle tree, span then root, ends in the last tree. */
  lemma TwiceSecondSteps(states: seq<Children>, parents: seq<Parents>, visited: seq<NodeId>)
    requires Steps(TwiceWidths, TwiceKinds, TwiceRanks, states, parents, visited)
    requires visited == [1, 0] && states[0] == TwiceMid
    ensures states[2] == TwiceResult
  {
    StepAt(TwiceWidths, TwiceKinds, TwiceRanks, states, parents, visited, 0);
    TwiceFacts();
    TwiceSecondRuns();
    LeadOnlyStep(TwiceWidths, TwiceKinds, TwiceMid, parents[0], TwiceRanks, 1, 2);
    TwiceSecondMove();
    TopStepAt(TwiceWidths, TwiceKinds, TwiceRanks, states, parents, visited, 1, 0);
  }

  /** The pass run again on a document left as the first run leaves it. */
  method RunAgain(doc: Document) returns (second: Children)
    requires doc.Valid() && doc.kind == TwiceKinds && doc.rank == TwiceRanks && doc.children == TwiceMid
    modifies doc
    ensures second == TwiceResult
  {
    TwiceFacts();
    TwiceSecondOrder();
    ghost var visited, states, parents;
    visited, states, parents := Run(doc, 0, TwiceWidths, false);
    TwiceSecondSteps(states, parents, visited);
    second := doc.children;
  }

  /** The pass run twice on the same document: the second run still moves nodes. */
  method RunTwice() returns (first: Children, second: Children)
    ensures first == TwiceMid && second == TwiceResult && first != second
  {
    TwiceWellFormed();
    TwiceFacts();
    TwiceFirstOrder();
    var doc := new Document(TwiceKinds, TwiceTree, TwiceParents, TwiceRanks);
    ghost var visited, states, parents;
    visited, states, parents := Run(doc, 0, TwiceWidths, false);
    TwiceFirstSteps(states, parents, visited);
    first := doc.children;
    second := RunAgain(doc);
  }
}
