/**
 * The live DOM the pass rearranges: an arena of nodes, each with a fixed
 * kind, an ordered list of children and a parent link, and the one
 * mutation the pass performs, Node::insertBefore.
 */
module Dom {
  import opened Wrappers
  import opened Nodes
  import opened Seqs
  import opened Tree
  import opened Boundary
  import TreeMoves

  class Document {
    const kind: Kinds
    var children: Children
    var parent: Parents
    /** Acyclicity witness: every child ranks below its parent. */
    ghost const rank: Ranks

    ghost predicate Valid()
      reads this
    {
      WellFormed(kind, children, parent, rank)
    }

    constructor (kind: Kinds, children: Children, parent: Parents, ghost rank: Ranks)
      requires WellFormed(kind, children, parent, rank)
      ensures Valid()
      ensures this.kind == kind && this.children == children && this.parent == parent && this.rank == rank
    {
      this.kind := kind;
      this.children := children;
      this.parent := parent;
      this.rank := rank;
    }

    /** Node::firstChild */
    function FirstChild(n: NodeId): (r: Option<NodeId>)
      reads this
      requires n in children
      ensures r.None? <==> children[n] == []
      ensures r.Some? ==> r.value == children[n][0]
      ensures Valid() && r.Some? ==> r.value in parent && parent[r.value] == n
    {
      if children[n] == [] then None else Some(children[n][0])
    }

    /** Node::nextSibling of an attached node. */
    method NextSibling(n: NodeId) returns (r: Option<NodeId>)
      requires Valid() && n in parent
      ensures parent[n] in children && n in children[parent[n]]
      ensures var s := children[parent[n]]; var i := IndexOf(s, n);
        (i + 1 < |s| ==> r == Some(s[i + 1])) && (i + 1 == |s| ==> r.None?)
    {
      var s := children[parent[n]];
      var i := IndexOf(s, n);
      r := if i + 1 < |s| then Some(s[i + 1]) else None;
    }

    /** DOMUtils::firstNonSepChild: the first child that is neither blank text nor a comment. */
    function FirstNonSepChild(n: NodeId): (r: Option<NodeId>)
      reads this
      requires Valid() && n in children
      ensures var s := children[n]; match FirstNonSep(KindsOf(kind, s))
        case None => r.None? && forall j :: 0 <= j < |s| ==> IsSeparator(kind[s[j]])
        case Some(i) => (r == Some(s[i]) && !IsSeparator(kind[s[i]]) &&
          forall j :: 0 <= j < i ==> IsSeparator(kind[s[j]]))
    {
      var s := children[n];
      match FirstNonSep(KindsOf(kind, s))
      case None => None
      case Some(i) => Some(s[i])
    }

    /** DOMUtils::lastNonSepChild: the last child that is neither blank text nor a comment. */
    function LastNonSepChild(n: NodeId): (r: Option<NodeId>)
      reads this
      requires Valid() && n in children
      ensures var s := children[n]; match LastNonSep(KindsOf(kind, s))
        case None => r.None? && forall j :: 0 <= j < |s| ==> IsSeparator(kind[s[j]])
        case Some(i) => (r == Some(s[i]) && !IsSeparator(kind[s[i]]) &&
          forall j :: i < j < |s| ==> IsSeparator(kind[s[j]]))
    {
      var s := children[n];
      match LastNonSep(KindsOf(kind, s))
      case None => None
      case Some(i) => Some(s[i])
    }

    /**
     * p.insertBefore(c, ref): c leaves its present parent's list and enters
     * p's list just before ref, or at the end when ref is null. Only the
     * case the pass uses is covered: c is attached below another parent
     * and p is not inside c.
     */
    method InsertBefore(p: NodeId, c: NodeId, ref: Option<NodeId>)
      requires Valid()
      requires p in children && MayHaveChildren(kind[p])
      requires c in parent && parent[c] != p && rank[c] < rank[p]
      requires ref.Some? ==> ref.value in children[p]
      modifies this
      ensures Valid()
      ensures old(c in children[parent[c]]) && c !in old(children[p])
      ensures var q := old(parent[c]);
        var pos := if ref.Some? then IndexOf(old(children[p]), ref.value) else |old(children[p])|;
        children == old(children)[q := Removed(old(children[q]), c)][p := InsertAt(old(children[p]), c, pos)]
      ensures parent == old(parent)[c := p]
      ensures children.Keys == old(children.Keys) && parent.Keys == old(parent.Keys)
    {
      var q := parent[c];
      var pos := if ref.Some? then IndexOf(children[p], ref.value) else |children[p]|;
      TreeMoves.MoveWellFormed(kind, children, parent, rank, p, c, pos);
      children := children[q := Removed(children[q], c)][p := InsertAt(children[p], c, pos)];
      parent := parent[c := p];
    }
  }
}
