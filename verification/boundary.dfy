/**
 * The decisions the marker-migration pass takes about one node: where its
 * first and last non-separator children are, whether its start or end tag
 * may be crossed, and how many leading or trailing children migrate out.
 * Everything here is a function of the node's kind and of the kinds of its
 * children, in order.
 */
module Boundary {
  import opened Wrappers
  import opened Nodes

  /** The static tag-width table: tag name to (start-tag width, end-tag width). */
  type TagWidths = map<string, (nat, nat)>

  /** The kinds of the nodes of a child list, in order. */
  function KindsOf(kind: map<NodeId, NodeKind>, s: seq<NodeId>): (ks: seq<NodeKind>)
    requires forall i :: 0 <= i < |s| ==> s[i] in kind
    ensures |ks| == |s| && forall i :: 0 <= i < |s| ==> ks[i] == kind[s[i]]
  {
    seq(|s|, i requires 0 <= i < |s| => kind[s[i]])
  }

  /** The kinds of a suffix are the suffix of the kinds. */
  lemma KindsOfDrop(kind: map<NodeId, NodeKind>, s: seq<NodeId>, n: nat)
    requires forall i :: 0 <= i < |s| ==> s[i] in kind
    requires n <= |s|
    ensures KindsOf(kind, s[n..]) == KindsOf(kind, s)[n..]
  {
    var a, b := KindsOf(kind, s[n..]), KindsOf(kind, s)[n..];
    forall i | 0 <= i < |a| ensures a[i] == b[i] {
      assert s[n..][i] == s[n + i];
    }
  }

  /** DOMUtils::firstNonSepChild, as a position in the child list. */
  function FirstNonSep(ks: seq<NodeKind>): (r: Option<nat>)
    ensures r.Some? ==> r.value < |ks| && !IsSeparator(ks[r.value])
    ensures forall j :: 0 <= j < |ks| && (r.None? || j < r.value) ==> IsSeparator(ks[j])
  {
    if ks == [] then None
    else if !IsSeparator(ks[0]) then Some(0)
    else match FirstNonSep(ks[1..])
      case None => None
      case Some(i) => Some(i + 1)
  }

  /** DOMUtils::lastNonSepChild, as a position in the child list. */
  function LastNonSep(ks: seq<NodeKind>): (r: Option<nat>)
    ensures r.Some? ==> r.value < |ks| && !IsSeparator(ks[r.value])
    ensures forall j :: 0 <= j < |ks| && (r.None? || r.value < j) ==> IsSeparator(ks[j])
  {
    if ks == [] then None
    else if !IsSeparator(ks[|ks| - 1]) then Some(|ks| - 1)
    else LastNonSep(ks[..|ks| - 1])
  }

  /**
   * An end-marker may leave through the element's start tag when the table
   * says that tag is zero-width and the element is not literal HTML, or when
   * the start tag was auto-inserted.
   */
  function StartTagCrossable(widths: TagWidths, k: NodeKind): (b: bool)
    requires k.Element?
    ensures k.dp.autoInsertedStart ==> b
    ensures !k.dp.autoInsertedStart ==>
      (b <==> k.name in widths && widths[k.name].0 == 0 && !IsLiteralHtmlNode(k))
  {
    (k.name in widths && widths[k.name].0 == 0 && !IsLiteralHtmlNode(k))
    || k.dp.autoInsertedStart
  }

  /**
   * A start-marker may leave through the element's end tag when the table
   * says that tag is zero-width and the element is not literal HTML, or when
   * the end tag was auto-inserted and the element is not a table (whose end
   * may hold fostered markers).
   */
  function EndTagCrossable(widths: TagWidths, k: NodeKind): (b: bool)
    requires k.Element?
    ensures k.dp.autoInsertedEnd && k.name != "table" ==> b
    ensures k.name == "table" || !k.dp.autoInsertedEnd ==>
      (b <==> k.name in widths && widths[k.name].1 == 0 && !IsLiteralHtmlNode(k))
  {
    (k.name in widths && widths[k.name].1 == 0 && !IsLiteralHtmlNode(k))
    || (k.dp.autoInsertedEnd && k.name != "table")
  }

  /**
   * How many leading children of a node of kind k, whose children have kinds
   * ks, are moved to just before it: everything up to and including the first
   * non-separator child when that child is an end-marker and the start tag
   * may be crossed; nothing otherwise.
   */
  function LeadingRun(widths: TagWidths, k: NodeKind, ks: seq<NodeKind>): (n: nat)
    requires ks != [] ==> MayHaveChildren(k)
    ensures n <= |ks|
    ensures n > 0 ==> !AtTheTop(k) && k.Element? && StartTagCrossable(widths, k)
    ensures n > 0 ==> IsTplEndMarkerMeta(ks[n - 1]) && forall j :: 0 <= j < n - 1 ==> IsSeparator(ks[j])
  {
    if AtTheTop(k) then 0
    else match FirstNonSep(ks)
      case None => 0
      case Some(i) =>
        if IsTplEndMarkerMeta(ks[i]) && StartTagCrossable(widths, k) then i + 1 else 0
  }

  /**
   * How many trailing children of a node of kind k are moved to just after
   * it: everything from the last non-separator child on, when that child is a
   * start-marker and the end tag may be crossed; nothing otherwise.
   */
  function TrailingRun(widths: TagWidths, k: NodeKind, ks: seq<NodeKind>): (n: nat)
    requires ks != [] ==> MayHaveChildren(k)
    ensures n <= |ks|
    ensures n > 0 ==> !AtTheTop(k) && k.Element? && EndTagCrossable(widths, k)
    ensures n > 0 ==> IsTplStartMarkerMeta(ks[|ks| - n]) && forall j :: |ks| - n < j < |ks| ==> IsSeparator(ks[j])
  {
    if AtTheTop(k) then 0
    else match LastNonSep(ks)
      case None => 0
      case Some(i) =>
        if IsTplStartMarkerMeta(ks[i]) && EndTagCrossable(widths, k) then |ks| - i else 0
  }

  // ---------------------------------------------------------------------
  // What the runs are, independently of how they are found

  /** A position preceded only by separators and holding none is the first non-separator. */
  lemma FirstNonSepAt(ks: seq<NodeKind>, i: nat)
    requires i < |ks| && !IsSeparator(ks[i]) && forall j :: 0 <= j < i ==> IsSeparator(ks[j])
    ensures FirstNonSep(ks) == Some(i)
  {
  }

  /** A position followed only by separators and holding none is the last non-separator. */
  lemma LastNonSepAt(ks: seq<NodeKind>, i: nat)
    requires i < |ks| && !IsSeparator(ks[i]) && forall j :: i < j < |ks| ==> IsSeparator(ks[j])
    ensures LastNonSep(ks) == Some(i)
  {
  }

  /**
   * Exactly n > 0 children leave in front of a node when the node is an
   * element below the top whose start tag may be crossed, its n-th child is
   * an end-marker, and the children before that one are all separators.
   */
  lemma LeadingRunExactly(widths: TagWidths, k: NodeKind, ks: seq<NodeKind>, n: nat)
    requires ks != [] ==> MayHaveChildren(k)
    requires 0 < n <= |ks|
    ensures LeadingRun(widths, k, ks) == n <==>
      !AtTheTop(k) && k.Element? && StartTagCrossable(widths, k) &&
      IsTplEndMarkerMeta(ks[n - 1]) && forall j :: 0 <= j < n - 1 ==> IsSeparator(ks[j])
  {
    if !AtTheTop(k) && k.Element? && StartTagCrossable(widths, k) &&
       IsTplEndMarkerMeta(ks[n - 1]) && forall j :: 0 <= j < n - 1 ==> IsSeparator(ks[j]) {
      FirstNonSepAt(ks, n - 1);
    }
  }

  /**
   * Exactly n > 0 children leave behind a node when the node is an element
   * below the top whose end tag may be crossed, its n-th child from the end
   * is a start-marker, and the children after that one are all separators.
   */
  lemma TrailingRunExactly(widths: TagWidths, k: NodeKind, ks: seq<NodeKind>, n: nat)
    requires ks != [] ==> MayHaveChildren(k)
    requires 0 < n <= |ks|
    ensures TrailingRun(widths, k, ks) == n <==>
      !AtTheTop(k) && k.Element? && EndTagCrossable(widths, k) &&
      IsTplStartMarkerMeta(ks[|ks| - n]) && forall j :: |ks| - n < j < |ks| ==> IsSeparator(ks[j])
  {
    if !AtTheTop(k) && k.Element? && EndTagCrossable(widths, k) &&
       IsTplStartMarkerMeta(ks[|ks| - n]) && forall j :: |ks| - n < j < |ks| ==> IsSeparator(ks[j]) {
      LastNonSepAt(ks, |ks| - n);
    }
  }

  // ---------------------------------------------------------------------
  // The barriers

  /**
   * A start tag that the table gives a nonzero width, or that belongs to
   * literal HTML, holds end-markers in unless it was auto-inserted.
   */
  lemma StartTagBarrier(widths: TagWidths, k: NodeKind, ks: seq<NodeKind>)
    requires ks != [] ==> MayHaveChildren(k)
    requires k.Element? && !k.dp.autoInsertedStart
    requires (k.name in widths && widths[k.name].0 != 0) || IsLiteralHtmlNode(k)
    ensures LeadingRun(widths, k, ks) == 0
  {
  }

  /**
   * An end tag that the table gives a nonzero width, or that belongs to
   * literal HTML, holds start-markers in unless it was auto-inserted on an
   * element other than a table.
   */
  lemma EndTagBarrier(widths: TagWidths, k: NodeKind, ks: seq<NodeKind>)
    requires ks != [] ==> MayHaveChildren(k)
    requires k.Element? && !(k.dp.autoInsertedEnd && k.name != "table")
    requires (k.name in widths && widths[k.name].1 != 0) || IsLiteralHtmlNode(k)
    ensures TrailingRun(widths, k, ks) == 0
  {
  }

  /** An element the table does not know migrates markers only through auto-inserted tags. */
  lemma UnknownTagNeedsAutoInsertion(widths: TagWidths, k: NodeKind, ks: seq<NodeKind>)
    requires ks != [] ==> MayHaveChildren(k)
    requires k.Element? && k.name !in widths
    ensures LeadingRun(widths, k, ks) > 0 ==> k.dp.autoInsertedStart
    ensures TrailingRun(widths, k, ks) > 0 ==> k.dp.autoInsertedEnd && k.name != "table"
  {
  }

  /**
   * A table lets start-markers out only through a zero-width, non-literal
   * end tag: an auto-inserted end tag is not enough, since the marker may
   * have been fostered out of the table.
   */
  lemma TableEndNeedsZeroWidth(widths: TagWidths, k: NodeKind, ks: seq<NodeKind>)
    requires ks != [] ==> MayHaveChildren(k)
    requires k.Element? && k.name == "table"
    ensures TrailingRun(widths, k, ks) > 0 ==>
      "table" in widths && widths["table"].1 == 0 && !IsLiteralHtmlNode(k)
  {
  }

  /** A plain element of the given name with the given data-parsoid flags. */
  function PlainElement(name: string, autoStart: bool, autoEnd: bool): (k: NodeKind)
    ensures k.Element? && k.name == name && MayHaveChildren(k) && !IsLiteralHtmlNode(k)
  {
    Element(name, MetaRole.Plain, false, DataParsoid(autoStart, autoEnd))
  }

  const EndMarker: NodeKind := Element("meta", TplEndMarker, false, DataParsoid(false, false))
  const StartMarker: NodeKind := Element("meta", TplStartMarker, false, DataParsoid(false, false))
  const Blank: NodeKind := Text(true)

  /**
   * The table exclusion is about auto-inserted end tags only: a table whose
   * end tag is zero-width in the table does let a trailing start-marker out,
   * while one whose end tag was merely auto-inserted does not.
   */
  lemma TableExclusionWitness()
    ensures TrailingRun(map["table" := (0, 0)], PlainElement("table", false, false), [StartMarker, Blank]) == 2
    ensures TrailingRun(map[], PlainElement("table", false, true), [StartMarker, Blank]) == 0
    ensures TrailingRun(map[], PlainElement("tbody", false, true), [StartMarker, Blank]) == 2
  {
    LastNonSepAt([StartMarker, Blank], 0);
  }

  /**
   * One pass does not move every end-marker that can move: of the children
   * end-marker, blank text, end-marker only the first leaves; on what
   * remains, a second pass moves the other two.
   */
  lemma NotIdempotentWitness()
    ensures var k := PlainElement("span", true, false); var ks := [EndMarker, Blank, EndMarker];
      LeadingRun(map[], k, ks) == 1 && LeadingRun(map[], k, ks[1..]) == 2
  {
    var ks := [EndMarker, Blank, EndMarker];
    FirstNonSepAt(ks, 0);
    assert ks[1..] == [Blank, EndMarker];
    FirstNonSepAt(ks[1..], 1);
  }
}
