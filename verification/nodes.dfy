/**
 * The kinds of DOM node the marker-migration pass distinguishes, and the
 * boundary predicates it asks about a single node. Only the facts the pass
 * reads are kept: an element's name, whether it is a template/extension
 * marker meta, whether it is literal HTML, and its data-parsoid flags.
 */
module Nodes {
  /** Nodes are addressed by a stable index into the document arena. */
  type NodeId = nat

  /** The two data-parsoid flags the pass reads. */
  datatype DataParsoid = DataParsoid(autoInsertedStart: bool, autoInsertedEnd: bool)

  /** Whether an element is a template/extension boundary marker, and which one. */
  datatype MetaRole = Plain | TplStartMarker | TplEndMarker

  datatype NodeKind =
    | Element(name: string, role: MetaRole, literalHtml: bool, dp: DataParsoid)
    | Text(blank: bool)   // blank: the text is whitespace only
    | Comment
    | FragmentRoot        // the top of the processed fragment

  predicate IsElement(k: NodeKind) { k.Element? }

  /** WTUtils::isTplStartMarkerMeta */
  predicate IsTplStartMarkerMeta(k: NodeKind) { k.Element? && k.role == TplStartMarker }

  /** WTUtils::isTplEndMarkerMeta */
  predicate IsTplEndMarkerMeta(k: NodeKind) { k.Element? && k.role == TplEndMarker }

  /** WTUtils::isLiteralHTMLNode */
  predicate IsLiteralHtmlNode(k: NodeKind) { k.Element? && k.literalHtml }

  /** DOMUtils::atTheTop: migration never crosses the top of the fragment. */
  predicate AtTheTop(k: NodeKind) { k.FragmentRoot? }

  /** What firstNonSepChild / lastNonSepChild skip: blank text and comments. */
  predicate IsSeparator(k: NodeKind) { k.Comment? || (k.Text? && k.blank) }

  /**
   * Only the fragment root and non-marker elements hold children: text and
   * comments cannot, and marker metas are void elements.
   */
  predicate MayHaveChildren(k: NodeKind) { k.FragmentRoot? || (k.Element? && k.role == Plain) }
}
