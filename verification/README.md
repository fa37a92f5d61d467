# MigrateTemplateMarkerMetas, modelled in Dafny

Parsoid's `MigrateTemplateMarkerMetas` is a DOM post-processing pass of the
wikitext-to-HTML pipeline. Template and extension output is delimited in the
DOM by marker `<meta>` elements: a start-marker before the output and an
end-marker after it. Tree building can leave such a marker one level too deep:

- an end-marker can end up as the first real child of an element that
  follows the template output;
- a start-marker can end up as the last real child of an element that
  precedes it.

The pass walks the tree in post-order (children first, then the node). At
each node below the top of the fragment it applies two moves.

- **End-markers.** When the first child that is not blank text or a comment
  is an end-marker, and the node's start tag can be crossed, the children up
  to and including that marker move out. They land, in order, just before
  the node. A start tag can be crossed when the tag-width table gives it
  width zero and the element is not literal HTML, or when the tag was
  auto-inserted.
- **Start-markers.** When the last such child is a start-marker, and the end
  tag can be crossed, the children from that marker on move out. They land,
  in order, just after the node. An end tag can be crossed when its width is
  zero and the element is not literal HTML, or when it was auto-inserted and
  the element is not a `table`.

## How the model is built

- **Node kinds** (`nodes.dfy`). Each node has a `NodeKind` that records only
  what the pass reads:
  - an element's name, its marker role and its literal-HTML flag;
  - the two data-parsoid flags `autoInsertedStart` and `autoInsertedEnd`;
  - whether a text node is blank;
  - comments, and the fragment root.
- **Decisions** (`boundary.dfy`). `FirstNonSep`, `LastNonSep`,
  `StartTagCrossable`, `EndTagCrossable`, `LeadingRun` and `TrailingRun` are
  pure functions of the node's kind and of its children's kinds.
  `LeadingRun` and `TrailingRun` give how many children leave in front of
  the node and how many behind it.
- **The document** (`document.dfy`). `Dom.Document` is a class whose fields
  the pass updates in place: a child list per node and a parent link per
  attached node. `InsertBefore` is the one mutation the pass performs. A
  ghost rank per node, strictly above the ranks of its children, witnesses
  that the tree has no cycle. `Valid()` says the fields form a tree.
- **The tree as values** (`tree.dfy`, `tree_frame.dfy`, `tree_moves.dfy`).
  The pass is specified on values:
  - the nodes below a node (`Sub`);
  - the left-to-right leaf sequence (`Leaves`): text, comments and marker
    metas;
  - the post-order of the nodes that have children (`PostOrder`);
  - the two moves, `LeadMove` and `TrailMove`.
- **The pass** (`migrate.dfy`). The pass itself is a set of imperative
  methods on the document:
  - `DoMigrate` and `MigrateChildren`: the walk over the children;
  - `MigrateOut`, `MoveEndMarkerOut` and `MoveStartMarkerOut`: the node's
    own check;
  - `MigrateLeading` and `MigrateTrailing`: the two sentinel `do … while`
    loops.

  Each method is proved against the value-level specification. What the
  node's own check does to the tree is `OwnStep`: its leading run lands just
  before the node and its trailing run just after it.

### What is proved

- **Sentinel loops.** Each loop moves exactly the run that `LeadingRun` or
  `TrailingRun` selects, in order, and terminates.
- **Run shape.** The leading run is separators followed by one end-marker.
  The trailing run is one start-marker followed by separators.
- **Leaf sequences.** No node's leaf sequence changes, except that of the
  node whose own check ran. For every node outside the root's subtree the
  leaf sequence is kept, and when the root is the top of the fragment, so is
  the root's. In other words, the pass only moves marker metas and
  separators across tag boundaries. It never reorders content.
- **The pass is a fold of own checks in post-order.** `Run` returns, as
  ghost values, the nodes whose own check ran, the tree before each check
  and the parent links at each check. The nodes are the post-order of the
  original tree. The first tree is the input and the last is the output.
  Each tree follows from the one before it by `OwnStep` of the node checked
  there (`Steps`). So the contract of `Run` fixes the output tree for every
  input. The next sibling is read before the recursive call, so nodes moved
  out by a child's check are not visited again.
- **Worked inputs** (`scenarios.dfy`). Two documents are run through `Run`,
  and the output is derived from its contract alone:
  - an end-marker that is the first child of a span inside a div leaves
    the span and then the div, and ends in front of the div
    (`NestedEndMarkerRun`);
  - a second run on the same document moves more markers (`RunTwice`).
- **Barriers.** A nonzero-width or literal-HTML tag that was not
  auto-inserted stops the migration. Tables need a zero-width end tag.

### Two consequences of the sentinel loops

- **A second run can move more markers: the pass is not idempotent.** Take
  an element whose start tag may be crossed and whose children are
  end-marker, blank text, end-marker, text. The first non-separator child is
  the first end-marker, and it is the sentinel, so only it leaves. On a
  second run the blank text and the second end-marker leave.
  `Scenarios.RunTwice` runs the pass twice on such a document and proves
  that the second run changes it. `Boundary.NotIdempotentWitness` shows the
  same for one node's leading run.
- **Not both at once.** For the same reason, two leading end-markers
  separated by blank text do not both migrate in one run.

## Model

| member | source | states |
|---|---|---|
| Boundary.FirstNonSep | data/web/vendor/wikimedia/parsoid/src/Wt2Html/PP/Processors/MigrateTemplateMarkerMetas.php:45 | the position found holds a non-separator and everything before it is a separator; with no position, every child is a separator |
| Boundary.LastNonSep | data/web/vendor/wikimedia/parsoid/src/Wt2Html/PP/Processors/MigrateTemplateMarkerMetas.php:62 | the position found holds a non-separator and everything after it is a separator; with no position, every child is a separator |
| Boundary.StartTagCrossable | data/web/vendor/wikimedia/parsoid/src/Wt2Html/PP/Processors/MigrateTemplateMarkerMetas.php:49-53 | an auto-inserted start tag may always be crossed; any other start tag exactly when the table gives it width zero and the element is not literal HTML |
| Boundary.EndTagCrossable | data/web/vendor/wikimedia/parsoid/src/Wt2Html/PP/Processors/MigrateTemplateMarkerMetas.php:66-74 | an auto-inserted end tag of a non-table may always be crossed; on a table, or when not auto-inserted, an end tag may be crossed exactly when the table gives it width zero and the element is not literal HTML |
| Boundary.LeadingRun | data/web/vendor/wikimedia/parsoid/src/Wt2Html/PP/Processors/MigrateTemplateMarkerMetas.php:41-53 | a non-empty leading run belongs to an element below the top whose start tag may be crossed, ends in an end-marker and is separators before it |
| Boundary.TrailingRun | data/web/vendor/wikimedia/parsoid/src/Wt2Html/PP/Processors/MigrateTemplateMarkerMetas.php:62-75 | a non-empty trailing run belongs to an element below the top whose end tag may be crossed, starts with a start-marker and is separators after it |
| Boundary.LeadingRunExactly | data/web/vendor/wikimedia/parsoid/src/Wt2Html/PP/Processors/MigrateTemplateMarkerMetas.php:45-53 | exactly n > 0 children leave in front if and only if the node is a crossable element below the top, child n is an end-marker and the children before it are separators |
| Boundary.TrailingRunExactly | data/web/vendor/wikimedia/parsoid/src/Wt2Html/PP/Processors/MigrateTemplateMarkerMetas.php:62-75 | exactly n > 0 children leave behind if and only if the node is a crossable element below the top, child n from the end is a start-marker and the children after it are separators |
| Boundary.StartTagBarrier | data/web/vendor/wikimedia/parsoid/src/Wt2Html/PP/Processors/MigrateTemplateMarkerMetas.php:49-53 | a start tag of nonzero width, or on literal HTML, that was not auto-inserted lets no end-marker out |
| Boundary.EndTagBarrier | data/web/vendor/wikimedia/parsoid/src/Wt2Html/PP/Processors/MigrateTemplateMarkerMetas.php:66-75 | an end tag of nonzero width, or on literal HTML, lets no start-marker out unless it was auto-inserted on a non-table |
| Boundary.UnknownTagNeedsAutoInsertion | data/web/vendor/wikimedia/parsoid/src/Wt2Html/PP/Processors/MigrateTemplateMarkerMetas.php:49-74 | for a tag absent from the width table, markers leave only through an auto-inserted start tag, or an auto-inserted end tag of a non-table |
| Boundary.TableEndNeedsZeroWidth | data/web/vendor/wikimedia/parsoid/src/Wt2Html/PP/Processors/MigrateTemplateMarkerMetas.php:68-74 | a table lets start-markers out only when the table gives its end tag width zero and it is not literal HTML |
| Boundary.TableExclusionWitness | data/web/vendor/wikimedia/parsoid/src/Wt2Html/PP/Processors/MigrateTemplateMarkerMetas.php:68-74 | a zero-width table end tag lets a trailing start-marker out, an auto-inserted one does not, and an auto-inserted tbody end tag does |
| Boundary.NotIdempotentWitness | data/web/vendor/wikimedia/parsoid/src/Wt2Html/PP/Processors/MigrateTemplateMarkerMetas.php:45-58 | on end-marker, blank, end-marker only the first child leaves; on what remains, the next two leave: one run is not a fixed point |
| Dom.Document.FirstChild | data/web/vendor/wikimedia/parsoid/src/Wt2Html/PP/Processors/MigrateTemplateMarkerMetas.php:31 | the node's first child, none exactly when it has no children; in a valid document its parent link points back to the node |
| Dom.Document.NextSibling | data/web/vendor/wikimedia/parsoid/src/Wt2Html/PP/Processors/MigrateTemplateMarkerMetas.php:33 | the node after n in its parent's child list, or none when n is last |
| Dom.Document.FirstNonSepChild | data/web/vendor/wikimedia/parsoid/src/Wt2Html/PP/Processors/MigrateTemplateMarkerMetas.php:45 | the first child that is neither blank text nor a comment, with every earlier child a separator; none when all children are separators |
| Dom.Document.LastNonSepChild | data/web/vendor/wikimedia/parsoid/src/Wt2Html/PP/Processors/MigrateTemplateMarkerMetas.php:62 | the last child that is neither blank text nor a comment, with every later child a separator; none when all children are separators |
| Dom.Document.InsertBefore | data/web/vendor/wikimedia/parsoid/src/Wt2Html/PP/Processors/MigrateTemplateMarkerMetas.php:57 | the child leaves its old parent's list and enters p's list just before ref, or at the end for none; its parent link becomes p and the document stays a tree |
| TreeMoves.LiftIsMove | data/web/vendor/wikimedia/parsoid/src/Wt2Html/PP/Processors/MigrateTemplateMarkerMetas.php:56-57 | moving a node's first (last) child to just before (after) the node is the insertBefore the loop performs |
| TreeMoves.LiftKeeps | data/web/vendor/wikimedia/parsoid/src/Wt2Html/PP/Processors/MigrateTemplateMarkerMetas.php:56-79 | one such move keeps the ranks and the leaf sequence of every node other than the one whose child moved |
| TreeMoves.LeadMove | data/web/vendor/wikimedia/parsoid/src/Wt2Html/PP/Processors/MigrateTemplateMarkerMetas.php:54-58 | m's first n children move, in order, to just before m in p's list; LeadMoveAt and LeadMoveRedistributes state it |
| TreeMoves.TrailMove | data/web/vendor/wikimedia/parsoid/src/Wt2Html/PP/Processors/MigrateTemplateMarkerMetas.php:76-80 | m's last n children move, in order, to just after m in p's list; TrailMoveAt and TrailMoveRedistributes state it |
| TreeMoves.LeadMoveAt | data/web/vendor/wikimedia/parsoid/src/Wt2Html/PP/Processors/MigrateTemplateMarkerMetas.php:54-58 | after a lead move m holds what is left of its list; p's list has m's first n children, in order, just before m; no other list changes and no node appears or disappears |
| TreeMoves.TrailMoveAt | data/web/vendor/wikimedia/parsoid/src/Wt2Html/PP/Processors/MigrateTemplateMarkerMetas.php:76-80 | after a trail move m holds what is left of its list; p's list has m's last n children, in order, just after m; no other list changes and no node appears or disappears |
| TreeMoves.LeadMoveRedistributes | data/web/vendor/wikimedia/parsoid/src/Wt2Html/PP/Processors/MigrateTemplateMarkerMetas.php:54-58 | a lead move only redistributes the children of m and p between them: no child is lost or duplicated |
| TreeMoves.TrailMoveRedistributes | data/web/vendor/wikimedia/parsoid/src/Wt2Html/PP/Processors/MigrateTemplateMarkerMetas.php:76-80 | a trail move only redistributes the children of m and p between them: no child is lost or duplicated |
| MigrateTemplateMarkerMetas.Runs | data/web/vendor/wikimedia/parsoid/src/Wt2Html/PP/Processors/MigrateTemplateMarkerMetas.php:45-80 | the leading run and the trailing run, the latter chosen on what the former leaves, together fit within the child list |
| MigrateTemplateMarkerMetas.OwnStep | data/web/vendor/wikimedia/parsoid/src/Wt2Html/PP/Processors/MigrateTemplateMarkerMetas.php:40-82 | the node's own check as a function of the tree: no node appears or disappears, and at the top of the fragment nothing moves |
| MigrateTemplateMarkerMetas.LeadRunIsMarkerRun | data/web/vendor/wikimedia/parsoid/src/Wt2Html/PP/Processors/MigrateTemplateMarkerMetas.php:45-58 | the children the node's check moves in front are separators ending in one end-marker, and only below the top of the fragment |
| MigrateTemplateMarkerMetas.TrailRunIsMarkerRun | data/web/vendor/wikimedia/parsoid/src/Wt2Html/PP/Processors/MigrateTemplateMarkerMetas.php:62-80 | the children the node's check moves behind are one start-marker followed by separators, and only below the top of the fragment |
| MigrateTemplateMarkerMetas.LeadOutIsMarkerRun | data/web/vendor/wikimedia/parsoid/src/Wt2Html/PP/Processors/MigrateTemplateMarkerMetas.php:45-58 | the same for the run taken from the tree: children of the node, separators ending in an end-marker |
| MigrateTemplateMarkerMetas.TrailOutIsMarkerRun | data/web/vendor/wikimedia/parsoid/src/Wt2Html/PP/Processors/MigrateTemplateMarkerMetas.php:62-80 | the same for the run taken from the tree: children of the node, a start-marker followed by separators |
| MigrateTemplateMarkerMetas.OwnStepShape | data/web/vendor/wikimedia/parsoid/src/Wt2Html/PP/Processors/MigrateTemplateMarkerMetas.php:41-82 | the node's children split into leading run, kept part and trailing run; the runs land in order just before and just after the node; no other child list changes and no node appears or disappears |
| MigrateTemplateMarkerMetas.OwnStepIs | data/web/vendor/wikimedia/parsoid/src/Wt2Html/PP/Processors/MigrateTemplateMarkerMetas.php:45-82 | the end-marker half followed by the start-marker half, the latter deciding on the children the former left, is the node's own step |
| MigrateTemplateMarkerMetas.MigrateLeading | data/web/vendor/wikimedia/parsoid/src/Wt2Html/PP/Processors/MigrateTemplateMarkerMetas.php:54-58 | the loop stops after the sentinel has moved: the children up to the sentinel are now, in order, just before the node, and every leaf sequence but the node's is kept |
| MigrateTemplateMarkerMetas.MigrateTrailing | data/web/vendor/wikimedia/parsoid/src/Wt2Html/PP/Processors/MigrateTemplateMarkerMetas.php:76-80 | the loop stops after the sentinel has moved: the children from the sentinel on are now, in order, just after the node, and every leaf sequence but the node's is kept |
| MigrateTemplateMarkerMetas.MoveFirstOut | data/web/vendor/wikimedia/parsoid/src/Wt2Html/PP/Processors/MigrateTemplateMarkerMetas.php:56-57 | one turn moves the node's next original child out in front: the lead move grows by one |
| MigrateTemplateMarkerMetas.MoveLastOut | data/web/vendor/wikimedia/parsoid/src/Wt2Html/PP/Processors/MigrateTemplateMarkerMetas.php:78-79 | one turn moves the node's last remaining child to just before the node's next sibling, which places it just after the node: the trail move grows by one |
| MigrateTemplateMarkerMetas.LeadTurn | data/web/vendor/wikimedia/parsoid/src/Wt2Html/PP/Processors/MigrateTemplateMarkerMetas.php:56-57 | the child one turn moves is the next child of the original list; the turn is an insertBefore and keeps every leaf sequence but the node's |
| MigrateTemplateMarkerMetas.TrailTurn | data/web/vendor/wikimedia/parsoid/src/Wt2Html/PP/Processors/MigrateTemplateMarkerMetas.php:78-79 | the same for the start-marker loop, with the insertion point taken from the node's next sibling or the end of the parent |
| MigrateTemplateMarkerMetas.MoveEndMarkerOut | data/web/vendor/wikimedia/parsoid/src/Wt2Html/PP/Processors/MigrateTemplateMarkerMetas.php:45-60 | the end-marker half leaves the tree as the lead move of exactly LeadingRun children, and keeps every leaf sequence but the node's |
| MigrateTemplateMarkerMetas.MoveStartMarkerOut | data/web/vendor/wikimedia/parsoid/src/Wt2Html/PP/Processors/MigrateTemplateMarkerMetas.php:62-82 | the start-marker half leaves the tree as the trail move of exactly TrailingRun children, and keeps every leaf sequence but the node's |
| MigrateTemplateMarkerMetas.MigrateOut | data/web/vendor/wikimedia/parsoid/src/Wt2Html/PP/Processors/MigrateTemplateMarkerMetas.php:40-82 | the node's own check changes nothing at the top of the fragment and otherwise performs OwnStep; the node keeps its parent and every leaf sequence but the node's is kept |
| MigrateTemplateMarkerMetas.DoMigrate | data/web/vendor/wikimedia/parsoid/src/Wt2Html/PP/Processors/MigrateTemplateMarkerMetas.php:30-83 | the walk over the children makes the checks of the node's subtree in post-order, each turning the tree before it into the tree after it by OwnStep, and keeps the node's leaf sequence and everything outside the subtree; then the node's own check is one more such step, which splices its runs around it in the parent; leaf sequences outside the subtree are kept |
| MigrateTemplateMarkerMetas.MigrateChildren | data/web/vendor/wikimedia/parsoid/src/Wt2Html/PP/Processors/MigrateTemplateMarkerMetas.php:31-38 | walking the original children left to right makes the checks in post-order of the original children, each turning the tree before it into the tree after it by OwnStep, from the tree at the start to the tree at the end; nothing outside the node's subtree changes and the node's leaf sequence is kept |
| MigrateTemplateMarkerMetas.MigrateChild | data/web/vendor/wikimedia/parsoid/src/Wt2Html/PP/Processors/MigrateTemplateMarkerMetas.php:34-36 | a childless child is left alone and the tree is unchanged; a child with children is migrated, its checks forming a chain of OwnStep steps ending with its own, whose leading and trailing runs are exactly what is spliced around it in the node's list |
| MigrateTemplateMarkerMetas.WalkTurn | data/web/vendor/wikimedia/parsoid/src/Wt2Html/PP/Processors/MigrateTemplateMarkerMetas.php:32-37 | one turn of the walk: the sibling is read first and is the next original child or none; the child is migrated; the walk's invariant and the chain of OwnStep steps both reach one original child further |
| MigrateTemplateMarkerMetas.WalkStep | data/web/vendor/wikimedia/parsoid/src/Wt2Html/PP/Processors/MigrateTemplateMarkerMetas.php:32-37 | one turn of the walk keeps the walk's invariant, one original child further on |
| MigrateTemplateMarkerMetas.SiblingUntouched | data/web/vendor/wikimedia/parsoid/src/Wt2Html/PP/Processors/MigrateTemplateMarkerMetas.php:33-35 | the subtree of the original child the walk reaches next is still exactly what it was at the start |
| MigrateTemplateMarkerMetas.NextInWalk | data/web/vendor/wikimedia/parsoid/src/Wt2Html/PP/Processors/MigrateTemplateMarkerMetas.php:33 | the sibling read before the recursive call is the next original child, or none after the last |
| MigrateTemplateMarkerMetas.Run | data/web/vendor/wikimedia/parsoid/src/Wt2Html/PP/Processors/MigrateTemplateMarkerMetas.php:88-92 | the checks made are the post-order of the original tree from the root, each turning the tree before it into the tree after it by OwnStep, from the input tree to the output tree; leaf sequences outside the root's subtree are kept, and at the top of the fragment so is the root's |
| Scenarios.NestedSteps | data/web/vendor/wikimedia/parsoid/src/Wt2Html/PP/Processors/MigrateTemplateMarkerMetas.php:30-58 | from a fragment root holding an auto-inserted div holding a zero-width span whose children are an end-marker and text, any chain of checks of span, div and root ends with the end-marker just before the div, the div holding the span and the span holding the text |
| Scenarios.NestedEndMarkerRun | data/web/vendor/wikimedia/parsoid/src/Wt2Html/PP/Processors/MigrateTemplateMarkerMetas.php:88-92 | run on that document, the pass returns exactly that tree |
| Scenarios.TwiceFirstSteps | data/web/vendor/wikimedia/parsoid/src/Wt2Html/PP/Processors/MigrateTemplateMarkerMetas.php:45-58 | from a root holding an auto-inserted span whose children are end-marker, blank, end-marker, text, the checks of span and root move only the first end-marker out |
| Scenarios.TwiceSecondSteps | data/web/vendor/wikimedia/parsoid/src/Wt2Html/PP/Processors/MigrateTemplateMarkerMetas.php:45-58 | from the tree the first run leaves, the checks of span and root move the blank and the second end-marker out too |
| Scenarios.RunTwice | data/web/vendor/wikimedia/parsoid/src/Wt2Html/PP/Processors/MigrateTemplateMarkerMetas.php:88-92 | running the pass twice on that document gives two different trees: a second run still moves markers |

## Left out

- DOMUtils, WTUtils, DOMCompat, DOMDataUtils and Consts are not part of this
  model. Their predicates (`firstNonSepChild`, `lastNonSepChild`,
  `isTplStartMarkerMeta`, `isTplEndMarkerMeta`, `isLiteralHTMLNode`,
  `atTheTop`, `getDataParsoid`) are modelled from the facts a node's kind
  records.
- The separators are blank text and comments.
- The tag-width table `Consts::$WtTagWidths` is a parameter. Its contents
  are not modelled. A side recorded as null in the table is treated like a
  nonzero width: it does not count as zero, as the code's strict comparison
  with 0 requires.
- The tag-width lookup is by element name. Case folding of names is not
  modelled.
- The `Env` parameter, `$options` and `$atTopLevel` play no part in the pass
  and are not modelled. `Run` keeps `atTopLevel` only as an ignored
  parameter.
- `DOMUtils::assertElt` is not modelled as a check that can fail. The model
  proves that at those two points the node is always an element: a node
  below the top that has a child is an element.
- Run: requires the root either to be the top of the fragment or to have a
  parent. A parentless root below the top whose children would migrate makes
  the code call `insertBefore` on a null parent. That failure is not
  modelled.
- Dom.Document.InsertBefore: covers only the case the pass uses. The moved
  node has another parent, and the new parent is not below it. Inserting a
  detached node or a node into its own parent is not modelled.
- DOM node identity, ownership by a document, and the storage of
  data-parsoid are abstracted to an arena of node ids with a kind each.
- Concurrency and exceptions thrown by the DOM implementation are not
  modelled.
- The trace returned by `DoMigrate`, `MigrateChildren`, `MigrateChild` and
  `Run` is ghost: the nodes whose own check ran, the tree before each check
  and the parent links at each check. The code keeps no such record. `Steps`
  ties each recorded tree to the one before it.
