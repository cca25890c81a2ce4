/** The records the markup transformer hands to the code generator in the
    revision of `html_utils.rs` and `generate_js.rs`: ids the generated code
    looks up, the relations between nodes and reactive values, the deferred
    edits of the tree, if-blocks and text nodes rendered by hand. The
    declarations of these records (`html_manipulation.rs`, the later
    `transform_info.rs` and `transform_targets.rs`) are not part of this
    model; the fields are the ones the two files use. */
module Relations {
  import opened Wrappers
  import HtmlTree
  import TransformTargets

  /** An element id the generated code looks up, the node it belongs to and
      the if-blocks around it; `toDelete` marks an id the compiler made up. */
  datatype NeededId = NeededId(idName: string, toDelete: bool, nodeId: string, ctx: seq<string>)

  datatype ElmAndVariableContentRelation = ElmAndVariableContentRelation(
    elmId: string, depVars: seq<string>, contentOfElement: string, ctx: seq<string>, elmLoc: seq<nat>)

  datatype ElmAndReactiveAttributeRelation = ElmAndReactiveAttributeRelation(
    elmId: string, reactiveAttr: seq<TransformTargets.ReactiveAttr>, ctx: seq<string>, elmLoc: seq<nat>)

  datatype TextAndVariableContentRelation = TextAndVariableContentRelation(
    textNodeId: string, depVars: seq<string>, contentOfElement: string, ctx: seq<string>, elmLoc: seq<nat>)

  datatype NodeAndReactiveInfo =
    | ElmAndVariableRelation(variable: ElmAndVariableContentRelation)
    | ElmAndReactiveAttributeRelation(attribute: ElmAndReactiveAttributeRelation)
    | TextAndVariableContentRelation(text: TextAndVariableContentRelation)

  /** A conditional block, detached from the static markup: the node it was
      removed from, how far the next element sibling is, the element whose
      reference marks the insertion point, the sub-tree itself, and the
      condition with the variables it reads. */
  datatype IfBlockInfo = IfBlockInfo(
    parentId: string, targetIfBlkId: string, distanceToNextElm: nat, targetAnchorId: Option<string>,
    elm: HtmlTree.Node, refTextNodeId: Option<string>, condition: string, conditionDepVars: seq<string>,
    ctx: seq<string>, ifBlockId: string, elementLocation: seq<nat>)

  /** A reactive text node among siblings, removed from the static markup
      and inserted by the generated code. */
  datatype ManualRendererForTextNode = ManualRendererForTextNode(
    parentId: string, textNodeId: string, distanceToNextElm: nat, depVars: seq<string>, content: string,
    ctx: seq<string>, elementLocation: seq<nat>, targetAnchorId: Option<string>)

  /** An edit of a node's children, queued by a child and applied when the
      walk is back at the node. */
  datatype HtmlManipulation =
    | RemoveChildForIfStatement(childUuid: string, condition: string, blockId: string, ctx: seq<string>, elmLoc: seq<nat>)
    | SetIdForReactiveContent(text: string, dependentVars: seq<string>, ctx: seq<string>, elmLoc: seq<nat>)
    | RemoveChildTextNode(dependentVars: seq<string>, ctx: seq<string>, elmLoc: seq<nat>, childUuid: string, content: string)

  datatype HtmlManipulator = HtmlManipulator(targetUuid: string, manipulation: HtmlManipulation)

  /** The location the queue is sorted by, whatever the edit. */
  function ManipLoc(m: HtmlManipulator): seq<nat> {
    m.manipulation.elmLoc
  }
}
