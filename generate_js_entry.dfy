/** `generate_js_from_blocks` (`generate_js.rs`): walks the markup, then
    puts the component together — the script, the static markup, the
    reference getter, the declarations of the if-blocks' references, the
    anchors, the listeners, the render functions and the update
    function — and wraps it in the module text. */
module GenerateJsEntry {
  import opened Wrappers
  import opened Strings
  import opened Relations
  import HtmlTree
  import TransformInfo
  import Sorting
  import Markup
  import GenerateJs
  import GenerateJsUpdate

  /** What the generator receives: the markup (or the error building it
      failed with), the style block, the two options, and the result of
      analysing the script — its numbered variables, their names and the
      rewritten script. */
  datatype Input = Input(
    dom: Result<HtmlTree.Node>, css: Option<string>, noExport: Option<bool>, runtimePath: Option<string>,
    variables: seq<TransformInfo.VariableNameAndAssignedNumber>, variableNames: seq<string>, jsOutput: string)

  /** The parts of the generator outside this model: the rewriting of
      `${...}` in markup text and the id generator (for the walk), printing
      a node, ordering the if-blocks, grouping the text renderers in
      rendering order, building an element's code and finding a block's
      nested blocks. */
  datatype Oracles = Oracles(
    inHtml: Markup.InHtml, freshId: nat -> string, toHtml: HtmlTree.Node -> string,
    sortIfBlocks: seq<IfBlockInfo> -> seq<IfBlockInfo>,
    group: (seq<IfBlockInfo>, seq<ManualRendererForTextNode>) -> seq<GenerateJs.TextNodeRenderer>,
    genElm: GenerateJs.GenElm, findChildren: GenerateJs.FindChildren)

  /** The location relations are ordered by, whatever their kind. */
  function RelationLoc(r: NodeAndReactiveInfo): seq<nat> {
    match r
    case ElmAndVariableRelation(v) => v.elmLoc
    case ElmAndReactiveAttributeRelation(a) => a.elmLoc
    case TextAndVariableContentRelation(t) => t.elmLoc
  }

  function EmptyState(): Markup.State {
    Markup.State([], [], [], [], [], [], 0)
  }

  function EnvOf(input: Input, oracles: Oracles): Markup.Env {
    Markup.Env(input.variableNames, oracles.inHtml, oracles.freshId)
  }

  /** The walk of the whole markup: no parent, no if-block around it,
      location `[0]`, a single node. */
  function Analysis(input: Input, oracles: Oracles): Result<(Markup.State, HtmlTree.Node)>
    requires input.dom.Ok? ==> Markup.TextsClosed(input.dom.value)
  {
    match input.dom
    case Err(e) => Err(e)
    case Ok(root) => Markup.Check(EmptyState(), root, None, [], [0], 1, EnvOf(input, oracles))
  }

  // ---------------------------------------------------------------------
  // The references the render functions assign

  /** The nodes whose ids are recorded with context `ctx`. */
  function IdsIn(needed: seq<NeededId>, ctx: seq<string>): set<string>
    decreases |needed|
  {
    if |needed| == 0 then {}
    else
      var n := needed[|needed| - 1];
      IdsIn(needed[..|needed| - 1], ctx) + (if n.ctx == ctx then {n.nodeId} else {})
  }

  /** The names declared with `let` for the first `k` blocks: each block's
      id and the nodes directly inside it. */
  function ToDeclare(blocks: seq<IfBlockInfo>, needed: seq<NeededId>, k: nat): set<string>
    requires k <= |blocks|
    decreases k
  {
    if k == 0 then {}
    else ToDeclare(blocks, needed, k - 1) + {blocks[k - 1].ifBlockId} + IdsIn(needed, GenerateJs.BlockCtx(blocks[k - 1]))
  }

  /** The nodes directly inside a block, collected id by id. */
  method CollectIdsIn(needed: seq<NeededId>, ctx: seq<string>) returns (ids: set<string>)
    ensures ids == IdsIn(needed, ctx)
  {
    ids := {};
    for j := 0 to |needed|
      invariant ids == IdsIn(needed[..j], ctx)
    {
      assert needed[..j + 1][..j] == needed[..j];
      if needed[j].ctx == ctx {
        ids := ids + {needed[j].nodeId};
      }
    }
    assert needed[..|needed|] == needed;
  }

  /** The set of names the component declares with `let`. */
  method VariablesToDeclare(blocks: seq<IfBlockInfo>, needed: seq<NeededId>) returns (vars: set<string>)
    ensures vars == ToDeclare(blocks, needed, |blocks|)
  {
    vars := {};
    for i := 0 to |blocks|
      invariant vars == ToDeclare(blocks, needed, i)
    {
      var b := blocks[i];
      var inner := CollectIdsIn(needed, b.ctx + [b.ifBlockId]);
      vars := vars + {b.ifBlockId} + inner;
    }
  }

  lemma {:induction false} IdsInMember(needed: seq<NeededId>, ctx: seq<string>, n: NeededId)
    requires n in needed && n.ctx == ctx
    ensures n.nodeId in IdsIn(needed, ctx)
    decreases |needed|
  {
    if n != needed[|needed| - 1] {
      assert n in needed[..|needed| - 1];
      IdsInMember(needed[..|needed| - 1], ctx, n);
    }
  }

  lemma {:induction false} InBlockMember(needed: seq<NeededId>, b: IfBlockInfo, n: NeededId)
    requires n in GenerateJs.InBlock(needed, b)
    ensures n in needed && n.ctx == GenerateJs.BlockCtx(b)
    decreases |needed|
  {
    var init := needed[..|needed| - 1];
    if n in GenerateJs.InBlock(init, b) {
      InBlockMember(init, b, n);
    }
  }

  lemma {:induction false} ToDeclareGrows(blocks: seq<IfBlockInfo>, needed: seq<NeededId>, i: nat, k: nat)
    requires i < k <= |blocks|
    ensures {blocks[i].ifBlockId} + IdsIn(needed, GenerateJs.BlockCtx(blocks[i])) <= ToDeclare(blocks, needed, k)
    decreases k
  {
    if i < k - 1 {
      ToDeclareGrows(blocks, needed, i, k - 1);
    }
  }

  /** Every reference the generated code assigns after start-up is
      declared with `let`: the block's own reference (set to `null` when it
      is removed) and each reference the block's render function binds. */
  lemma DeclaredCoversAssigned(blocks: seq<IfBlockInfo>, needed: seq<NeededId>, i: nat, n: NeededId)
    requires i < |blocks| && n in GenerateJs.InBlock(needed, blocks[i])
    ensures blocks[i].ifBlockId in ToDeclare(blocks, needed, |blocks|)
    ensures n.nodeId in ToDeclare(blocks, needed, |blocks|)
  {
    InBlockMember(needed, blocks[i], n);
    IdsInMember(needed, GenerateJs.BlockCtx(blocks[i]), n);
    ToDeclareGrows(blocks, needed, i, |blocks|);
  }

  /** With at least one block there is something to declare, so the
      declaration is there exactly when there are if-blocks. */
  lemma DeclarationIffBlocks(blocks: seq<IfBlockInfo>, needed: seq<NeededId>)
    ensures |blocks| > 0 <==> |ToDeclare(blocks, needed, |blocks|)| != 0
  {
    if |blocks| > 0 {
      ToDeclareGrows(blocks, needed, 0, |blocks|);
      assert blocks[0].ifBlockId in ToDeclare(blocks, needed, |blocks|);
    }
  }

  /** A `HashSet`'s elements in the order it happens to iterate them. */
  method Enumerate(s: set<string>) returns (r: seq<string>)
    ensures |r| == |s| && NoDuplicates(r) && forall x :: x in r <==> x in s
  {
    r := [];
    var rest := s;
    while rest != {}
      invariant rest <= s && |r| + |rest| == |s| && NoDuplicates(r)
      invariant forall x :: x in r <==> x in s && x !in rest
      decreases |rest|
    {
      var x :| x in rest;
      r := r + [x];
      rest := rest - {x};
    }
  }

  function RefList(names: seq<string>): (r: seq<string>)
    ensures |r| == |names| && forall i :: 0 <= i < |names| ==> r[i] == names[i] + "Ref"
    decreases |names|
  {
    if |names| == 0 then [] else RefList(names[..|names| - 1]) + [names[|names| - 1] + "Ref"]
  }

  function Declaration(names: seq<string>): string {
    "let " + Join(RefList(names), ", ") + ";"
  }

  // ---------------------------------------------------------------------
  // The whole component

  /** The component's statements in the order they are emitted. */
  function Codes(js: string, html: string, getter: string, decl: seq<string>, anchors: seq<string>, listeners: seq<string>,
                 renderIf: seq<string>, update: string): seq<string> {
    [js, html, getter] + decl + anchors + listeners + renderIf + ["refs[4] = 0", update]
  }

  /** The listener statements for the actions, in order. */
  function Listeners(actions: seq<TransformInfo.ActionAndTarget>): (r: seq<string>)
    ensures |r| == |actions| && forall i :: 0 <= i < |actions| ==> r[i] == GenerateJs.Listener(actions[i])
  {
    seq(|actions|, i requires 0 <= i < |actions| => GenerateJs.Listener(actions[i]))
  }

  /** The component built from the walk's records `st` and rewritten
      markup `node`, with the `let` names listed in the order `names`. */
  function Assemble(st: Markup.State, node: HtmlTree.Node, input: Input, oracles: Oracles, names: seq<string>): Result<(string, Option<string>)> {
    var (noExport, runtimePath) := GenerateJs.Defaults(input.noExport, input.runtimePath);
    var blocks := oracles.sortIfBlocks(st.ifBlocks);
    var relations := Sorting.SortByKey(st.relations, RelationLoc);
    var renderers := oracles.group(blocks, st.textRenderers);
    match GenerateJs.RefGetter(st.neededIds)
    case Err(e) => Err(e)
    case Ok(getter) =>
      match GenerateJs.RenderIf(blocks, st.neededIds, oracles.genElm, oracles.findChildren)
      case Err(e) => Err(e)
      case Ok(renderIf) =>
        match GenerateJsUpdate.UpdateStatements(relations, input.variables, blocks)
        case Err(e) => Err(e)
        case Ok(statements) =>
          var decl := if |blocks| > 0 then [Declaration(names)] else [];
          var codes := Codes(input.jsOutput, "elm.innerHTML = `" + oracles.toHtml(node) + "`;", getter, decl,
                             GenerateJs.AnchorStatements(renderers, [], |renderers|), Listeners(st.actions),
                             renderIf, GenerateJsUpdate.UpdateFunc(statements));
          Ok((GenerateJs.FullCode(codes, noExport, runtimePath), input.css))
  }

  /** The generator's result, with the `let` names listed in the order
      `names`. */
  function Generated(input: Input, oracles: Oracles, names: seq<string>): Result<(string, Option<string>)>
    requires input.dom.Ok? ==> Markup.TextsClosed(input.dom.value)
  {
    match Analysis(input, oracles)
    case Err(e) => Err(e)
    case Ok(a) => Assemble(a.0, a.1, input, oracles, names)
  }

  /** The names the component declares with `let`, for the walk's records. */
  function DeclaredIn(st: Markup.State, oracles: Oracles): set<string> {
    var blocks := oracles.sortIfBlocks(st.ifBlocks);
    ToDeclare(blocks, st.neededIds, |blocks|)
  }

  /** The names the component declares with `let`, when the walk succeeds. */
  function DeclaredNames(input: Input, oracles: Oracles): set<string>
    requires input.dom.Ok? ==> Markup.TextsClosed(input.dom.value)
  {
    match Analysis(input, oracles)
    case Err(_) => {}
    case Ok(a) => DeclaredIn(a.0, oracles)
  }

  /** `generate_js_from_blocks`. The `let` names come out in the order of
      a hash set: `names` is that order, each name exactly once. */
  method GenerateJsFromBlocks(input: Input, oracles: Oracles) returns (r: Result<(string, Option<string>)>, ghost names: seq<string>)
    requires input.dom.Ok? ==> Markup.TextsClosed(input.dom.value)
    ensures r == Generated(input, oracles, names)
    ensures NoDuplicates(names) && forall x :: x in names <==> x in DeclaredNames(input, oracles)
  {
    if input.dom.Err? {
      return Err(input.dom.error), [];
    }
    var t := new Markup.Transformer(EnvOf(input, oracles));
    var checked := t.CheckHtmlElms(input.dom.value, None, [], [0], 1);
    if checked.Err? {
      return Err(checked.error), [];
    }
    r, names := GenerateCode(t.Snapshot(), checked.value, input, oracles);
  }

  /** Everything after the walk. */
  method GenerateCode(st: Markup.State, node: HtmlTree.Node, input: Input, oracles: Oracles) returns (r: Result<(string, Option<string>)>, ghost names: seq<string>)
    ensures r == Assemble(st, node, input, oracles, names)
    ensures NoDuplicates(names) && forall x :: x in names <==> x in DeclaredIn(st, oracles)
  {
    var (noExport, runtimePath) := GenerateJs.Defaults(input.noExport, input.runtimePath);
    var blocks := oracles.sortIfBlocks(st.ifBlocks);
    var relations := Sorting.SortByKey(st.relations, RelationLoc);
    var html := "elm.innerHTML = `" + oracles.toHtml(node) + "`;";
    var renderers := oracles.group(blocks, st.textRenderers);
    var anchors := GenerateJs.GenCreateAnchorStatements(renderers, []);
    var toDeclare := VariablesToDeclare(blocks, st.neededIds);
    var listed := Enumerate(toDeclare);
    names := listed;
    var getter := GenerateJs.RefGetter(st.neededIds);
    if getter.Err? {
      return Err(getter.error), names;
    }
    var listeners := GenerateJs.CreateEventListener(st.actions);
    assert listeners == Listeners(st.actions);
    var decl: seq<string> := [];
    if |blocks| > 0 {
      DeclarationIffBlocks(blocks, st.neededIds);
      if |toDeclare| != 0 {
        decl := [Declaration(listed)];
      }
    }
    var renderIf := GenerateJs.GenRenderIfStatements(blocks, st.neededIds, oracles.genElm, oracles.findChildren);
    if renderIf.Err? {
      return Err(renderIf.error), names;
    }
    var update := GenerateJsUpdate.GenUpdateFuncStatement(relations, input.variables, blocks);
    if update.Err? {
      return Err(update.error), names;
    }
    var codes := Codes(input.jsOutput, html, getter.value, decl, anchors, listeners, renderIf.value, update.value);
    r := Ok((GenerateJs.FullCode(codes, noExport, runtimePath), input.css));
  }
}
