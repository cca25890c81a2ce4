/** The update function the generated component registers
    (`gen_update_func_statement` in `generate_js.rs`): one statement per
    if-block that shows or removes the block when its condition's
    variables changed, then one statement per reactive attribute, element
    content and text node that rewrites it when its variables changed. */
module GenerateJsUpdate {
  import opened Wrappers
  import opened Strings
  import opened Masks
  import opened Relations
  import TransformTargets
  import TransformInfo
  import GenerateJs

  type Assigned = TransformInfo.VariableNameAndAssignedNumber

  // ---------------------------------------------------------------------
  // Dependency masks

  /** The numbers assigned to the variables named in `deps`, in the order
      the variables were declared. */
  function DepNumbers(vars: seq<Assigned>, deps: seq<string>): seq<nat>
    decreases |vars|
  {
    if |vars| == 0 then []
    else
      var v := vars[|vars| - 1];
      DepNumbers(vars[..|vars| - 1], deps) + (if v.name in deps then [v.assignment] else [])
  }

  /** Exactly the numbers of the variables in `deps` are collected. */
  lemma {:induction false} DepNumbersMember(vars: seq<Assigned>, deps: seq<string>, x: nat)
    ensures x in DepNumbers(vars, deps) <==> exists j :: 0 <= j < |vars| && vars[j].name in deps && vars[j].assignment == x
    decreases |vars|
  {
    if |vars| > 0 {
      var init := vars[..|vars| - 1];
      DepNumbersMember(init, deps, x);
      if exists j :: 0 <= j < |vars| && vars[j].name in deps && vars[j].assignment == x {
        var j :| 0 <= j < |vars| && vars[j].name in deps && vars[j].assignment == x;
        if j < |init| {
          assert init[j] == vars[j];
        }
      }
      if exists j :: 0 <= j < |init| && init[j].name in deps && init[j].assignment == x {
        var j :| 0 <= j < |init| && init[j].name in deps && init[j].assignment == x;
        assert vars[j] == init[j];
      }
    }
  }

  /** The mask `refs[2]` is tested against: the OR of the numbers of the
      variables the content depends on. */
  function UpdateMask(vars: seq<Assigned>, deps: seq<string>): nat {
    GenerateJs.CombinedOr(DepNumbers(vars, deps))
  }

  /** Bit `i` of the mask is set exactly when some variable the content
      depends on has it in its number, so the guard fires when the tested
      mask holds the number of any of those variables. The generated code
      tests `refs[2]`; the runtime in `Runtime` ORs a changed variable's
      number into slot `[0]` of its own layout (see the README's note on the
      layout of the shared array). */
  lemma UpdateMaskBit(vars: seq<Assigned>, deps: seq<string>, i: nat)
    ensures BitSet(UpdateMask(vars, deps), i) <==>
      exists j :: 0 <= j < |vars| && vars[j].name in deps && BitSet(vars[j].assignment, i)
  {
    var ns := DepNumbers(vars, deps);
    GenerateJs.CombinedBit(ns, i);
    if exists k :: 0 <= k < |ns| && BitSet(ns[k], i) {
      var k :| 0 <= k < |ns| && BitSet(ns[k], i);
      DepNumbersMember(vars, deps, ns[k]);
    }
    if exists j :: 0 <= j < |vars| && vars[j].name in deps && BitSet(vars[j].assignment, i) {
      var j :| 0 <= j < |vars| && vars[j].name in deps && BitSet(vars[j].assignment, i);
      DepNumbersMember(vars, deps, vars[j].assignment);
      var k :| 0 <= k < |ns| && ns[k] == vars[j].assignment;
    }
  }

  // ---------------------------------------------------------------------
  // Context guards

  function ParentIds(blocks: seq<IfBlockInfo>): (r: seq<string>)
    ensures |r| == |blocks| && forall i :: 0 <= i < |blocks| ==> r[i] == blocks[i].parentId
    decreases |blocks|
  {
    if |blocks| == 0 then [] else ParentIds(blocks[..|blocks| - 1]) + [blocks[|blocks| - 1].parentId]
  }

  const CtxOverflow := "attempt to multiply with overflow"

  /** The context number of something inside the if-blocks `ctx`, or the
      overflow that aborts its computation. */
  function CtxNumber(ctx: seq<string>, blocks: seq<IfBlockInfo>): Result<nat> {
    if TransformTargets.CtxOverflows(ctx, ParentIds(blocks)) then Err(Panic(CtxOverflow))
    else Ok(TransformTargets.CtxNum(ctx, ParentIds(blocks)))
  }

  /** The guard `!((refs[3] & n) ^ n)` in front of a statement for
      something inside if-blocks. */
  function CtxGuard(n: nat): string {
    var s := NatToString(n);
    "(!((refs[3] & " + s + ") ^ " + s + ")) && "
  }

  /** Nothing outside the if-blocks; inside them, the guard on the context
      number. */
  function RenderingCond(ctx: seq<string>, blocks: seq<IfBlockInfo>): Result<string> {
    if |ctx| == 0 then Ok("")
    else match CtxNumber(ctx, blocks)
      case Err(e) => Err(e)
      case Ok(n) => Ok(CtxGuard(n))
  }

  /** The guard on the context number holds exactly when `refs[3]` has the
      bit of every block whose parent is in the context. */
  lemma CtxGuardMeaning(ctx: seq<string>, blocks: seq<IfBlockInfo>, refs3: nat)
    ensures var n := TransformTargets.CtxNum(ctx, ParentIds(blocks));
      Xor(And(refs3, n), n) == 0 <==>
        forall i :: 0 <= i < |blocks| && blocks[i].parentId in ctx ==> BitSet(refs3, i)
  {
    var ps := ParentIds(blocks);
    var n := TransformTargets.CtxNum(ctx, ps);
    GuardMeansCovers(refs3, n);
    if Covers(refs3, n) {
      forall i | 0 <= i < |blocks| && blocks[i].parentId in ctx ensures BitSet(refs3, i) {
        TransformTargets.CtxNumBit(ctx, ps, i);
      }
    }
    if forall i :: 0 <= i < |blocks| && blocks[i].parentId in ctx ==> BitSet(refs3, i) {
      forall i: nat | BitSet(n, i) ensures BitSet(refs3, i) {
        TransformTargets.CtxNumBit(ctx, ps, i);
      }
    }
  }

  // ---------------------------------------------------------------------
  // The statements

  /** The statement for block `index`: when the condition's variables
      changed, render the block if the condition holds, otherwise remove
      its element, drop the reference and flip `index + 1` in `refs[3]`. */
  function ToggleStatement(blocks: seq<IfBlockInfo>, index: nat, vars: seq<Assigned>): Result<string>
    requires index < |blocks|
  {
    var b := blocks[index];
    match RenderingCond(b.ctx, blocks)
    case Err(e) => Err(e)
    case Ok(cond) =>
      Ok(cond + "refs[2] & " + NatToString(UpdateMask(vars, b.conditionDepVars)) + " && ( " + b.condition
         + " ? render" + b.ifBlockId + "Elm() : (" + b.ifBlockId + "Ref.remove(), " + b.ifBlockId + "Ref = null, refs[3] ^= "
         + NatToString(index + 1) + ") );")
  }

  /** The statement for one reactive attribute of an element. */
  function AttrStatement(rel: ElmAndReactiveAttributeRelation, c: TransformTargets.ReactiveAttr, blocks: seq<IfBlockInfo>, vars: seq<Assigned>): Result<string> {
    match RenderingCond(rel.ctx, blocks)
    case Err(e) => Err(e)
    case Ok(cond) =>
      Ok(cond + "refs[2] & " + NatToString(UpdateMask(vars, c.variableNames)) + " && replaceAttr(\"" + c.attributeKey + "\", "
         + c.contentOfAttr + ", " + rel.elmId + "Ref);")
  }

  /** When the content is to be rewritten: its variables changed and, inside
      if-blocks, the blocks around it are not freshly rendered. */
  function ToUpdateCond(ctx: seq<string>, mask: nat, ctxNum: nat): string {
    if |ctx| != 0 then "(refs[2] & " + NatToString(mask) + " && ((refs[4] & " + NatToString(ctxNum) + ") ^ " + NatToString(ctxNum) + ") )"
    else "refs[2] & " + NatToString(mask)
  }

  /** The statement for an element's content or a text node: `call` is
      the runtime function and `target` the variable holding the node. */
  function ContentStatement(ctx: seq<string>, deps: seq<string>, content: string, call: string, target: string,
                            blocks: seq<IfBlockInfo>, vars: seq<Assigned>): Result<string> {
    match RenderingCond(ctx, blocks)
    case Err(e) => Err(e)
    case Ok(cond) =>
      var n := if |ctx| != 0 then CtxNumber(ctx, blocks).value else 0;
      Ok(cond + ToUpdateCond(ctx, UpdateMask(vars, deps), n) + " && " + call + "(`" + Trim(content) + "`, " + target + ");")
  }

  /** The statements of the first `k` reactive attributes of a relation. */
  function AttrStatements(rel: ElmAndReactiveAttributeRelation, k: nat, blocks: seq<IfBlockInfo>, vars: seq<Assigned>): Result<seq<string>>
    requires k <= |rel.reactiveAttr|
    decreases k
  {
    if k == 0 then Ok([])
    else match AttrStatements(rel, k - 1, blocks, vars)
      case Err(e) => Err(e)
      case Ok(prev) =>
        match AttrStatement(rel, rel.reactiveAttr[k - 1], blocks, vars)
        case Err(e) => Err(e)
        case Ok(s) => Ok(prev + [s])
  }

  /** The statements of one relation. */
  function RelationStatements(r: NodeAndReactiveInfo, blocks: seq<IfBlockInfo>, vars: seq<Assigned>): Result<seq<string>> {
    match r
    case ElmAndReactiveAttributeRelation(a) => AttrStatements(a, |a.reactiveAttr|, blocks, vars)
    case ElmAndVariableRelation(v) =>
      (match ContentStatement(v.ctx, v.depVars, v.contentOfElement, "replaceInnerText", v.elmId + "Ref", blocks, vars)
       case Err(e) => Err(e)
       case Ok(s) => Ok([s]))
    case TextAndVariableContentRelation(t) =>
      (match ContentStatement(t.ctx, t.depVars, t.contentOfElement, "replaceText", t.textNodeId + "Text", blocks, vars)
       case Err(e) => Err(e)
       case Ok(s) => Ok([s]))
  }

  function ToggleSteps(blocks: seq<IfBlockInfo>, vars: seq<Assigned>): (r: seq<Result<seq<string>>>)
    ensures |r| == |blocks|
    ensures forall i :: 0 <= i < |blocks| ==> r[i] == match ToggleStatement(blocks, i, vars) { case Err(e) => Err(e) case Ok(s) => Ok([s]) }
  {
    seq(|blocks|, i requires 0 <= i < |blocks| =>
      match ToggleStatement(blocks, i, vars) { case Err(e) => Err(e) case Ok(s) => Ok([s]) })
  }

  function RelationSteps(relations: seq<NodeAndReactiveInfo>, blocks: seq<IfBlockInfo>, vars: seq<Assigned>): (r: seq<Result<seq<string>>>)
    ensures |r| == |relations| && forall i :: 0 <= i < |relations| ==> r[i] == RelationStatements(relations[i], blocks, vars)
  {
    seq(|relations|, i requires 0 <= i < |relations| => RelationStatements(relations[i], blocks, vars))
  }

  /** Every statement of the update function, if-blocks first. */
  function UpdateStatements(relations: seq<NodeAndReactiveInfo>, vars: seq<Assigned>, blocks: seq<IfBlockInfo>): Result<seq<string>> {
    GenerateJs.Collect(ToggleSteps(blocks, vars) + RelationSteps(relations, blocks, vars))
  }

  /** The registration of the update function, its statements indented. */
  function UpdateFunc(statements: seq<string>): string {
    "refs[0] = genUpdateFunc(() => {\n" + Join(GenerateJs.IndentEach(statements), "\n") + "\n});"
  }

  // ---------------------------------------------------------------------
  // gen_update_func_statement

  /** The rendering condition, computed with the context-number loop. */
  method GenRenderingCond(ctx: seq<string>, blocks: seq<IfBlockInfo>) returns (r: Result<string>)
    ensures r == RenderingCond(ctx, blocks)
  {
    if |ctx| == 0 {
      return Ok("");
    }
    var n := TransformTargets.GenerateCtxNum(ctx, ParentIds(blocks));
    if n.Err? {
      return Err(n.error);
    }
    return Ok(CtxGuard(n.value));
  }

  /** `gen_update_func_statement`: the statements for the if-blocks, then
      for each relation in order, gathered into the update function. */
  method GenUpdateFuncStatement(relations: seq<NodeAndReactiveInfo>, vars: seq<Assigned>, blocks: seq<IfBlockInfo>)
    returns (r: Result<string>)
    ensures UpdateStatements(relations, vars, blocks).Err? ==> r == Err(UpdateStatements(relations, vars, blocks).error)
    ensures UpdateStatements(relations, vars, blocks).Ok? ==> r == Ok(UpdateFunc(UpdateStatements(relations, vars, blocks).value))
  {
    GenerateJs.CollectAppend(ToggleSteps(blocks, vars), RelationSteps(relations, blocks, vars));
    var toggles := GenToggleStatements(blocks, vars);
    if toggles.Err? {
      return Err(toggles.error);
    }
    var updates := GenRelationsStatements(relations, blocks, vars);
    if updates.Err? {
      return Err(updates.error);
    }
    var statements := toggles.value + updates.value;
    var code := GenerateJs.IndentEach(statements);
    return Ok("refs[0] = genUpdateFunc(() => {\n" + Join(code, "\n") + "\n});");
  }

  /** The statements for the if-blocks, in order. */
  method GenToggleStatements(blocks: seq<IfBlockInfo>, vars: seq<Assigned>) returns (r: Result<seq<string>>)
    ensures r == GenerateJs.Collect(ToggleSteps(blocks, vars))
  {
    ghost var steps := ToggleSteps(blocks, vars);
    var statements: seq<string> := [];
    for index := 0 to |blocks|
      invariant GenerateJs.Collect(steps[..index]) == Ok(statements)
    {
      assert steps[..index + 1][..index] == steps[..index];
      var s := GenToggleStatement(blocks, index, vars);
      if s.Err? {
        GenerateJs.CollectErr(steps, index + 1);
        return Err(s.error);
      }
      statements := statements + [s.value];
    }
    assert steps[..|blocks|] == steps;
    return Ok(statements);
  }

  /** The statements for the relations, in order. */
  method GenRelationsStatements(relations: seq<NodeAndReactiveInfo>, blocks: seq<IfBlockInfo>, vars: seq<Assigned>) returns (r: Result<seq<string>>)
    ensures r == GenerateJs.Collect(RelationSteps(relations, blocks, vars))
  {
    ghost var steps := RelationSteps(relations, blocks, vars);
    var statements: seq<string> := [];
    for i := 0 to |relations|
      invariant GenerateJs.Collect(steps[..i]) == Ok(statements)
    {
      assert steps[..i + 1][..i] == steps[..i];
      var more := GenRelationStatements(relations[i], blocks, vars);
      if more.Err? {
        GenerateJs.CollectErr(steps, i + 1);
        return Err(more.error);
      }
      statements := statements + more.value;
    }
    assert steps[..|relations|] == steps;
    return Ok(statements);
  }

  /** The statement for block `index`. */
  method GenToggleStatement(blocks: seq<IfBlockInfo>, index: nat, vars: seq<Assigned>) returns (r: Result<string>)
    requires index < |blocks|
    ensures r == ToggleStatement(blocks, index, vars)
  {
    var b := blocks[index];
    var cond := GenRenderingCond(b.ctx, blocks);
    if cond.Err? {
      return Err(cond.error);
    }
    var mask := GenerateJs.GetCombinedBinaryNumber(DepNumbers(vars, b.conditionDepVars));
    return Ok(cond.value + "refs[2] & " + NatToString(mask) + " && ( " + b.condition
              + " ? render" + b.ifBlockId + "Elm() : (" + b.ifBlockId + "Ref.remove(), " + b.ifBlockId + "Ref = null, refs[3] ^= "
              + NatToString(index + 1) + ") );");
  }

  /** The statements of one relation, attribute by attribute. */
  method GenRelationStatements(rel: NodeAndReactiveInfo, blocks: seq<IfBlockInfo>, vars: seq<Assigned>)
    returns (r: Result<seq<string>>)
    ensures r == RelationStatements(rel, blocks, vars)
  {
    match rel {
      case ElmAndReactiveAttributeRelation(a) =>
        var out: seq<string> := [];
        for k := 0 to |a.reactiveAttr|
          invariant AttrStatements(a, k, blocks, vars) == Ok(out)
        {
          var c := a.reactiveAttr[k];
          var mask := GenerateJs.GetCombinedBinaryNumber(DepNumbers(vars, c.variableNames));
          var cond := GenRenderingCond(a.ctx, blocks);
          if cond.Err? {
            AttrStatementsErr(a, k + 1, |a.reactiveAttr|, blocks, vars);
            return Err(cond.error);
          }
          out := out + [cond.value + "refs[2] & " + NatToString(mask) + " && replaceAttr(\"" + c.attributeKey + "\", "
                        + c.contentOfAttr + ", " + a.elmId + "Ref);"];
        }
        return Ok(out);
      case ElmAndVariableRelation(v) =>
        var s := GenContentStatement(v.ctx, v.depVars, v.contentOfElement, "replaceInnerText", v.elmId + "Ref", blocks, vars);
        if s.Err? {
          return Err(s.error);
        }
        return Ok([s.value]);
      case TextAndVariableContentRelation(t) =>
        var s := GenContentStatement(t.ctx, t.depVars, t.contentOfElement, "replaceText", t.textNodeId + "Text", blocks, vars);
        if s.Err? {
          return Err(s.error);
        }
        return Ok([s.value]);
    }
  }

  /** The statement for an element's content or a text node. */
  method GenContentStatement(ctx: seq<string>, deps: seq<string>, content: string, call: string, target: string,
                             blocks: seq<IfBlockInfo>, vars: seq<Assigned>) returns (r: Result<string>)
    ensures r == ContentStatement(ctx, deps, content, call, target, blocks, vars)
  {
    var numbers := DepNumbers(vars, deps);
    var cond := GenRenderingCond(ctx, blocks);
    if cond.Err? {
      return Err(cond.error);
    }
    var mask := GenerateJs.GetCombinedBinaryNumber(numbers);
    var toUpdate: string;
    if |ctx| != 0 {
      var n := TransformTargets.GenerateCtxNum(ctx, ParentIds(blocks));
      toUpdate := "(refs[2] & " + NatToString(mask) + " && ((refs[4] & " + NatToString(n.value) + ") ^ " + NatToString(n.value) + ") )";
    } else {
      toUpdate := "refs[2] & " + NatToString(mask);
    }
    return Ok(cond.value + toUpdate + " && " + call + "(`" + Trim(content) + "`, " + target + ");");
  }

  lemma {:induction false} AttrStatementsErr(a: ElmAndReactiveAttributeRelation, k: nat, n: nat, blocks: seq<IfBlockInfo>, vars: seq<Assigned>)
    requires k <= n <= |a.reactiveAttr| && AttrStatements(a, k, blocks, vars).Err?
    ensures AttrStatements(a, n, blocks, vars) == AttrStatements(a, k, blocks, vars)
    decreases n
  {
    if n > k {
      AttrStatementsErr(a, k, n - 1, blocks, vars);
    }
  }

  // ---------------------------------------------------------------------
  // Properties of the update function

  lemma {:induction false} CollectOk(steps: seq<Result<seq<string>>>)
    ensures GenerateJs.Collect(steps).Ok? <==> forall i :: 0 <= i < |steps| ==> steps[i].Ok?
    decreases |steps|
  {
    if |steps| > 0 {
      var init := steps[..|steps| - 1];
      CollectOk(init);
      assert forall i :: 0 <= i < |init| ==> init[i] == steps[i];
    }
  }

  lemma {:induction false} CollectSingletons(steps: seq<Result<seq<string>>>)
    requires forall i :: 0 <= i < |steps| ==> steps[i].Ok? && |steps[i].value| == 1
    ensures var c := GenerateJs.Collect(steps);
      c.Ok? && |c.value| == |steps| && forall i :: 0 <= i < |steps| ==> c.value[i] == steps[i].value[0]
    decreases |steps|
  {
    if |steps| > 0 {
      var init := steps[..|steps| - 1];
      CollectSingletons(init);
    }
  }

  /** The update function starts with the statements for the if-blocks,
      one per block and in the blocks' order; the relations' statements
      come after them. */
  lemma TogglesFirst(relations: seq<NodeAndReactiveInfo>, vars: seq<Assigned>, blocks: seq<IfBlockInfo>)
    requires UpdateStatements(relations, vars, blocks).Ok?
    ensures var s := UpdateStatements(relations, vars, blocks).value;
      |s| >= |blocks|
      && forall i :: 0 <= i < |blocks| ==> ToggleStatement(blocks, i, vars).Ok? && s[i] == ToggleStatement(blocks, i, vars).value
  {
    var ts := ToggleSteps(blocks, vars);
    GenerateJs.CollectAppend(ts, RelationSteps(relations, blocks, vars));
    CollectOk(ts);
    assert forall i :: 0 <= i < |ts| ==> ts[i].Ok? && |ts[i].value| == 1;
    CollectSingletons(ts);
  }

  /** The statement for block `i` aborts exactly when the block is nested
      and its context number overflows. */
  predicate ToggleOverflows(blocks: seq<IfBlockInfo>, i: nat)
    requires i < |blocks|
  {
    |blocks[i].ctx| != 0 && TransformTargets.CtxOverflows(blocks[i].ctx, ParentIds(blocks))
  }

  function RelationCtx(r: NodeAndReactiveInfo): seq<string> {
    match r
    case ElmAndVariableRelation(v) => v.ctx
    case ElmAndReactiveAttributeRelation(a) => a.ctx
    case TextAndVariableContentRelation(t) => t.ctx
  }

  /** A relation's statements abort exactly when it is inside if-blocks,
      its context number overflows, and it has a statement at all (an
      attribute relation without reactive attributes has none). */
  predicate RelationOverflows(r: NodeAndReactiveInfo, blocks: seq<IfBlockInfo>) {
    |RelationCtx(r)| != 0 && TransformTargets.CtxOverflows(RelationCtx(r), ParentIds(blocks))
    && (r.ElmAndReactiveAttributeRelation? ==> |r.attribute.reactiveAttr| > 0)
  }

  lemma {:induction false} AttrStatementsFail(a: ElmAndReactiveAttributeRelation, k: nat, blocks: seq<IfBlockInfo>, vars: seq<Assigned>)
    requires k <= |a.reactiveAttr|
    ensures AttrStatements(a, k, blocks, vars).Err? <==> k > 0 && |a.ctx| != 0 && TransformTargets.CtxOverflows(a.ctx, ParentIds(blocks))
    decreases k
  {
    if k > 0 {
      AttrStatementsFail(a, k - 1, blocks, vars);
    }
  }

  lemma RelationStatementsFail(r: NodeAndReactiveInfo, blocks: seq<IfBlockInfo>, vars: seq<Assigned>)
    ensures RelationStatements(r, blocks, vars).Err? <==> RelationOverflows(r, blocks)
  {
    if r.ElmAndReactiveAttributeRelation? {
      AttrStatementsFail(r.attribute, |r.attribute.reactiveAttr|, blocks, vars);
    }
  }

  /** The update function cannot be built exactly when the statement of a
      nested block, or of a relation inside if-blocks, needs a context
      number that overflows a `u64`. */
  lemma UpdateFailsIff(relations: seq<NodeAndReactiveInfo>, vars: seq<Assigned>, blocks: seq<IfBlockInfo>)
    ensures UpdateStatements(relations, vars, blocks).Err? <==>
      (exists i :: 0 <= i < |blocks| && ToggleOverflows(blocks, i))
      || (exists i :: 0 <= i < |relations| && RelationOverflows(relations[i], blocks))
  {
    var ts := ToggleSteps(blocks, vars);
    var rs := RelationSteps(relations, blocks, vars);
    GenerateJs.CollectAppend(ts, rs);
    CollectOk(ts);
    CollectOk(rs);
    assert forall i :: 0 <= i < |blocks| ==> (ts[i].Err? <==> ToggleOverflows(blocks, i));
    forall i | 0 <= i < |relations| ensures rs[i].Err? <==> RelationOverflows(relations[i], blocks) {
      RelationStatementsFail(relations[i], blocks, vars);
    }
  }

  lemma {:induction false} Pow2AboveSucc(k: nat)
    requires k >= 2
    ensures Pow2(k) > k + 1
    decreases k
  {
    if k > 2 {
      Pow2AboveSucc(k - 1);
    }
  }

  /** A block's render function sets bit `index` of `refs[3]` (it ORs in
      `2^index`), but the statement that removes the block flips it with
      `refs[3] ^= index + 1`: the two agree only for the first two blocks. */
  lemma ToggleFlipsRenderBitOnlyForFirstTwo(index: nat)
    ensures index + 1 == Pow2(index) <==> index <= 1
  {
    if index >= 2 {
      Pow2AboveSucc(index);
    }
  }

  /** For the third block, removing it after it was rendered leaves its
      own bit set and sets the bits of the first two blocks. */
  lemma ToggleThirdBlockExample()
    ensures Xor(Pow2(2), 2 + 1) == 7
  {
    assert Pow2(2) == 4;
    assert Xor(0, 0) == 0;
    assert Xor(1, 0) == 1;
    assert Xor(2, 1) == 3;
  }

  /** The statement that removes block `index` flips `index + 1` in
      `refs[3]`: it ends with that flip. */
  lemma ToggleFlipAmount(blocks: seq<IfBlockInfo>, index: nat, vars: seq<Assigned>)
    requires index < |blocks| && ToggleStatement(blocks, index, vars).Ok?
    ensures EndsWith(ToggleStatement(blocks, index, vars).value, "refs[3] ^= " + NatToString(index + 1) + ") );")
  {
    var b := blocks[index];
    var t := ToggleStatement(blocks, index, vars).value;
    var suffix := "refs[3] ^= " + NatToString(index + 1) + ") );";
    var cond := RenderingCond(b.ctx, blocks).value;
    var q := cond + "refs[2] & " + NatToString(UpdateMask(vars, b.conditionDepVars)) + " && ( " + b.condition
             + " ? render" + b.ifBlockId + "Elm() : (" + b.ifBlockId + "Ref.remove(), " + b.ifBlockId;
    assert "Ref = null, refs[3] ^= " == "Ref = null, " + "refs[3] ^= ";
    assert t == (q + "Ref = null, ") + suffix;
    assert t[|t| - |suffix|..] == suffix;
  }

  /** The render function of block `index` ORs `2^index` into `refs[3]`
      (and into `refs[4]`). */
  lemma RenderSetAmount(blocks: seq<IfBlockInfo>, index: nat, needed: seq<NeededId>,
                        genElm: GenerateJs.GenElm, findChildren: GenerateJs.FindChildren)
    requires index < |blocks| && GenerateJs.RenderFunction(blocks, index, needed, genElm, findChildren).Ok?
    ensures exists k :: OccursAt(GenerateJs.RenderFunction(blocks, index, needed, genElm, findChildren).value,
                                 GenerateJs.IndentText("refs[3] |= " + NatToString(Pow2(index)) + ", refs[4] |= " + NatToString(Pow2(index)) + ";"), k)
  {
    var b := blocks[index];
    var r := GenerateJs.RenderFunction(blocks, index, needed, genElm, findChildren).value;
    assert b.elm.content.Element? && GenerateJs.BlockRefGetter(needed, b).Ok? && index < 64;
    var nc := genElm(b.elm.content.element, b.ifBlockId);
    var n := NatToString(Pow2(index));
    var a := "const render" + b.ifBlockId + "Elm = () => {\n" + Join(GenerateJs.IndentEach(nc.1), "\n") + "\n"
             + GenerateJs.IndentText(GenerateJs.InsertElm(b, nc.0)) + "\n";
    var x := GenerateJs.IndentText("refs[3] |= " + n + ", refs[4] |= " + n + ";");
    var g := GenerateJs.IndentText(GenerateJs.BlockRefGetter(needed, b).value);
    var ch := GenerateJs.IndentText(GenerateJs.ChildRendering(findChildren(b, blocks)));
    assert r == a + x + g + ch + "\n}";
    assert (a + x + g + ch + "\n}")[..|a| + |x|] == a + x;
    assert (a + x)[|a|..] == x;
    assert OccursAt(r, x, |a|);
  }

  /** What the two statements do to `refs[3]`: the statement that removes
      block `index` flips `index + 1` there, while the block's render
      function ORs `2^index` into it. The two amounts agree only for the
      first two blocks; for the third, removing after rendering leaves
      `4 ^ 3 == 7`, its own bit and the bits of the first two. */
  lemma ToggleAndRenderAmounts(blocks: seq<IfBlockInfo>, index: nat, vars: seq<Assigned>, needed: seq<NeededId>,
                               genElm: GenerateJs.GenElm, findChildren: GenerateJs.FindChildren)
    requires index < |blocks|
    ensures ToggleStatement(blocks, index, vars).Ok? ==>
              EndsWith(ToggleStatement(blocks, index, vars).value, "refs[3] ^= " + NatToString(index + 1) + ") );")
    ensures GenerateJs.RenderFunction(blocks, index, needed, genElm, findChildren).Ok? ==>
              exists k :: OccursAt(GenerateJs.RenderFunction(blocks, index, needed, genElm, findChildren).value,
                                   GenerateJs.IndentText("refs[3] |= " + NatToString(Pow2(index)) + ", refs[4] |= " + NatToString(Pow2(index)) + ";"), k)
    ensures index + 1 == Pow2(index) <==> index <= 1
    ensures index == 2 ==> Xor(Pow2(index), index + 1) == 7
  {
    if ToggleStatement(blocks, index, vars).Ok? {
      ToggleFlipAmount(blocks, index, vars);
    }
    if GenerateJs.RenderFunction(blocks, index, needed, genElm, findChildren).Ok? {
      RenderSetAmount(blocks, index, needed, genElm, findChildren);
    }
    ToggleFlipsRenderBitOnlyForFirstTwo(index);
    if index == 2 {
      ToggleThirdBlockExample();
    }
  }
}
