/** The markup half of the transformer (`transformers/html_utils.rs`): a
    walk over the markup tree that classifies the `@`, `:if`, `::` and `:`
    attributes, gives the elements the generated code needs an id, rewrites
    the `${...}` bindings of text, and queues edits of a node's children
    that are applied once the walk is back at that node.

    The walk is specified by functions over a `State` (the lists it pushes
    into and the number of fresh ids drawn so far); the class `Transformer`
    does the same work step by step on its fields and is proved to agree. */
module Markup {
  import opened Wrappers
  import opened Strings
  import opened HtmlTree
  import opened Relations
  import opened TransformInfo
  import TransformTargets
  import Sorting
  import UtilsText

  /** `append_v_to_vars_in_html` with the script's variables, which is not
      part of this model: the rewritten expression and the variables it
      reads. */
  type InHtml = string -> (string, seq<string>)

  /** What the walk is given: the script's variables, the rewriting of
      expressions in markup, and the id generators as one oracle that
      returns its `n`-th fresh id. */
  datatype Env = Env(variables: seq<string>, inHtml: InHtml, freshId: nat -> string)

  /** The lists the walk pushes into, and the number of ids drawn. */
  datatype State = State(
    neededIds: seq<NeededId>,
    relations: seq<NodeAndReactiveInfo>,
    actions: seq<ActionAndTarget>,
    manipulators: seq<HtmlManipulator>,
    ifBlocks: seq<IfBlockInfo>,
    textRenderers: seq<ManualRendererForTextNode>,
    issued: nat)

  /** The message of `Option::unwrap` on `None`. */
  const UnwrapNone := "called `Option::unwrap()` on a `None` value"

  /** The valueless attribute a conditional element keeps in place of `:if`. */
  const ConditionalKey := "$$$conditional$$$"

  // ---------------------------------------------------------------------
  // escape_html and replace_text_with_reactive_value

  /** The rewriter the markup's text scan applies to each binding: the
      expression as `append_v_to_vars_in_html` rewrites it, and its
      variables added to the list (duplicates included). */
  function HtmlRewriter(inHtml: InHtml): UtilsText.Rewriter {
    (inner, deps) => (inHtml(inner).0, deps + inHtml(inner).1)
  }

  /** `replace_text_with_reactive_value` of `html_utils.rs`: the rewritten
      text, the variables of all bindings in order, and the number of
      bindings. On a text that is not `Closed` the source repeats the same
      pass, counting each one, until its `u32` counter overflows; the
      method requires `Closed`. Each binding takes at least three
      characters, so the count fits a `u32` for any text shorter than
      3 * 2^32 characters. */
  method ReplaceTextWithReactiveValue(code: string, inHtml: InHtml) returns (newCode: string, deps: seq<string>, count: nat)
    requires UtilsText.Closed(code, 0)
    ensures (newCode, deps) == UtilsText.Scan(code, 0, HtmlRewriter(inHtml), "", [])
    ensures count == |UtilsText.Split(code, 0).0|
    ensures 3 * count <= |code|
  {
    count := 0;
    newCode := "";
    deps := [];
    var lastEnd := 0;
    while true
      invariant ScanSoFar(code, inHtml, lastEnd, newCode, deps, count)
      decreases |code| - lastEnd
    {
      var start := FindFrom(code, UtilsText.OpenTag, lastEnd);
      if start.None? {
        ScanSoFarEnd(code, inHtml, lastEnd, newCode, deps, count);
        break;
      }
      count := count + 1;
      var s := start.value;
      ScanSoFarClose(code, inHtml, lastEnd, newCode, deps, count - 1, s);
      var e := FindFrom(code, UtilsText.CloseTag, s).value;
      var rewritten := inHtml(code[s + 2..e]);
      var newCode' := newCode + UtilsText.Wrapped(code[lastEnd..s], rewritten.0);
      var deps' := deps + rewritten.1;
      ScanSoFarStep(code, inHtml, lastEnd, newCode, deps, count - 1, s, e, newCode', deps');
      newCode, deps, lastEnd := newCode', deps', e + 1;
    }
    newCode := newCode + code[lastEnd..];
    UtilsText.SplitCountBound(code, 0);
  }

  /** The loop of `ReplaceTextWithReactiveValue` after `count` bindings,
      with the scan at `lastEnd`: what is left to do finishes the scan. */
  ghost predicate ScanSoFar(code: string, inHtml: InHtml, lastEnd: nat, newCode: string, deps: seq<string>, count: nat) {
    lastEnd <= |code| && UtilsText.Closed(code, 0) && UtilsText.Closed(code, lastEnd)
    && UtilsText.Scan(code, lastEnd, HtmlRewriter(inHtml), newCode, deps) == UtilsText.Scan(code, 0, HtmlRewriter(inHtml), "", [])
    && count + |UtilsText.Split(code, lastEnd).0| == |UtilsText.Split(code, 0).0|
  }

  /** Where the next binding closes. */
  lemma ScanSoFarClose(code: string, inHtml: InHtml, lastEnd: nat, newCode: string, deps: seq<string>, count: nat, s: nat)
    requires ScanSoFar(code, inHtml, lastEnd, newCode, deps, count)
    requires FindFrom(code, UtilsText.OpenTag, lastEnd) == Some(s)
    ensures var e := FindFrom(code, UtilsText.CloseTag, s); e.Some? && lastEnd <= s && s + 2 <= e.value < |code|
  {
    var e := UtilsText.SplitStep(code, lastEnd, s);
  }

  lemma ScanSoFarEnd(code: string, inHtml: InHtml, lastEnd: nat, newCode: string, deps: seq<string>, count: nat)
    requires ScanSoFar(code, inHtml, lastEnd, newCode, deps, count)
    requires FindFrom(code, UtilsText.OpenTag, lastEnd).None?
    ensures (newCode + code[lastEnd..], deps) == UtilsText.Scan(code, 0, HtmlRewriter(inHtml), "", [])
    ensures count == |UtilsText.Split(code, 0).0|
  {
    UtilsText.SplitEnd(code, lastEnd);
  }

  /** One binding: the text grows by the wrapped expression, the list by
      its variables, and one binding fewer is left. */
  lemma ScanSoFarStep(code: string, inHtml: InHtml, lastEnd: nat, newCode: string, deps: seq<string>, count: nat,
                      s: nat, e: nat, newCode': string, deps': seq<string>)
    requires ScanSoFar(code, inHtml, lastEnd, newCode, deps, count)
    requires FindFrom(code, UtilsText.OpenTag, lastEnd) == Some(s) && FindFrom(code, UtilsText.CloseTag, s) == Some(e)
    requires lastEnd <= s && s + 2 <= e
    requires newCode' == newCode + UtilsText.Wrapped(code[lastEnd..s], inHtml(code[s + 2..e]).0)
    requires deps' == deps + inHtml(code[s + 2..e]).1
    ensures ScanSoFar(code, inHtml, e + 1, newCode', deps', count + 1)
  {
    SplitCountStep(code, lastEnd, s, e);
    HtmlScanStep(code, lastEnd, s, e, inHtml, newCode, deps, newCode', deps');
  }

  lemma SplitCountStep(code: string, from: nat, s: nat, e: nat)
    requires from <= |code| && UtilsText.Closed(code, from)
    requires FindFrom(code, UtilsText.OpenTag, from) == Some(s) && FindFrom(code, UtilsText.CloseTag, s) == Some(e)
    ensures e < |code| && UtilsText.Closed(code, e + 1)
    ensures |UtilsText.Split(code, from).0| == 1 + |UtilsText.Split(code, e + 1).0|
  {
    var e' := UtilsText.SplitStep(code, from, s);
  }

  lemma HtmlScanStep(code: string, from: nat, s: nat, e: nat, inHtml: InHtml, acc: string, deps: seq<string>,
                     acc': string, deps': seq<string>)
    requires from <= |code| && UtilsText.Closed(code, from)
    requires FindFrom(code, UtilsText.OpenTag, from) == Some(s) && FindFrom(code, UtilsText.CloseTag, s) == Some(e)
    requires s + 2 <= e && acc' == acc + UtilsText.Wrapped(code[from..s], inHtml(code[s + 2..e]).0)
    requires deps' == deps + inHtml(code[s + 2..e]).1
    ensures e < |code| && UtilsText.Closed(code, e + 1)
    ensures UtilsText.Scan(code, from, HtmlRewriter(inHtml), acc, deps) == UtilsText.Scan(code, e + 1, HtmlRewriter(inHtml), acc', deps')
  {
    UtilsText.ScanStep(code, from, s, e, HtmlRewriter(inHtml), acc, deps);
  }

  /** A text without `${` is left alone and depends on nothing. */
  lemma TextWithoutBindings(code: string, inHtml: InHtml)
    requires forall p :: 0 <= p ==> !OccursAt(code, UtilsText.OpenTag, p)
    ensures UtilsText.Closed(code, 0) && UtilsText.Scan(code, 0, HtmlRewriter(inHtml), "", []) == (code, [])
    ensures |UtilsText.Split(code, 0).0| == 0
  {
    UtilsText.ScanNoBinding(code, HtmlRewriter(inHtml));
    UtilsText.NoOpenNoBinding(code, 0);
  }

  /** The dependencies of a text are those of its bindings, in order. */
  lemma TextDependencies(code: string, inHtml: InHtml)
    requires UtilsText.Closed(code, 0)
    ensures UtilsText.Scan(code, 0, HtmlRewriter(inHtml), "", []).1 == BindingDeps(UtilsText.Split(code, 0).0, inHtml)
  {
    UtilsText.ScanDepsIsSplit(code, 0, HtmlRewriter(inHtml), "", []);
    HtmlRewriteDeps(UtilsText.Split(code, 0).0, inHtml, []);
  }

  /** Rewriting the bindings one by one appends each one's variables. */
  lemma {:induction false} HtmlRewriteDeps(bs: seq<UtilsText.Binding>, inHtml: InHtml, deps: seq<string>)
    ensures UtilsText.RewriteBindings(bs, HtmlRewriter(inHtml), deps).1 == deps + BindingDeps(bs, inHtml)
    decreases |bs|
  {
    if |bs| == 0 {
      assert deps + [] == deps;
    } else {
      var rw := HtmlRewriter(inHtml);
      var step := rw(bs[0].inner, deps);
      assert step.1 == deps + inHtml(bs[0].inner).1;
      HtmlRewriteDeps(bs[1..], inHtml, step.1);
      Associate(deps, inHtml(bs[0].inner).1, BindingDeps(bs[1..], inHtml));
    }
  }

  /** The variables the bindings' expressions read, in order. */
  function BindingDeps(bs: seq<UtilsText.Binding>, inHtml: InHtml): seq<string>
    decreases |bs|
  {
    if |bs| == 0 then [] else inHtml(bs[0].inner).1 + BindingDeps(bs[1..], inHtml)
  }

  // ---------------------------------------------------------------------
  // find_reactive_attr_from_id

  predicate IsAttrRelationOf(info: NodeAndReactiveInfo, id: string) {
    info.ElmAndReactiveAttributeRelation? && info.attribute.elmId == id
  }

  /** `find_reactive_attr_from_id`: the first attribute relation whose
      element id is `id` (the source hands out a mutable reference to it;
      here its position). */
  function FindReactiveAttrFromId(id: string, infos: seq<NodeAndReactiveInfo>): (r: Option<nat>)
    ensures r.Some? ==> r.value < |infos| && IsAttrRelationOf(infos[r.value], id)
    ensures r.Some? ==> forall i :: 0 <= i < r.value ==> !IsAttrRelationOf(infos[i], id)
    ensures r.None? ==> forall i :: 0 <= i < |infos| ==> !IsAttrRelationOf(infos[i], id)
    decreases |infos|
  {
    if |infos| == 0 then None
    else if IsAttrRelationOf(infos[0], id) then Some(0)
    else match FindReactiveAttrFromId(id, infos[1..])
      case None => None
      case Some(k) => Some(k + 1)
  }

  // ---------------------------------------------------------------------
  // set_id_for_needed_elm

  predicate HasIdName(needed: seq<NeededId>, id: string) {
    exists i :: 0 <= i < |needed| && needed[i].idName == id
  }

  /** `set_id_for_needed_elm`: an element with an id keeps it, and the id is
      recorded (to be kept) unless some entry already has that name; an
      element without one gets the next fresh id, recorded to be deleted
      again at run time. Returns the new state, attributes and the id. */
  function SetId(st: State, attrs: Attributes, nodeId: string, ctx: seq<string>, env: Env): (State, Attributes, string) {
    match GetAttr(attrs, "id")
    case Some(Some(id)) =>
      if HasIdName(st.neededIds, id) then (st, attrs, id)
      else (st.(neededIds := st.neededIds + [NeededId(id, false, nodeId, ctx)]), attrs, id)
    case _ =>
      var newId := env.freshId(st.issued);
      (st.(neededIds := st.neededIds + [NeededId(newId, true, nodeId, ctx)], issued := st.issued + 1),
       InsertAttr(attrs, "id", Some(newId)), newId)
  }

  /** Afterwards the element's `id` attribute is the returned id, it is
      recorded, and every other attribute is as before. */
  lemma SetIdSetsId(st: State, attrs: Attributes, nodeId: string, ctx: seq<string>, env: Env, k: string)
    ensures var r := SetId(st, attrs, nodeId, ctx, env);
      GetAttr(r.1, "id") == Some(Some(r.2)) && HasIdName(r.0.neededIds, r.2)
      && (k != "id" ==> GetAttr(r.1, k) == GetAttr(attrs, k))
  {
    var r := SetId(st, attrs, nodeId, ctx, env);
    var n := |st.neededIds|;
    match GetAttr(attrs, "id")
    case Some(Some(id)) =>
      if !HasIdName(st.neededIds, id) {
        assert r.0.neededIds[n].idName == id;
      }
    case _ =>
      var newId := env.freshId(st.issued);
      InsertAttrGet(attrs, "id", Some(newId), k);
      InsertAttrGet(attrs, "id", Some(newId), "id");
      assert r.0.neededIds[n].idName == newId;
  }

  /** The recorded id names stay distinct as long as the oracle's next id is
      not one of them: an author's id is recorded at most once. */
  predicate DistinctIdNames(needed: seq<NeededId>) {
    forall i, j :: 0 <= i < j < |needed| ==> needed[i].idName != needed[j].idName
  }

  lemma SetIdKeepsNamesDistinct(st: State, attrs: Attributes, nodeId: string, ctx: seq<string>, env: Env)
    requires DistinctIdNames(st.neededIds) && !HasIdName(st.neededIds, env.freshId(st.issued))
    ensures DistinctIdNames(SetId(st, attrs, nodeId, ctx, env).0.neededIds)
  {
    var r := SetId(st, attrs, nodeId, ctx, env);
    var n := |st.neededIds|;
    if |r.0.neededIds| > n {
      forall i | 0 <= i < n ensures r.0.neededIds[i].idName != r.0.neededIds[n].idName {
        assert r.0.neededIds[i] == st.neededIds[i];
      }
    }
  }

  /** An element with an id keeps it and draws no fresh id; one without
      gets the oracle's next id, recorded to be deleted. */
  lemma SetIdCases(st: State, attrs: Attributes, nodeId: string, ctx: seq<string>, env: Env)
    ensures var r := SetId(st, attrs, nodeId, ctx, env);
      match GetAttr(attrs, "id")
      case Some(Some(id)) =>
        r.1 == attrs && r.2 == id && r.0.issued == st.issued
        && r.0.neededIds == st.neededIds + (if HasIdName(st.neededIds, id) then [] else [NeededId(id, false, nodeId, ctx)])
      case _ =>
        r.2 == env.freshId(st.issued) && r.0.issued == st.issued + 1
        && r.0.neededIds == st.neededIds + [NeededId(r.2, true, nodeId, ctx)]
  {
    match GetAttr(attrs, "id")
    case Some(Some(id)) =>
      if HasIdName(st.neededIds, id) {
        assert st.neededIds + [] == st.neededIds;
      }
    case _ =>
  }

  // ---------------------------------------------------------------------
  // check_html_elms: the attribute loop

  /** The walk over one element's attributes so far: the state, the
      attributes and the if-block context its children will get. */
  datatype AttrWalk = AttrWalk(st: State, attrs: Attributes, ctx: seq<string>)

  /** The relation a `:attr` entry goes into: the first attribute relation
      whose element id is the element's `id`; when there is none, a new
      empty relation for the node is pushed and the first relation for the
      node's uuid is taken. */
  function RelationFor(rels: seq<NodeAndReactiveInfo>, id: string, nodeId: string, ctx: seq<string>, loc: seq<nat>): (r: (seq<NodeAndReactiveInfo>, nat))
    ensures r.1 < |r.0| && r.0[r.1].ElmAndReactiveAttributeRelation?
  {
    match FindReactiveAttrFromId(id, rels)
    case Some(i) => (rels, i)
    case None =>
      var pushed := rels + [NodeAndReactiveInfo.ElmAndReactiveAttributeRelation(ElmAndReactiveAttributeRelation.ElmAndReactiveAttributeRelation(nodeId, [], ctx, loc))];
      assert IsAttrRelationOf(pushed[|rels|], nodeId);
      (pushed, FindReactiveAttrFromId(nodeId, pushed).value)
  }

  /** A `:name` attribute: `:innerHtml` and `:textContent` are refused;
      otherwise the element gets an id, a relation is found or made for it,
      a missing value is refused, and the attribute becomes `name` with
      value `${expr}`, where `expr` is the rewritten value, which is also
      added to the relation. */
  function ReactiveAttrStep(w: AttrWalk, key: string, value: Option<string>, nodeId: string, loc: seq<nat>, env: Env): Result<AttrWalk>
    requires StartsWith(key, ":")
  {
    var (st, attrs, ctx) := (w.st, w.attrs, w.ctx);
    if key == ":innerHtml" then Err(Rejected(":innerHtml is not supported"))
    else if key == ":textContent" then Err(Rejected(":textContent is not supported"))
    else
      var s := SetId(st, attrs, nodeId, ctx, env);
      var name := key[1..];
      var found := RelationFor(s.0.relations, s.2, nodeId, ctx, loc);
      if value.None? then Err(Rejected("value of attribute :" + name + " is null"))
      else
        var out := env.inHtml(value.value);
        var rel := found.0[found.1].attribute;
        var entry := TransformTargets.ReactiveAttr(name, out.0, out.1);
        var updated := NodeAndReactiveInfo.ElmAndReactiveAttributeRelation(rel.(reactiveAttr := rel.reactiveAttr + [entry]));
        Ok(AttrWalk(s.0.(relations := found.0[found.1 := updated]),
                    InsertAttr(RemoveAttr(s.1, key), name, Some("${" + out.0 + "}")), ctx))
  }

  /** An `@event` attribute: the element gets an id, the handler (when
      there is a value) is recorded for it, and the attribute is dropped. */
  function EventStep(w: AttrWalk, key: string, value: Option<string>, nodeId: string, env: Env): AttrWalk
    requires StartsWith(key, "@")
  {
    var s := SetId(w.st, w.attrs, nodeId, w.ctx, env);
    var pushed := if value.Some? then [ActionAndTarget(key[1..], New(value.value, env.variables), nodeId)] else [];
    AttrWalk(s.0.(actions := s.0.actions + pushed), RemoveAttr(s.1, key), w.ctx)
  }

  /** An `:if` attribute: the parent is asked to detach this element as an
      if-block (a missing condition or a missing parent aborts), the
      attribute becomes the valueless conditional marker, and the children
      are walked inside this block's context. */
  function IfStep(w: AttrWalk, key: string, value: Option<string>, nodeId: string, parent: Option<string>, loc: seq<nat>): Result<AttrWalk> {
    if value.None? || parent.None? then Err(Panic(UnwrapNone))
    else
      var m := HtmlManipulator(parent.value, RemoveChildForIfStatement(nodeId, value.value, nodeId, w.ctx, loc));
      Ok(AttrWalk(w.st.(manipulators := w.st.manipulators + [m]),
                  InsertAttr(RemoveAttr(w.attrs, key), ConditionalKey, None), w.ctx + [nodeId]))
  }

  /** A `::name` two-way binding: the element gets an id; with a value `v`
      an `input` handler assigning `event.target.name` to `v.v` is recorded,
      and a relation showing `v.v` in attribute `name`; the attribute is
      dropped. */
  function BindStep(w: AttrWalk, key: string, value: Option<string>, nodeId: string, loc: seq<nat>, env: Env): AttrWalk
    requires StartsWith(key, "::")
  {
    var s := SetId(w.st, w.attrs, nodeId, w.ctx, env);
    var name := key[2..];
    var st := if value.None? then s.0 else
      var v := value.value;
      var action := ActionAndTarget("input", EventBinding(EventBindingStatement(v + ".v = event.target." + name, "e")), nodeId);
      var rel := NodeAndReactiveInfo.ElmAndReactiveAttributeRelation(ElmAndReactiveAttributeRelation.ElmAndReactiveAttributeRelation(
        nodeId, [TransformTargets.ReactiveAttr(name, v + ".v", [v])], w.ctx, loc));
      s.0.(actions := s.0.actions + [action], relations := s.0.relations + [rel]);
    AttrWalk(st, RemoveAttr(s.1, key), w.ctx)
  }

  /** One attribute of the snapshot the loop iterates over, applied to the
      current attributes. Keys are tested in the source's order: `@`,
      `:if`, `::`, `:`; any other attribute is left alone. */
  function AttrStep(w: AttrWalk, key: string, value: Option<string>, nodeId: string, parent: Option<string>,
                    loc: seq<nat>, env: Env): Result<AttrWalk>
  {
    if StartsWith(key, "@") then Ok(EventStep(w, key, value, nodeId, env))
    else if key == ":if" then IfStep(w, key, value, nodeId, parent, loc)
    else if StartsWith(key, "::") then Ok(BindStep(w, key, value, nodeId, loc, env))
    else if StartsWith(key, ":") then ReactiveAttrStep(w, key, value, nodeId, loc, env)
    else Ok(w)
  }

  /** The first `k` attributes of the snapshot, in order; the first error
      ends the walk. */
  function AttrFold(w0: AttrWalk, snapshot: Attributes, k: nat, nodeId: string, parent: Option<string>,
                    loc: seq<nat>, env: Env): Result<AttrWalk>
    requires k <= |snapshot|
    decreases k
  {
    if k == 0 then Ok(w0)
    else match AttrFold(w0, snapshot, k - 1, nodeId, parent, loc, env)
      case Err(e) => Err(e)
      case Ok(w) => AttrStep(w, snapshot[k - 1].0, snapshot[k - 1].1, nodeId, parent, loc, env)
  }

  lemma AttrFoldStep(w0: AttrWalk, snapshot: Attributes, i: nat, nodeId: string, parent: Option<string>,
                     loc: seq<nat>, env: Env, w: AttrWalk)
    requires i < |snapshot| && AttrFold(w0, snapshot, i, nodeId, parent, loc, env) == Ok(w)
    ensures AttrFold(w0, snapshot, i + 1, nodeId, parent, loc, env) == AttrStep(w, snapshot[i].0, snapshot[i].1, nodeId, parent, loc, env)
  {
  }

  lemma {:induction false} AttrFoldErr(w0: AttrWalk, snapshot: Attributes, k: nat, n: nat, nodeId: string,
                                       parent: Option<string>, loc: seq<nat>, env: Env)
    requires k <= n <= |snapshot| && AttrFold(w0, snapshot, k, nodeId, parent, loc, env).Err?
    ensures AttrFold(w0, snapshot, n, nodeId, parent, loc, env) == AttrFold(w0, snapshot, k, nodeId, parent, loc, env)
    decreases n
  {
    if n > k {
      AttrFoldErr(w0, snapshot, k, n - 1, nodeId, parent, loc, env);
    }
  }

  // ---------------------------------------------------------------------
  // check_html_elms: text nodes

  /** A text node: its bindings are rewritten in place; when it depends on
      some variable, an edit is queued for its parent — the parent is given
      an id when the text is its only child, and the text is removed and
      rendered by hand when it has siblings. A reactive text at the root
      has no parent to queue for. */
  function TextStep(st: State, text: string, nodeId: string, parent: Option<string>, ctx: seq<string>,
                    loc: seq<nat>, siblings: nat, env: Env): Result<(State, Node)>
    requires UtilsText.Closed(text, 0)
  {
    var r := UtilsText.Scan(text, 0, HtmlRewriter(env.inHtml), "", []);
    var node := Node(nodeId, TextNode(r.0));
    if |r.1| == 0 then Ok((st, node))
    else if parent.None? then Err(Panic(UnwrapNone))
    else
      var m := if siblings <= 1 then SetIdForReactiveContent(r.0, r.1, ctx, loc)
               else RemoveChildTextNode(r.1, ctx, loc, nodeId, r.0);
      Ok((st.(manipulators := st.manipulators + [HtmlManipulator(parent.value, m)]), node))
  }

  // ---------------------------------------------------------------------
  // check_html_elms: applying the queued edits

  /** Gives the element before which something will be inserted (the next
      element sibling, at `q - 1` once the child is gone) an id, with the
      context of the node being walked; returns its uuid as the anchor. */
  function Anchor(st: State, el: Element, q: Option<nat>, ctx: seq<string>, env: Env): (r: (State, Element, Option<string>))
    requires q.Some? ==> 1 <= q.value <= |el.children| && IsElement(el.children[q.value - 1])
    ensures |r.1.children| == |el.children| && r.1.name == el.name && r.1.attributes == el.attributes
    ensures r.2.Some? <==> q.Some?
    ensures q.Some? ==> r.2.value == el.children[q.value - 1].uuid
    ensures q.Some? ==> r.1.children[q.value - 1].uuid == r.2.value && IsElement(r.1.children[q.value - 1])
    ensures forall i :: 0 <= i < |el.children| && (q.None? || i != q.value - 1) ==> r.1.children[i] == el.children[i]
  {
    if q.None? then (st, el, None)
    else
      var child := el.children[q.value - 1];
      var inner := child.content.element;
      var s := SetId(st, inner.attributes, child.uuid, ctx, env);
      var updated := Node(child.uuid, NodeContent.Element(inner.(attributes := s.1)));
      (s.0, el.(children := el.children[q.value - 1 := updated]), Some(child.uuid))
  }

  /** Detaching an if-block: the node gets an id with the block's context,
      the block is removed from the children (an unknown child aborts), the
      next element sibling becomes the anchor, a distance other than 1 draws
      a fresh id for a reference text node, and the block is recorded with
      its condition rewritten. */
  function IfRemovalStep(st: State, el: Element, m: HtmlManipulation, nodeId: string, ifBlkCtx: seq<string>, env: Env): Result<(State, Element)>
    requires m.RemoveChildForIfStatement?
  {
    var s := SetId(st, el.attributes, nodeId, m.ctx, env);
    match RemoveChild(el.(attributes := s.1), m.childUuid)
    case Err(e) => Err(e)
    case Ok(rm) =>
      var a := Anchor(s.0, rm.rest, rm.nextElementIndex, ifBlkCtx, env);
      var refText := if rm.distance != 1 then Some(env.freshId(a.0.issued)) else None;
      var issued := if rm.distance != 1 then a.0.issued + 1 else a.0.issued;
      var cond := env.inHtml(m.condition);
      var info := IfBlockInfo(nodeId, m.childUuid, rm.distance, a.2, rm.detached, refText, cond.0, cond.1, m.ctx, m.blockId, m.elmLoc);
      Ok((a.0.(ifBlocks := a.0.ifBlocks + [info], issued := issued), a.1))
  }

  /** A reactive only child: the node gets an id and a relation showing the
      text as its content. */
  function ContentIdStep(st: State, el: Element, m: HtmlManipulation, nodeId: string, env: Env): (State, Element)
    requires m.SetIdForReactiveContent?
  {
    var s := SetId(st, el.attributes, nodeId, m.ctx, env);
    var rel := ElmAndVariableRelation(ElmAndVariableContentRelation(nodeId, m.dependentVars, m.text, m.ctx, m.elmLoc));
    (s.0.(relations := s.0.relations + [rel]), el.(attributes := s.1))
  }

  /** A reactive text among siblings: the node gets an id, the text node is
      removed (an unknown child aborts), the next element sibling becomes
      the anchor, and the text is recorded to be rendered by hand and as a
      relation of the text node. */
  function TextRemovalStep(st: State, el: Element, m: HtmlManipulation, nodeId: string, ifBlkCtx: seq<string>, env: Env): Result<(State, Element)>
    requires m.RemoveChildTextNode?
  {
    var s := SetId(st, el.attributes, nodeId, m.ctx, env);
    match RemoveChild(el.(attributes := s.1), m.childUuid)
    case Err(e) => Err(e)
    case Ok(rm) =>
      var a := Anchor(s.0, rm.rest, rm.nextElementIndex, ifBlkCtx, env);
      var renderer := ManualRendererForTextNode(nodeId, m.childUuid, rm.distance, m.dependentVars, m.content, m.ctx, m.elmLoc, a.2);
      var rel := NodeAndReactiveInfo.TextAndVariableContentRelation(
        TextAndVariableContentRelation.TextAndVariableContentRelation(m.childUuid, m.dependentVars, m.content, m.ctx, m.elmLoc));
      Ok((a.0.(textRenderers := a.0.textRenderers + [renderer], relations := a.0.relations + [rel]), a.1))
  }

  /** One queued edit: applied when it is addressed to this node, skipped
      otherwise. */
  function ApplyStep(st: State, el: Element, m: HtmlManipulator, nodeId: string, ifBlkCtx: seq<string>, env: Env): Result<(State, Element)> {
    if m.targetUuid != nodeId then Ok((st, el))
    else match m.manipulation
      case RemoveChildForIfStatement(_, _, _, _, _) => IfRemovalStep(st, el, m.manipulation, nodeId, ifBlkCtx, env)
      case SetIdForReactiveContent(_, _, _, _) => Ok(ContentIdStep(st, el, m.manipulation, nodeId, env))
      case RemoveChildTextNode(_, _, _, _, _) => TextRemovalStep(st, el, m.manipulation, nodeId, ifBlkCtx, env)
  }

  /** The first `k` edits of the (sorted) queue, in order. */
  function ApplyAll(st: State, el: Element, manips: seq<HtmlManipulator>, k: nat, nodeId: string,
                    ifBlkCtx: seq<string>, env: Env): Result<(State, Element)>
    requires k <= |manips|
    decreases k
  {
    if k == 0 then Ok((st, el))
    else match ApplyAll(st, el, manips, k - 1, nodeId, ifBlkCtx, env)
      case Err(e) => Err(e)
      case Ok(a) => ApplyStep(a.0, a.1, manips[k - 1], nodeId, ifBlkCtx, env)
  }

  lemma {:induction false} ApplyAllErr(st: State, el: Element, manips: seq<HtmlManipulator>, k: nat, n: nat,
                                       nodeId: string, ifBlkCtx: seq<string>, env: Env)
    requires k <= n <= |manips| && ApplyAll(st, el, manips, k, nodeId, ifBlkCtx, env).Err?
    ensures ApplyAll(st, el, manips, n, nodeId, ifBlkCtx, env) == ApplyAll(st, el, manips, k, nodeId, ifBlkCtx, env)
    decreases n
  {
    if n > k {
      ApplyAllErr(st, el, manips, k, n - 1, nodeId, ifBlkCtx, env);
    }
  }

  // ---------------------------------------------------------------------
  // check_html_elms: the walk

  /** Every text in the tree is closed, so the text scans finish. */
  predicate TextsClosed(node: Node)
    decreases node
  {
    match node.content
    case TextNode(text) => UtilsText.Closed(text, 0)
    case Element(el) => forall i :: 0 <= i < |el.children| ==> TextsClosed(el.children[i])
    case Comment(_) => true
  }

  /** `check_html_elms` on one node: an element's attributes, then its
      children (each with this node as parent, the context the attributes
      left, its location extended by its index and the number of children
      as sibling count), then the queue is sorted by location and the edits
      for this node are applied. Returns the new state and node. */
  function Check(st: State, node: Node, parent: Option<string>, ctx: seq<string>, loc: seq<nat>, siblings: nat, env: Env): Result<(State, Node)>
    requires TextsClosed(node)
    decreases node, 2
  {
    match node.content
    case Element(el) =>
      (match AttrFold(AttrWalk(st, el.attributes, ctx), el.attributes, |el.attributes|, node.uuid, parent, loc, env)
       case Err(e) => Err(e)
       case Ok(w) =>
         match CheckChildren(w.st, node, |el.children|, w.ctx, loc, env)
         case Err(e) => Err(e)
         case Ok(c) =>
           var sorted := c.0.(manipulators := Sorting.SortByKey(c.0.manipulators, ManipLoc));
           match ApplyAll(sorted, Element.Element(el.name, w.attrs, c.1), sorted.manipulators, |sorted.manipulators|, node.uuid, ctx, env)
           case Err(e) => Err(e)
           case Ok(a) => Ok((a.0, Node(node.uuid, NodeContent.Element(a.1)))))
    case TextNode(text) => TextStep(st, text, node.uuid, parent, ctx, loc, siblings, env)
    case Comment(_) => Ok((st, node))
  }

  /** The first `k` children of `node`, walked in order. */
  function CheckChildren(st: State, node: Node, k: nat, ctx: seq<string>, loc: seq<nat>, env: Env): Result<(State, seq<Node>)>
    requires node.content.Element? && k <= |node.content.element.children| && TextsClosed(node)
    decreases node, 1, k
  {
    if k == 0 then Ok((st, []))
    else match CheckChildren(st, node, k - 1, ctx, loc, env)
      case Err(e) => Err(e)
      case Ok(c) =>
        var children := node.content.element.children;
        match Check(c.0, children[k - 1], Some(node.uuid), ctx, loc + [k - 1], |children|, env)
        case Err(e) => Err(e)
        case Ok(r) => Ok((r.0, c.1 + [r.1]))
  }

  lemma {:induction false} CheckChildrenErr(st: State, node: Node, k: nat, n: nat, ctx: seq<string>, loc: seq<nat>, env: Env)
    requires node.content.Element? && k <= n <= |node.content.element.children| && TextsClosed(node)
    requires CheckChildren(st, node, k, ctx, loc, env).Err?
    ensures CheckChildren(st, node, n, ctx, loc, env) == CheckChildren(st, node, k, ctx, loc, env)
    decreases n
  {
    if n > k {
      CheckChildrenErr(st, node, k, n - 1, ctx, loc, env);
    }
  }

  /** The outcome of a method step agrees with its specification: the same
      error, or the same value with the state the specification gives. What
      the lists hold after an error is left open (the compilation stops). */
  predicate Agrees<T(==)>(r: Result<T>, spec: Result<(State, T)>, now: State) {
    match spec
    case Err(e) => r == Err(e)
    case Ok(v) => r == Ok(v.1) && now == v.0
  }

  /** An attribute step's outcome as the method returns it. */
  function Unpack(r: Result<AttrWalk>): Result<(State, (Attributes, seq<string>))> {
    match r
    case Err(e) => Err(e)
    case Ok(w) => Ok((w.st, (w.attrs, w.ctx)))
  }

  /** `check_html_elms` with its accumulator arguments (`needed_ids`,
      `elm_and_var_relation`, `actions_and_targets`, `html_manipulators`,
      `if_blocks_info`, `txt_node_renderer`) as fields that the walk pushes
      into, and the id generator's count. The tree is passed in and the
      rewritten tree handed back. */
  class Transformer {
    var neededIds: seq<NeededId>
    var relations: seq<NodeAndReactiveInfo>
    var actions: seq<ActionAndTarget>
    var manipulators: seq<HtmlManipulator>
    var ifBlocks: seq<IfBlockInfo>
    var textRenderers: seq<ManualRendererForTextNode>
    var issued: nat
    const env: Env

    constructor (env: Env)
      ensures Snapshot() == State([], [], [], [], [], [], 0) && this.env == env
    {
      neededIds, relations, actions, manipulators, ifBlocks, textRenderers, issued := [], [], [], [], [], [], 0;
      this.env := env;
    }

    function Snapshot(): State
      reads this
    {
      State(neededIds, relations, actions, manipulators, ifBlocks, textRenderers, issued)
    }

    /** `needed_ids.iter().any(|x| x.id_name == id)`. */
    method AnyIdName(id: string) returns (found: bool)
      ensures found == HasIdName(neededIds, id)
    {
      found := false;
      var i := 0;
      while i < |neededIds|
        invariant 0 <= i <= |neededIds|
        invariant found <==> exists j :: 0 <= j < i && neededIds[j].idName == id
      {
        if neededIds[i].idName == id {
          found := true;
        }
        i := i + 1;
      }
    }

    /** `set_id_for_needed_elm`. */
    method SetIdForNeededElm(attrs: Attributes, nodeId: string, ctx: seq<string>) returns (attrs': Attributes, id: string)
      modifies this
      ensures (Snapshot(), attrs', id) == SetId(old(Snapshot()), attrs, nodeId, ctx, env)
    {
      var current := GetAttr(attrs, "id");
      if current.Some? && current.value.Some? {
        id := current.value.value;
        attrs' := attrs;
        var known := AnyIdName(id);
        if !known {
          neededIds := neededIds + [NeededId(id, false, nodeId, ctx)];
        }
      } else {
        id := env.freshId(issued);
        issued := issued + 1;
        attrs' := InsertAttr(attrs, "id", Some(id));
        neededIds := neededIds + [NeededId(id, true, nodeId, ctx)];
      }
    }

    /** One pass of the attribute loop of `check_html_elms`: the attribute
        `key` of the snapshot, applied to the current attributes `attrs`
        with the current if-block context `ctx`. */
    method CheckAttribute(attrs: Attributes, ctx: seq<string>, key: string, value: Option<string>, nodeId: string,
                          parent: Option<string>, loc: seq<nat>) returns (r: Result<(Attributes, seq<string>)>)
      modifies this
      ensures Agrees(r, Unpack(AttrStep(AttrWalk(old(Snapshot()), attrs, ctx), key, value, nodeId, parent, loc, env)), Snapshot())
    {
      if StartsWith(key, "@") {
        var attrs' := EventAttribute(attrs, ctx, key, value, nodeId);
        r := Ok((attrs', ctx));
      } else if key == ":if" {
        r := IfAttribute(attrs, ctx, key, value, nodeId, parent, loc);
      } else if StartsWith(key, "::") {
        var attrs' := BindAttribute(attrs, ctx, key, value, nodeId, loc);
        r := Ok((attrs', ctx));
      } else if StartsWith(key, ":") {
        r := ReactiveAttribute(attrs, ctx, key, value, nodeId, loc);
      } else {
        r := Ok((attrs, ctx));
      }
    }

    method EventAttribute(attrs: Attributes, ctx: seq<string>, key: string, value: Option<string>, nodeId: string) returns (attrs': Attributes)
      requires StartsWith(key, "@")
      modifies this
      ensures var w := EventStep(AttrWalk(old(Snapshot()), attrs, ctx), key, value, nodeId, env);
        Snapshot() == w.st && attrs' == w.attrs
    {
      ghost var s := SetId(Snapshot(), attrs, nodeId, ctx, env);
      var attrs1, _ := SetIdForNeededElm(attrs, nodeId, ctx);
      assert Snapshot() == s.0 && attrs1 == s.1;
      var pushed: seq<ActionAndTarget> := [];
      if value.Some? {
        pushed := [ActionAndTarget(key[1..], New(value.value, env.variables), nodeId)];
        actions := actions + pushed;
      }
      assert Snapshot() == s.0.(actions := s.0.actions + pushed);
      attrs' := RemoveAttr(attrs1, key);
    }

    method IfAttribute(attrs: Attributes, ctx: seq<string>, key: string, value: Option<string>, nodeId: string,
                       parent: Option<string>, loc: seq<nat>) returns (r: Result<(Attributes, seq<string>)>)
      modifies this
      ensures Agrees(r, Unpack(IfStep(AttrWalk(old(Snapshot()), attrs, ctx), key, value, nodeId, parent, loc)), Snapshot())
    {
      if value.None? || parent.None? {
        return Err(Panic(UnwrapNone));
      }
      manipulators := manipulators + [HtmlManipulator(parent.value, RemoveChildForIfStatement(nodeId, value.value, nodeId, ctx, loc))];
      return Ok((InsertAttr(RemoveAttr(attrs, key), ConditionalKey, None), ctx + [nodeId]));
    }

    method BindAttribute(attrs: Attributes, ctx: seq<string>, key: string, value: Option<string>, nodeId: string,
                         loc: seq<nat>) returns (attrs': Attributes)
      requires StartsWith(key, "::")
      modifies this
      ensures var w := BindStep(AttrWalk(old(Snapshot()), attrs, ctx), key, value, nodeId, loc, env);
        Snapshot() == w.st && attrs' == w.attrs
    {
      var attrs1, _ := SetIdForNeededElm(attrs, nodeId, ctx);
      if value.Some? {
        var v := value.value;
        var name := key[2..];
        actions := actions + [ActionAndTarget("input", EventBinding(EventBindingStatement(v + ".v = event.target." + name, "e")), nodeId)];
        relations := relations + [NodeAndReactiveInfo.ElmAndReactiveAttributeRelation(ElmAndReactiveAttributeRelation.ElmAndReactiveAttributeRelation(
          nodeId, [TransformTargets.ReactiveAttr(name, v + ".v", [v])], ctx, loc))];
      }
      attrs' := RemoveAttr(attrs1, key);
    }

    method ReactiveAttribute(attrs: Attributes, ctx: seq<string>, key: string, value: Option<string>, nodeId: string,
                             loc: seq<nat>) returns (r: Result<(Attributes, seq<string>)>)
      requires StartsWith(key, ":")
      modifies this
      ensures Agrees(r, Unpack(ReactiveAttrStep(AttrWalk(old(Snapshot()), attrs, ctx), key, value, nodeId, loc, env)), Snapshot())
    {
      if key == ":innerHtml" {
        return Err(Rejected(":innerHtml is not supported"));
      } else if key == ":textContent" {
        return Err(Rejected(":textContent is not supported"));
      }
      var attrs1, id := SetIdForNeededElm(attrs, nodeId, ctx);
      var name := key[1..];
      var index := FindReactiveAttrFromId(id, relations);
      if index.None? {
        relations := relations + [NodeAndReactiveInfo.ElmAndReactiveAttributeRelation(
          ElmAndReactiveAttributeRelation.ElmAndReactiveAttributeRelation(nodeId, [], ctx, loc))];
        assert IsAttrRelationOf(relations[|relations| - 1], nodeId);
        index := FindReactiveAttrFromId(nodeId, relations);
      }
      if value.None? {
        return Err(Rejected("value of attribute :" + name + " is null"));
      }
      var out := env.inHtml(value.value);
      var rel := relations[index.value].attribute;
      var entry := TransformTargets.ReactiveAttr(name, out.0, out.1);
      relations := relations[index.value := NodeAndReactiveInfo.ElmAndReactiveAttributeRelation(rel.(reactiveAttr := rel.reactiveAttr + [entry]))];
      return Ok((InsertAttr(RemoveAttr(attrs1, key), name, Some("${" + out.0 + "}")), ctx));
    }

    /** The anchor part of applying a removal: the next element sibling,
        if any, gets an id with the context `ctx` of the node being
        walked. */
    method SetAnchor(el: Element, q: Option<nat>, ctx: seq<string>) returns (el': Element, anchor: Option<string>)
      requires q.Some? ==> 1 <= q.value <= |el.children| && IsElement(el.children[q.value - 1])
      modifies this
      ensures (Snapshot(), el', anchor) == Anchor(old(Snapshot()), el, q, ctx, env)
    {
      if q.None? {
        return el, None;
      }
      var child := el.children[q.value - 1];
      var inner := child.content.element;
      var attrs', _ := SetIdForNeededElm(inner.attributes, child.uuid, ctx);
      var updated := Node(child.uuid, NodeContent.Element(inner.(attributes := attrs')));
      return el.(children := el.children[q.value - 1 := updated]), Some(child.uuid);
    }

    /** One pass of the loop over the sorted queue in `check_html_elms`,
        at the element `el` whose uuid is `nodeId` and whose own context is
        `ifBlkCtx`. */
    method ApplyManipulation(el: Element, m: HtmlManipulator, nodeId: string, ifBlkCtx: seq<string>) returns (r: Result<Element>)
      modifies this
      ensures Agrees(r, ApplyStep(old(Snapshot()), el, m, nodeId, ifBlkCtx, env), Snapshot())
    {
      if m.targetUuid != nodeId {
        return Ok(el);
      }
      match m.manipulation {
        case RemoveChildForIfStatement(_, _, _, _, _) =>
          r := RemoveIfBlock(el, m.manipulation, nodeId, ifBlkCtx);
        case SetIdForReactiveContent(_, _, _, _) =>
          var el' := SetIdForContent(el, m.manipulation, nodeId);
          r := Ok(el');
        case RemoveChildTextNode(_, _, _, _, _) =>
          r := RemoveTextNode(el, m.manipulation, nodeId, ifBlkCtx);
      }
    }

    method RemoveIfBlock(el: Element, m: HtmlManipulation, nodeId: string, ifBlkCtx: seq<string>) returns (r: Result<Element>)
      requires m.RemoveChildForIfStatement?
      modifies this
      ensures Agrees(r, IfRemovalStep(old(Snapshot()), el, m, nodeId, ifBlkCtx, env), Snapshot())
    {
      var attrs', _ := SetIdForNeededElm(el.attributes, nodeId, m.ctx);
      var removal := RemoveChild(el.(attributes := attrs'), m.childUuid);
      if removal.Err? {
        return Err(removal.error);
      }
      var rm := removal.value;
      var rest, anchor := SetAnchor(rm.rest, rm.nextElementIndex, ifBlkCtx);
      var refText := None;
      if rm.distance != 1 {
        refText := Some(env.freshId(issued));
        issued := issued + 1;
      }
      var cond := env.inHtml(m.condition);
      ifBlocks := ifBlocks + [IfBlockInfo(nodeId, m.childUuid, rm.distance, anchor, rm.detached, refText, cond.0, cond.1, m.ctx, m.blockId, m.elmLoc)];
      return Ok(rest);
    }

    method SetIdForContent(el: Element, m: HtmlManipulation, nodeId: string) returns (el': Element)
      requires m.SetIdForReactiveContent?
      modifies this
      ensures (Snapshot(), el') == ContentIdStep(old(Snapshot()), el, m, nodeId, env)
    {
      var attrs', _ := SetIdForNeededElm(el.attributes, nodeId, m.ctx);
      relations := relations + [ElmAndVariableRelation(ElmAndVariableContentRelation(nodeId, m.dependentVars, m.text, m.ctx, m.elmLoc))];
      return el.(attributes := attrs');
    }

    method RemoveTextNode(el: Element, m: HtmlManipulation, nodeId: string, ifBlkCtx: seq<string>) returns (r: Result<Element>)
      requires m.RemoveChildTextNode?
      modifies this
      ensures Agrees(r, TextRemovalStep(old(Snapshot()), el, m, nodeId, ifBlkCtx, env), Snapshot())
    {
      var attrs', _ := SetIdForNeededElm(el.attributes, nodeId, m.ctx);
      var removal := RemoveChild(el.(attributes := attrs'), m.childUuid);
      if removal.Err? {
        return Err(removal.error);
      }
      var rm := removal.value;
      var rest, anchor := SetAnchor(rm.rest, rm.nextElementIndex, ifBlkCtx);
      textRenderers := textRenderers + [ManualRendererForTextNode(nodeId, m.childUuid, rm.distance, m.dependentVars, m.content, m.ctx, m.elmLoc, anchor)];
      relations := relations + [NodeAndReactiveInfo.TextAndVariableContentRelation(
        TextAndVariableContentRelation.TextAndVariableContentRelation(m.childUuid, m.dependentVars, m.content, m.ctx, m.elmLoc))];
      return Ok(rest);
    }

    /** `check_html_elms`: walks `node` and its sub-tree, pushing into the
        fields, and returns the rewritten node. */
    method CheckHtmlElms(node: Node, parent: Option<string>, ctx: seq<string>, loc: seq<nat>, siblings: nat) returns (r: Result<Node>)
      requires TextsClosed(node)
      modifies this
      ensures Agrees(r, Check(old(Snapshot()), node, parent, ctx, loc, siblings, env), Snapshot())
      decreases node, 2
    {
      match node.content {
        case Element(el) =>
          var walked := CheckAttributes(node, parent, ctx, loc);
          if walked.Err? {
            return Err(walked.error);
          }
          var attrs := walked.value.0;
          var ctxArray := walked.value.1;
          var children := CheckChildNodes(node, ctxArray, loc);
          if children.Err? {
            return Err(children.error);
          }
          manipulators := Sorting.SortByKey(manipulators, ManipLoc);
          var applied := ApplyManipulations(node.uuid, Element.Element(el.name, attrs, children.value), ctx);
          if applied.Err? {
            return Err(applied.error);
          }
          return Ok(Node(node.uuid, NodeContent.Element(applied.value)));
        case TextNode(text) =>
          var newText, deps, _ := ReplaceTextWithReactiveValue(text, env.inHtml);
          if |deps| > 0 {
            if parent.None? {
              return Err(Panic(UnwrapNone));
            }
            if siblings <= 1 {
              manipulators := manipulators + [HtmlManipulator(parent.value, SetIdForReactiveContent(newText, deps, ctx, loc))];
            } else {
              manipulators := manipulators + [HtmlManipulator(parent.value, RemoveChildTextNode(deps, ctx, loc, node.uuid, newText))];
            }
          }
          return Ok(Node(node.uuid, TextNode(newText)));
        case Comment(_) =>
          return Ok(node);
      }
    }

    /** The attribute loop: every attribute of the element as it was when
        the loop started, in order. */
    method CheckAttributes(node: Node, parent: Option<string>, ctx: seq<string>, loc: seq<nat>) returns (r: Result<(Attributes, seq<string>)>)
      requires node.content.Element?
      modifies this
      ensures var el := node.content.element;
        Agrees(r, Unpack(AttrFold(AttrWalk(old(Snapshot()), el.attributes, ctx), el.attributes, |el.attributes|, node.uuid, parent, loc, env)), Snapshot())
    {
      var snapshot := node.content.element.attributes;
      ghost var w0 := AttrWalk(Snapshot(), snapshot, ctx);
      var attrs := snapshot;
      var ctxArray := ctx;
      var i := 0;
      while i < |snapshot|
        invariant 0 <= i <= |snapshot|
        invariant AttrFold(w0, snapshot, i, node.uuid, parent, loc, env) == Ok(AttrWalk(Snapshot(), attrs, ctxArray))
      {
        ghost var before := AttrWalk(Snapshot(), attrs, ctxArray);
        var step := CheckAttribute(attrs, ctxArray, snapshot[i].0, snapshot[i].1, node.uuid, parent, loc);
        AttrFoldStep(w0, snapshot, i, node.uuid, parent, loc, env, before);
        if step.Err? {
          AttrFoldErr(w0, snapshot, i + 1, |snapshot|, node.uuid, parent, loc, env);
          return Err(step.error);
        }
        attrs, ctxArray := step.value.0, step.value.1;
        i := i + 1;
      }
      return Ok((attrs, ctxArray));
    }

    /** The loop over the children: each is walked with this node as
        parent, the context `ctx` the attributes left, its location, and
        the number of children as sibling count. */
    method CheckChildNodes(node: Node, ctx: seq<string>, loc: seq<nat>) returns (r: Result<seq<Node>>)
      requires node.content.Element? && TextsClosed(node)
      modifies this
      ensures var n := |node.content.element.children|;
        Agrees(r, CheckChildren(old(Snapshot()), node, n, ctx, loc, env), Snapshot())
      decreases node, 1
    {
      var children := node.content.element.children;
      ghost var start := Snapshot();
      var done: seq<Node> := [];
      var k := 0;
      while k < |children|
        invariant 0 <= k <= |children|
        invariant CheckChildren(start, node, k, ctx, loc, env) == Ok((Snapshot(), done))
      {
        assert children[k] < node;
        var walked := CheckHtmlElms(children[k], Some(node.uuid), ctx, loc + [k], |children|);
        if walked.Err? {
          CheckChildrenErr(start, node, k + 1, |children|, ctx, loc, env);
          return Err(walked.error);
        }
        done := done + [walked.value];
        k := k + 1;
      }
      return Ok(done);
    }

    /** The loop over the whole sorted queue, applying the edits addressed
        to the node `nodeId`; `ctx` is the node's own context. */
    method ApplyManipulations(nodeId: string, el: Element, ctx: seq<string>) returns (r: Result<Element>)
      modifies this
      ensures Agrees(r, ApplyAll(old(Snapshot()), el, old(manipulators), |old(manipulators)|, nodeId, ctx, env), Snapshot())
    {
      var queue := manipulators;
      ghost var start := Snapshot();
      var current := el;
      var j := 0;
      while j < |queue|
        invariant 0 <= j <= |queue|
        invariant ApplyAll(start, el, queue, j, nodeId, ctx, env) == Ok((Snapshot(), current))
      {
        var step := ApplyManipulation(current, queue[j], nodeId, ctx);
        if step.Err? {
          ApplyAllErr(start, el, queue, j + 1, |queue|, nodeId, ctx, env);
          return Err(step.error);
        }
        current := step.value;
        j := j + 1;
      }
      return Ok(current);
    }
  }
}
