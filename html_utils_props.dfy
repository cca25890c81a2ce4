/** What the markup walk of `html_utils.rs` promises, stated about the
    specification functions of module `Markup`: how each kind of attribute
    is handled, what happens to reactive text, what detaching an if-block
    leaves behind, that the queue of edits ends up ordered by location, that
    attribute keys stay unique, and which records each single step may
    touch. */
module MarkupProperties {
  import opened Wrappers
  import opened Strings
  import opened HtmlTree
  import opened Relations
  import opened TransformInfo
  import TransformTargets
  import Sorting
  import UtilsText
  import opened Markup

  // ---------------------------------------------------------------------
  // Attributes

  /** `:innerHtml` and `:textContent` are refused. */
  lemma UnsupportedAttributes(w: AttrWalk, value: Option<string>, nodeId: string, parent: Option<string>, loc: seq<nat>, env: Env)
    ensures AttrStep(w, ":innerHtml", value, nodeId, parent, loc, env) == Err(Rejected(":innerHtml is not supported"))
    ensures AttrStep(w, ":textContent", value, nodeId, parent, loc, env) == Err(Rejected(":textContent is not supported"))
  {
    assert ":innerHtml"[..2] == ":i" && ":textContent"[..2] == ":t";
    assert ":innerHtml"[..1] == ":" && ":textContent"[..1] == ":";
  }

  /** An `@event` attribute: the walk goes on with the same context, the
      attribute is gone, the element has an id, and nothing else about its
      attributes changes. */
  lemma EventAttrEffect(w: AttrWalk, key: string, value: Option<string>, nodeId: string, parent: Option<string>,
                        loc: seq<nat>, env: Env, k: string)
    requires StartsWith(key, "@")
    ensures var r := EventStep(w, key, value, nodeId, env);
      AttrStep(w, key, value, nodeId, parent, loc, env) == Ok(r) && r.ctx == w.ctx
      && !HasKey(r.attrs, key) && GetAttr(r.attrs, "id").Some? && GetAttr(r.attrs, "id").value.Some?
      && (k != key && k != "id" ==> GetAttr(r.attrs, k) == GetAttr(w.attrs, k))
  {
    var s := SetId(w.st, w.attrs, nodeId, w.ctx, env);
    SetIdSetsId(w.st, w.attrs, nodeId, w.ctx, env, k);
    assert key[0] == '@' && key != "id";
    RemoveAttrGet(s.1, key, k);
    RemoveAttrGet(s.1, key, key);
    RemoveAttrGet(s.1, key, "id");
    HasKeyIsGet(RemoveAttr(s.1, key), key);
  }

  /** An `@event` attribute with a value records exactly one handler, for
      this node, named after the attribute; without a value none. Neither
      relations nor queued edits change. */
  lemma EventAttrRecorded(w: AttrWalk, key: string, value: Option<string>, nodeId: string, env: Env)
    requires StartsWith(key, "@")
    ensures var r := EventStep(w, key, value, nodeId, env);
      |r.st.actions| == |w.st.actions| + (if value.Some? then 1 else 0) && r.st.actions[..|w.st.actions|] == w.st.actions
      && (value.Some? ==> r.st.actions[|w.st.actions|] == ActionAndTarget(key[1..], New(value.value, env.variables), nodeId))
      && r.st.relations == w.st.relations && r.st.manipulators == w.st.manipulators
  {
    var s := SetId(w.st, w.attrs, nodeId, w.ctx, env);
    assert s.0.actions == w.st.actions;
  }

  /** `:if`: a missing condition or a missing parent aborts; otherwise the
      attribute becomes the conditional marker, the parent is asked to
      detach this element, and the children are walked inside this block. */
  lemma IfAttrEffect(w: AttrWalk, value: Option<string>, nodeId: string, parent: Option<string>, loc: seq<nat>, env: Env, k: string)
    ensures var r := AttrStep(w, ":if", value, nodeId, parent, loc, env);
      (r.Err? <==> value.None? || parent.None?)
      && (r.Err? ==> r.error == Panic(UnwrapNone))
      && (r.Ok? ==>
            r.value.ctx == w.ctx + [nodeId]
            && r.value.st == w.st.(manipulators := w.st.manipulators
                 + [HtmlManipulator(parent.value, RemoveChildForIfStatement(nodeId, value.value, nodeId, w.ctx, loc))])
            && GetAttr(r.value.attrs, ConditionalKey) == Some(None) && !HasKey(r.value.attrs, ":if")
            && (k != ":if" && k != ConditionalKey ==> GetAttr(r.value.attrs, k) == GetAttr(w.attrs, k)))
  {
    assert ":if"[..1] == ":";
    var removed := RemoveAttr(w.attrs, ":if");
    RemoveAttrGet(w.attrs, ":if", k);
    RemoveAttrGet(w.attrs, ":if", ":if");
    InsertAttrGet(removed, ConditionalKey, None, k);
    InsertAttrGet(removed, ConditionalKey, None, ":if");
    InsertAttrGet(removed, ConditionalKey, None, ConditionalKey);
    HasKeyIsGet(InsertAttr(removed, ConditionalKey, None), ":if");
  }

  /** `::name`: the walk goes on with the same context, the attribute is
      gone and the element has an id. */
  lemma BindAttrEffect(w: AttrWalk, key: string, value: Option<string>, nodeId: string, parent: Option<string>, loc: seq<nat>, env: Env)
    requires StartsWith(key, "::")
    ensures var r := BindStep(w, key, value, nodeId, loc, env);
      AttrStep(w, key, value, nodeId, parent, loc, env) == Ok(r) && r.ctx == w.ctx
      && !HasKey(r.attrs, key) && GetAttr(r.attrs, "id").Some?
  {
    assert key[..1] == ":" && key[0] == ':' by { assert key[..2][0] == key[0]; }
    assert key != ":if" by { assert ":if"[..2][1] == 'i'; }
    var s := SetId(w.st, w.attrs, nodeId, w.ctx, env);
    SetIdSetsId(w.st, w.attrs, nodeId, w.ctx, env, key);
    assert key != "id";
    RemoveAttrGet(s.1, key, key);
    RemoveAttrGet(s.1, key, "id");
    HasKeyIsGet(RemoveAttr(s.1, key), key);
  }

  /** `::name` with a value `v`: the recorded `input` handler writes
      `event.target.name` back into `v`, and the recorded relation shows
      `v` in the same attribute `name`. */
  lemma BindAttrRecorded(w: AttrWalk, key: string, v: string, nodeId: string, loc: seq<nat>, env: Env)
    requires StartsWith(key, "::")
    ensures var r := BindStep(w, key, Some(v), nodeId, loc, env);
      |r.st.actions| == |w.st.actions| + 1 && |r.st.relations| == |w.st.relations| + 1
      && var action := r.st.actions[|w.st.actions|];
         var rel := r.st.relations[|w.st.relations|];
         action.actionName == "input" && action.target == nodeId
         && ToString(action.action) == "(e)=>" + v + ".v = event.target." + key[2..]
         && rel.ElmAndReactiveAttributeRelation? && rel.attribute.elmId == nodeId
         && rel.attribute.reactiveAttr == [TransformTargets.ReactiveAttr(key[2..], v + ".v", [v])]
  {
    var s := SetId(w.st, w.attrs, nodeId, w.ctx, env);
    assert s.0.actions == w.st.actions && s.0.relations == w.st.relations;
  }

  /** A plain reactive attribute `:name`. */
  predicate PlainReactiveKey(key: string) {
    StartsWith(key, ":") && !StartsWith(key, "::") && key != ":if" && key != ":innerHtml" && key != ":textContent"
  }

  /** `:name`: without a value it is refused; with a value `v` the element
      gets attribute `name` holding `${e}`, where `e` is `v` rewritten, the
      `:name` attribute is gone, and some attribute relation ends with the
      entry for `name`, `e` and its variables. At most one relation is
      added. */
  lemma ReactiveAttrEffect(w: AttrWalk, key: string, value: Option<string>, nodeId: string, parent: Option<string>,
                           loc: seq<nat>, env: Env)
    requires PlainReactiveKey(key)
    ensures var r := AttrStep(w, key, value, nodeId, parent, loc, env);
      (r.Err? <==> value.None?)
      && (r.Err? ==> r.error == Rejected("value of attribute :" + key[1..] + " is null"))
      && (r.Ok? ==>
            var out := env.inHtml(value.value);
            var rels := r.value.st.relations;
            r.value.ctx == w.ctx
            && GetAttr(r.value.attrs, key[1..]) == Some(Some("${" + out.0 + "}")) && !HasKey(r.value.attrs, key)
            && |w.st.relations| <= |rels| <= |w.st.relations| + 1
            && exists j :: 0 <= j < |rels| && rels[j].ElmAndReactiveAttributeRelation?
                 && |rels[j].attribute.reactiveAttr| > 0
                 && rels[j].attribute.reactiveAttr[|rels[j].attribute.reactiveAttr| - 1] == TransformTargets.ReactiveAttr(key[1..], out.0, out.1))
  {
    assert key[0] == ':' && !StartsWith(key, "@");
    var r := AttrStep(w, key, value, nodeId, parent, loc, env);
    if value.Some? {
      var s := SetId(w.st, w.attrs, nodeId, w.ctx, env);
      var name := key[1..];
      var found := RelationFor(s.0.relations, s.2, nodeId, w.ctx, loc);
      var removed := RemoveAttr(s.1, key);
      assert name != key by { assert |name| < |key|; }
      RemoveAttrGet(s.1, key, key);
      InsertAttrGet(removed, name, Some("${" + env.inHtml(value.value).0 + "}"), name);
      InsertAttrGet(removed, name, Some("${" + env.inHtml(value.value).0 + "}"), key);
      HasKeyIsGet(r.value.attrs, key);
      var j := found.1;
      assert r.value.st.relations[j].attribute.reactiveAttr == found.0[j].attribute.reactiveAttr + [TransformTargets.ReactiveAttr(name, env.inHtml(value.value).0, env.inHtml(value.value).1)];
    }
  }

  /** An element whose `id` already names an attribute relation adds the
      entry to that relation and adds no relation. */
  lemma ReactiveAttrJoinsRelation(w: AttrWalk, key: string, v: string, nodeId: string, parent: Option<string>,
                                  loc: seq<nat>, env: Env, id: string, j: nat)
    requires PlainReactiveKey(key)
    requires GetAttr(w.attrs, "id") == Some(Some(id)) && FindReactiveAttrFromId(id, w.st.relations) == Some(j)
    ensures var r := AttrStep(w, key, Some(v), nodeId, parent, loc, env);
      var out := env.inHtml(v);
      r.Ok? && |r.value.st.relations| == |w.st.relations|
      && r.value.st.relations[j].attribute.reactiveAttr
           == w.st.relations[j].attribute.reactiveAttr + [TransformTargets.ReactiveAttr(key[1..], out.0, out.1)]
      && forall i :: 0 <= i < |w.st.relations| && i != j ==> r.value.st.relations[i] == w.st.relations[i]
  {
    assert key[0] == ':' && !StartsWith(key, "@");
    assert AttrStep(w, key, Some(v), nodeId, parent, loc, env) == ReactiveAttrStep(w, key, Some(v), nodeId, loc, env);
    SetIdFrame(w.st, w.attrs, nodeId, w.ctx, env);
    assert SetId(w.st, w.attrs, nodeId, w.ctx, env).2 == id;
  }

  /** The relation is looked up by the element's `id` but created under the
      node's uuid. When the lookup by id fails, an empty relation for the
      uuid is added; if the uuid already had an attribute relation, the
      entry goes to that earlier one and the added relation stays empty. */
  lemma ReactiveAttrFallback(w: AttrWalk, key: string, v: string, nodeId: string, parent: Option<string>,
                             loc: seq<nat>, env: Env, j: nat)
    requires PlainReactiveKey(key)
    requires FindReactiveAttrFromId(SetId(w.st, w.attrs, nodeId, w.ctx, env).2, w.st.relations).None?
    requires FindReactiveAttrFromId(nodeId, w.st.relations) == Some(j)
    ensures var r := AttrStep(w, key, Some(v), nodeId, parent, loc, env);
      var out := env.inHtml(v);
      var n := |w.st.relations|;
      r.Ok? && |r.value.st.relations| == n + 1
      && r.value.st.relations[j].attribute.reactiveAttr
           == w.st.relations[j].attribute.reactiveAttr + [TransformTargets.ReactiveAttr(key[1..], out.0, out.1)]
      && r.value.st.relations[n] == NodeAndReactiveInfo.ElmAndReactiveAttributeRelation(
           ElmAndReactiveAttributeRelation.ElmAndReactiveAttributeRelation(nodeId, [], w.ctx, loc))
  {
    assert key[0] == ':' && !StartsWith(key, "@");
    var s := SetId(w.st, w.attrs, nodeId, w.ctx, env);
    var pushed := s.0.relations + [NodeAndReactiveInfo.ElmAndReactiveAttributeRelation(
      ElmAndReactiveAttributeRelation.ElmAndReactiveAttributeRelation(nodeId, [], w.ctx, loc))];
    FindPrefix(nodeId, w.st.relations, pushed);
  }

  /** The first match in a list is the first match in any extension. */
  lemma {:induction false} FindPrefix(id: string, infos: seq<NodeAndReactiveInfo>, longer: seq<NodeAndReactiveInfo>)
    requires infos <= longer && FindReactiveAttrFromId(id, infos).Some?
    ensures FindReactiveAttrFromId(id, longer) == FindReactiveAttrFromId(id, infos)
    decreases |infos|
  {
    if !IsAttrRelationOf(infos[0], id) {
      assert infos[1..] <= longer[1..];
      FindPrefix(id, infos[1..], longer[1..]);
    }
  }

  /** The attribute keys stay unique through every step of the walk. */
  lemma AttrStepUnique(w: AttrWalk, key: string, value: Option<string>, nodeId: string, parent: Option<string>, loc: seq<nat>, env: Env)
    requires UniqueKeys(w.attrs)
    ensures var r := AttrStep(w, key, value, nodeId, parent, loc, env);
      r.Ok? ==> UniqueKeys(r.value.attrs)
  {
    var s := SetId(w.st, w.attrs, nodeId, w.ctx, env);
    InsertAttrUnique(w.attrs, "id", Some(env.freshId(w.st.issued)));
    assert UniqueKeys(s.1);
    RemoveAttrUnique(s.1, key);
    RemoveAttrUnique(w.attrs, key);
    InsertAttrUnique(RemoveAttr(w.attrs, key), ConditionalKey, None);
    if StartsWith(key, ":") && !StartsWith(key, "@") && key != ":if" && !StartsWith(key, "::") && value.Some? {
      InsertAttrUnique(RemoveAttr(s.1, key), key[1..], Some("${" + env.inHtml(value.value).0 + "}"));
    }
  }

  lemma {:induction false} AttrFoldUnique(w0: AttrWalk, snapshot: Attributes, k: nat, nodeId: string, parent: Option<string>,
                                          loc: seq<nat>, env: Env)
    requires k <= |snapshot| && UniqueKeys(w0.attrs)
    ensures var r := AttrFold(w0, snapshot, k, nodeId, parent, loc, env);
      r.Ok? ==> UniqueKeys(r.value.attrs)
    decreases k
  {
    if k > 0 {
      AttrFoldUnique(w0, snapshot, k - 1, nodeId, parent, loc, env);
      var prev := AttrFold(w0, snapshot, k - 1, nodeId, parent, loc, env);
      if prev.Ok? {
        AttrStepUnique(prev.value, snapshot[k - 1].0, snapshot[k - 1].1, nodeId, parent, loc, env);
      }
    }
  }

  // ---------------------------------------------------------------------
  // Text nodes

  /** A text without `${` is kept as it is and queues nothing. */
  lemma StaticTextUntouched(st: State, text: string, nodeId: string, parent: Option<string>, ctx: seq<string>,
                            loc: seq<nat>, siblings: nat, env: Env)
    requires forall p :: 0 <= p ==> !OccursAt(text, UtilsText.OpenTag, p)
    ensures UtilsText.Closed(text, 0)
    ensures TextStep(st, text, nodeId, parent, ctx, loc, siblings, env) == Ok((st, Node(nodeId, TextNode(text))))
  {
    TextWithoutBindings(text, env.inHtml);
  }

  /** A text whose bindings read some variable queues exactly one edit for
      its parent, at its own location, carrying those variables in order:
      an id for the parent when the text is an only child, its removal
      otherwise. At the root it aborts. */
  lemma ReactiveTextQueued(st: State, text: string, nodeId: string, parent: Option<string>, ctx: seq<string>,
                           loc: seq<nat>, siblings: nat, env: Env)
    requires UtilsText.Closed(text, 0)
    requires BindingDeps(UtilsText.Split(text, 0).0, env.inHtml) != []
    ensures var r := TextStep(st, text, nodeId, parent, ctx, loc, siblings, env);
      (r.Err? <==> parent.None?)
      && (r.Ok? ==>
            var deps := BindingDeps(UtilsText.Split(text, 0).0, env.inHtml);
            var q := r.value.0.manipulators;
            r.value.0 == st.(manipulators := q) && |q| == |st.manipulators| + 1 && q[..|st.manipulators|] == st.manipulators
            && q[|st.manipulators|].targetUuid == parent.value && ManipLoc(q[|st.manipulators|]) == loc
            && (siblings <= 1 <==> q[|st.manipulators|].manipulation.SetIdForReactiveContent?)
            && (siblings <= 1 ==> q[|st.manipulators|].manipulation.dependentVars == deps)
            && (siblings > 1 ==> q[|st.manipulators|].manipulation.dependentVars == deps
                                 && q[|st.manipulators|].manipulation.childUuid == nodeId))
  {
    TextDependencies(text, env.inHtml);
  }

  // ---------------------------------------------------------------------
  // Applying queued edits

  /** Giving an element an id touches only the recorded ids and the count
      of fresh ids drawn, and only appends to the recorded ids. */
  lemma SetIdFrame(st: State, attrs: Attributes, nodeId: string, ctx: seq<string>, env: Env)
    ensures var r := SetId(st, attrs, nodeId, ctx, env);
      r.0 == st.(neededIds := r.0.neededIds, issued := r.0.issued)
      && |st.neededIds| <= |r.0.neededIds| && r.0.neededIds[..|st.neededIds|] == st.neededIds
  {
    SetIdCases(st, attrs, nodeId, ctx, env);
  }

  /** Choosing an anchor touches only the recorded ids and the count of
      fresh ids drawn, and no child's uuid. */
  lemma AnchorFrame(st: State, el: Element, q: Option<nat>, ctx: seq<string>, env: Env)
    requires q.Some? ==> 1 <= q.value <= |el.children| && IsElement(el.children[q.value - 1])
    ensures var r := Anchor(st, el, q, ctx, env);
      r.0 == st.(neededIds := r.0.neededIds, issued := r.0.issued)
      && |st.neededIds| <= |r.0.neededIds| && r.0.neededIds[..|st.neededIds|] == st.neededIds
      && forall i :: 0 <= i < |el.children| ==> r.1.children[i].uuid == el.children[i].uuid
  {
    if q.Some? {
      var child := el.children[q.value - 1];
      SetIdFrame(st, child.content.element.attributes, child.uuid, ctx, env);
    }
  }

  /** Detaching an if-block or a reactive text fails exactly when no child
      has the uuid the edit names. */
  lemma RemovalFails(st: State, el: Element, m: HtmlManipulation, nodeId: string, ifBlkCtx: seq<string>, env: Env)
    requires m.RemoveChildForIfStatement? || m.RemoveChildTextNode?
    ensures var r := if m.RemoveChildForIfStatement? then IfRemovalStep(st, el, m, nodeId, ifBlkCtx, env)
                     else TextRemovalStep(st, el, m, nodeId, ifBlkCtx, env);
      r.Err? <==> forall i :: 0 <= i < |el.children| ==> el.children[i].uuid != m.childUuid
  {
    var s := SetId(st, el.attributes, nodeId, m.ctx, env);
    assert el.(attributes := s.1).children == el.children;
  }

  /** After a successful detach the element has one child fewer and an id,
      and when an element followed the detached child, the anchor is an
      element child that carries the anchor's uuid. */
  lemma IfRemovalTree(st: State, el: Element, m: HtmlManipulation, nodeId: string, ifBlkCtx: seq<string>, env: Env)
    requires m.RemoveChildForIfStatement?
    requires IfRemovalStep(st, el, m, nodeId, ifBlkCtx, env).Ok?
    ensures var r := IfRemovalStep(st, el, m, nodeId, ifBlkCtx, env).value;
      var info := r.0.ifBlocks[|r.0.ifBlocks| - 1];
      |r.0.ifBlocks| > 0
      && |r.1.children| == |el.children| - 1 && r.1.name == el.name && GetAttr(r.1.attributes, "id").Some?
      && (info.targetAnchorId.Some? ==>
            exists i :: 0 <= i < |r.1.children| && r.1.children[i].uuid == info.targetAnchorId.value && IsElement(r.1.children[i]))
  {
    var s := SetId(st, el.attributes, nodeId, m.ctx, env);
    SetIdSetsId(st, el.attributes, nodeId, m.ctx, env, "id");
    var rm := RemoveChild(el.(attributes := s.1), m.childUuid).value;
    var a := Anchor(s.0, rm.rest, rm.nextElementIndex, ifBlkCtx, env);
    if rm.nextElementIndex.Some? {
      var q := rm.nextElementIndex.value;
      assert a.1.children[q - 1].uuid == a.2.value;
    }
  }

  /** When the child is there, the detach succeeds and records one
      if-block, changing nothing else but the recorded ids and the fresh-id
      count: the block is the child with the edit's uuid, at the distance
      the removal measured, with a reference text node exactly when that
      distance is not 1, and an anchor exactly when an element follows. */
  lemma IfRemovalRecord(st: State, el: Element, m: HtmlManipulation, nodeId: string, ifBlkCtx: seq<string>, env: Env, rm: HtmlTree.Removal)
    requires m.RemoveChildForIfStatement?
    requires RemoveChild(el, m.childUuid) == Ok(rm)
    ensures var r := IfRemovalStep(st, el, m, nodeId, ifBlkCtx, env);
      r.Ok? && |r.value.0.ifBlocks| == |st.ifBlocks| + 1
      && var info := r.value.0.ifBlocks[|st.ifBlocks|];
         r.value.0 == st.(neededIds := r.value.0.neededIds, issued := r.value.0.issued, ifBlocks := st.ifBlocks + [info])
         && r.value.0.neededIds[..|st.neededIds|] == st.neededIds
         && info.parentId == nodeId && info.elm.uuid == m.childUuid && info.targetIfBlkId == m.childUuid
         && info.ifBlockId == m.blockId && info.distanceToNextElm == rm.distance && rm.distance >= 1
         && (info.refTextNodeId.Some? <==> rm.distance != 1)
         && (info.targetAnchorId.Some? <==> rm.nextElementIndex.Some?)
  {
    var s := SetId(st, el.attributes, nodeId, m.ctx, env);
    SetIdFrame(st, el.attributes, nodeId, m.ctx, env);
    var rm' := RemoveChild(el.(attributes := s.1), m.childUuid).value;
    assert rm'.nextElementIndex == rm.nextElementIndex && rm'.distance == rm.distance && rm'.detached == rm.detached;
    AnchorFrame(s.0, rm'.rest, rm'.nextElementIndex, ifBlkCtx, env);
  }

  /** After a successful removal of a reactive text sibling the element has
      one child fewer and an id. */
  lemma TextRemovalTree(st: State, el: Element, m: HtmlManipulation, nodeId: string, ifBlkCtx: seq<string>, env: Env)
    requires m.RemoveChildTextNode?
    requires TextRemovalStep(st, el, m, nodeId, ifBlkCtx, env).Ok?
    ensures var r := TextRemovalStep(st, el, m, nodeId, ifBlkCtx, env).value;
      |r.1.children| == |el.children| - 1 && r.1.name == el.name && GetAttr(r.1.attributes, "id").Some?
  {
    SetIdSetsId(st, el.attributes, nodeId, m.ctx, env, "id");
  }

  /** When the text node is there, its removal succeeds and records it
      once to be rendered by hand (at the distance the removal measured,
      with an anchor exactly when an element followed it) and once as a
      relation of the text node; nothing else changes but the recorded ids
      and the fresh-id count. */
  lemma TextRemovalRecord(st: State, el: Element, m: HtmlManipulation, nodeId: string, ifBlkCtx: seq<string>, env: Env, rm: HtmlTree.Removal)
    requires m.RemoveChildTextNode?
    requires RemoveChild(el, m.childUuid) == Ok(rm)
    ensures var r := TextRemovalStep(st, el, m, nodeId, ifBlkCtx, env);
      r.Ok? && |r.value.0.textRenderers| == |st.textRenderers| + 1 && |r.value.0.relations| == |st.relations| + 1
      && var t := r.value.0.textRenderers[|st.textRenderers|];
         var rel := r.value.0.relations[|st.relations|];
         r.value.0 == st.(neededIds := r.value.0.neededIds, issued := r.value.0.issued,
                          textRenderers := st.textRenderers + [t], relations := st.relations + [rel])
         && r.value.0.neededIds[..|st.neededIds|] == st.neededIds
         && t.parentId == nodeId && t.textNodeId == m.childUuid && t.content == m.content
         && t.distanceToNextElm == rm.distance && (t.targetAnchorId.Some? <==> rm.nextElementIndex.Some?)
         && rel == NodeAndReactiveInfo.TextAndVariableContentRelation(
                     TextAndVariableContentRelation.TextAndVariableContentRelation(m.childUuid, m.dependentVars, m.content, m.ctx, m.elmLoc))
  {
    var s := SetId(st, el.attributes, nodeId, m.ctx, env);
    SetIdFrame(st, el.attributes, nodeId, m.ctx, env);
    var rm' := RemoveChild(el.(attributes := s.1), m.childUuid).value;
    assert rm'.nextElementIndex == rm.nextElementIndex && rm'.distance == rm.distance;
    AnchorFrame(s.0, rm'.rest, rm'.nextElementIndex, ifBlkCtx, env);
  }

  /** Giving a reactive only child's parent an id records one relation
      showing the text as the parent's content. */
  lemma ContentIdRecord(st: State, el: Element, m: HtmlManipulation, nodeId: string, env: Env)
    requires m.SetIdForReactiveContent?
    ensures var r := ContentIdStep(st, el, m, nodeId, env);
      var rel := r.0.relations[|r.0.relations| - 1];
      r.1.children == el.children && GetAttr(r.1.attributes, "id").Some?
      && r.0 == st.(neededIds := r.0.neededIds, issued := r.0.issued, relations := st.relations + [rel])
      && rel == ElmAndVariableRelation(ElmAndVariableContentRelation(nodeId, m.dependentVars, m.text, m.ctx, m.elmLoc))
  {
    SetIdFrame(st, el.attributes, nodeId, m.ctx, env);
    SetIdSetsId(st, el.attributes, nodeId, m.ctx, env, "id");
  }

  /** Applying the queue never changes the queue. */
  lemma {:induction false} ApplyAllKeepsQueue(st: State, el: Element, manips: seq<HtmlManipulator>, k: nat, nodeId: string,
                                              ifBlkCtx: seq<string>, env: Env)
    requires k <= |manips|
    ensures var r := ApplyAll(st, el, manips, k, nodeId, ifBlkCtx, env);
      r.Ok? ==> r.value.0.manipulators == st.manipulators
    decreases k
  {
    if k > 0 {
      ApplyAllKeepsQueue(st, el, manips, k - 1, nodeId, ifBlkCtx, env);
      var prev := ApplyAll(st, el, manips, k - 1, nodeId, ifBlkCtx, env);
      if prev.Ok? {
        ApplyStepKeepsQueue(prev.value.0, prev.value.1, manips[k - 1], nodeId, ifBlkCtx, env);
      }
    }
  }

  lemma ApplyStepKeepsQueue(st: State, el: Element, m: HtmlManipulator, nodeId: string, ifBlkCtx: seq<string>, env: Env)
    ensures var r := ApplyStep(st, el, m, nodeId, ifBlkCtx, env);
      r.Ok? ==> r.value.0.manipulators == st.manipulators
  {
    if m.targetUuid == nodeId {
      var mm := m.manipulation;
      match mm
      case RemoveChildForIfStatement(_, _, _, _, _) =>
        if RemoveChild(el, mm.childUuid).Ok? {
          IfRemovalRecord(st, el, mm, nodeId, ifBlkCtx, env, RemoveChild(el, mm.childUuid).value);
        } else {
          RemovalFails(st, el, mm, nodeId, ifBlkCtx, env);
        }
      case SetIdForReactiveContent(_, _, _, _) =>
        ContentIdRecord(st, el, mm, nodeId, env);
      case RemoveChildTextNode(_, _, _, _, _) =>
        if RemoveChild(el, mm.childUuid).Ok? {
          TextRemovalRecord(st, el, mm, nodeId, ifBlkCtx, env, RemoveChild(el, mm.childUuid).value);
        } else {
          RemovalFails(st, el, mm, nodeId, ifBlkCtx, env);
        }
    }
  }

  /** After an element is walked the whole queue is ordered by location. */
  lemma ElementLeavesQueueSorted(st: State, node: Node, parent: Option<string>, ctx: seq<string>, loc: seq<nat>, siblings: nat, env: Env)
    requires TextsClosed(node) && node.content.Element?
    ensures var r := Check(st, node, parent, ctx, loc, siblings, env);
      r.Ok? ==> Sorting.SortedBy(r.value.0.manipulators, ManipLoc)
  {
    var el := node.content.element;
    var r := Check(st, node, parent, ctx, loc, siblings, env);
    if r.Ok? {
      var w := AttrFold(AttrWalk(st, el.attributes, ctx), el.attributes, |el.attributes|, node.uuid, parent, loc, env).value;
      var c := CheckChildren(w.st, node, |el.children|, w.ctx, loc, env).value;
      var sorted := c.0.(manipulators := Sorting.SortByKey(c.0.manipulators, ManipLoc));
      ApplyAllKeepsQueue(sorted, Element.Element(el.name, w.attrs, c.1), sorted.manipulators, |sorted.manipulators|, node.uuid, ctx, env);
      Sorting.SortByKeySorted(c.0.manipulators, ManipLoc);
    }
  }
}
