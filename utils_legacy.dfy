/** The earlier markup walk kept in `transformers/utils.rs`
    (`check_html_elms`, lines 171-291): it handles only `@event` attributes
    and reactive text, returns its own lists instead of pushing into the
    caller's, and records an id in each call's own list. Node ids come from
    a random generator (`gen_nanoid`), modelled as an oracle `freshId`
    together with the number of ids drawn so far. */
module LegacyMarkup {
  import opened Wrappers
  import opened Strings
  import opened HtmlTree
  import UtilsText
  import Markup

  /** utils.rs's own records: an action keeps the handler text as written,
      an id name carries no context, and a relation no location. */
  datatype ActionAndTarget = ActionAndTarget(actionName: string, action: string, target: string)
  datatype NeededIdName = NeededIdName(idName: string, toDelete: bool)
  datatype ElmAndVariableRelation = ElmAndVariableRelation(elmId: string, variableNames: seq<string>, contentOfElement: string)

  /** The three lists one call of the walk builds, and the count of ids
      drawn from the generator (shared by all calls). */
  datatype Acc = Acc(actions: seq<ActionAndTarget>, needed: seq<NeededIdName>, relations: seq<ElmAndVariableRelation>, issued: nat)

  /** What one call returns: the rewritten nodes, its lists, and the
      dependencies of its last node when it is its only node and a text. */
  datatype Out = Out(nodes: seq<Node>, acc: Acc, depVars: Option<seq<string>>)

  predicate HasIdName(needed: seq<NeededIdName>, id: string) {
    exists i :: 0 <= i < |needed| && needed[i].idName == id
  }

  /** The id logic written out twice in the walk: an element with an id
      keeps it and records it (to be kept) unless this call's list has it;
      one without gets the next generated id, recorded to be deleted. */
  function SetId(acc: Acc, attrs: Attributes, freshId: nat -> string): (r: (Acc, Attributes, string))
    ensures r.0.actions == acc.actions && r.0.relations == acc.relations
  {
    match GetAttr(attrs, "id")
    case Some(Some(id)) =>
      if HasIdName(acc.needed, id) then (acc, attrs, id)
      else (acc.(needed := acc.needed + [NeededIdName(id, false)]), attrs, id)
    case _ =>
      var newId := freshId(acc.issued);
      (acc.(needed := acc.needed + [NeededIdName(newId, true)], issued := acc.issued + 1),
       InsertAttr(attrs, "id", Some(newId)), newId)
  }

  /** The attribute loop over the first `k` entries of the snapshot taken
      before it: each `@name` attribute gives the element an id, records
      the handler (when it has a value) as action `name` on that id, and is
      removed; other attributes are left alone. */
  function EventFold(acc: Acc, attrs: Attributes, snapshot: Attributes, k: nat, freshId: nat -> string): (Acc, Attributes)
    requires k <= |snapshot|
    decreases k
  {
    if k == 0 then (acc, attrs)
    else
      var prev := EventFold(acc, attrs, snapshot, k - 1, freshId);
      var (key, value) := snapshot[k - 1];
      if !StartsWith(key, "@") then prev
      else
        var s := SetId(prev.0, prev.1, freshId);
        var pushed := if value.Some? then [ActionAndTarget(key[1..], value.value, s.2)] else [];
        (s.0.(actions := s.0.actions + pushed), RemoveAttr(s.1, key))
  }

  /** The walk keeps every node's uuid and kind. */
  predicate SameKind(a: Node, b: Node) {
    a.uuid == b.uuid && a.content.Element? == b.content.Element? && a.content.TextNode? == b.content.TextNode?
  }

  predicate ForestClosed(nodes: seq<Node>) {
    forall i :: 0 <= i < |nodes| ==> Markup.TextsClosed(nodes[i])
  }

  /** The walk over the first `k` nodes of a list, with fresh lists. */
  function Walk(vars: seq<string>, nodes: seq<Node>, k: nat, freshId: nat -> string, issued: nat): (r: Out)
    requires k <= |nodes| && ForestClosed(nodes)
    ensures |r.nodes| == k && forall i :: 0 <= i < k ==> SameKind(r.nodes[i], nodes[i])
    decreases nodes, 1, k
  {
    if k == 0 then Out([], Acc([], [], [], issued), None)
    else
      var o := Walk(vars, nodes, k - 1, freshId, issued);
      var s := NodeStep(vars, nodes, k - 1, o.acc, freshId);
      Out(o.nodes + [s.0], s.1, s.2)
  }

  /** One node of the list: an element has its events handled and its
      children walked (their lists are appended to this call's), and when
      its children report dependencies it gets an id, and a relation when
      its only child is a text; a text is rewritten and reports its
      dependencies when it is the list's only node. */
  function NodeStep(vars: seq<string>, nodes: seq<Node>, i: nat, acc: Acc, freshId: nat -> string): (r: (Node, Acc, Option<seq<string>>))
    requires i < |nodes| && ForestClosed(nodes)
    ensures SameKind(r.0, nodes[i])
    decreases nodes, 0, i
  {
    var node := nodes[i];
    match node.content
    case Element(el) =>
      assert Markup.TextsClosed(node);
      assert ForestClosed(el.children);
      var ev := EventFold(acc, el.attributes, el.attributes, |el.attributes|, freshId);
      var c := Walk(vars, el.children, |el.children|, freshId, ev.0.issued);
      var joined := Acc(ev.0.actions + c.acc.actions, ev.0.needed + c.acc.needed, ev.0.relations + c.acc.relations, c.acc.issued);
      ElementTail(node.uuid, el.name, ev.1, c, joined, freshId)
    case TextNode(text) =>
      assert Markup.TextsClosed(node);
      var r := UtilsText.Scan(text, 0, UtilsText.AppendVTo(vars), "", []);
      (Node(node.uuid, TextNode(r.0)), acc, if |nodes| == 1 then Some(r.1) else None)
    case Comment(_) => (node, acc, None)
  }

  /** After the children: a non-empty dependency list gives the element an
      id, and a relation when its only (rewritten) child is a text. */
  function ElementTail(uuid: string, name: string, attrs: Attributes, c: Out, joined: Acc, freshId: nat -> string): (Node, Acc, Option<seq<string>>) {
    if c.depVars.Some? && |c.depVars.value| > 0 then
      var s := SetId(joined, attrs, freshId);
      var rel := if |c.nodes| == 1 && c.nodes[0].content.TextNode?
                 then [ElmAndVariableRelation(s.2, c.depVars.value, c.nodes[0].content.text)] else [];
      (Node(uuid, NodeContent.Element(Element.Element(name, s.1, c.nodes))), s.0.(relations := s.0.relations + rel), None)
    else (Node(uuid, NodeContent.Element(Element.Element(name, attrs, c.nodes))), joined, None)
  }

  // ---------------------------------------------------------------------
  // The walk as the source performs it

  method SetIdForNeededElm(acc: Acc, attrs: Attributes, freshId: nat -> string) returns (acc': Acc, attrs': Attributes, id: string)
    ensures (acc', attrs', id) == SetId(acc, attrs, freshId)
    ensures GetAttr(attrs', "id") == Some(Some(id)) && HasIdName(acc'.needed, id)
  {
    SetIdRecords(acc, attrs, freshId);
    var current := GetAttr(attrs, "id");
    if current.Some? && current.value.Some? {
      id := current.value.value;
      acc', attrs' := acc, attrs;
      var known := false;
      var j := 0;
      while j < |acc.needed|
        invariant j <= |acc.needed|
        invariant known <==> exists i :: 0 <= i < j && acc.needed[i].idName == id
      {
        known := known || acc.needed[j].idName == id;
        j := j + 1;
      }
      if !known {
        acc' := acc.(needed := acc.needed + [NeededIdName(id, false)]);
      }
    } else {
      id := freshId(acc.issued);
      attrs' := InsertAttr(attrs, "id", Some(id));
      acc' := acc.(needed := acc.needed + [NeededIdName(id, true)], issued := acc.issued + 1);
    }
  }

  /** The loop over a copy of the attributes, removing `@` entries from
      the live mapping. */
  method EventAttributes(acc: Acc, attrs: Attributes, freshId: nat -> string) returns (acc': Acc, attrs': Attributes)
    ensures (acc', attrs') == EventFold(acc, attrs, attrs, |attrs|, freshId)
  {
    var snapshot := attrs;
    acc', attrs' := acc, attrs;
    for k := 0 to |snapshot|
      invariant (acc', attrs') == EventFold(acc, attrs, snapshot, k, freshId)
    {
      var key, value := snapshot[k].0, snapshot[k].1;
      if StartsWith(key, "@") {
        ghost var s := SetId(acc', attrs', freshId);
        var id;
        acc', attrs', id := SetIdForNeededElm(acc', attrs', freshId);
        assert (acc', attrs', id) == s;
        if value.Some? {
          acc' := acc'.(actions := acc'.actions + [ActionAndTarget(key[1..], value.value, id)]);
        } else {
          assert acc'.actions + [] == acc'.actions;
        }
        attrs' := RemoveAttr(attrs', key);
      }
    }
  }

  /** `check_html_elms` on a list of nodes: returns the rewritten nodes,
      the lists built for them and the dependencies reported by the last
      node. Texts must be closed: the text scan loops forever otherwise. */
  method CheckHtmlElms(vars: seq<string>, nodes: seq<Node>, freshId: nat -> string, issued: nat) returns (out: Out)
    requires ForestClosed(nodes)
    ensures out == Walk(vars, nodes, |nodes|, freshId, issued)
    decreases nodes, 1
  {
    out := Out([], Acc([], [], [], issued), None);
    for k := 0 to |nodes|
      invariant out == Walk(vars, nodes, k, freshId, issued)
    {
      var node', acc', dep := CheckNode(vars, nodes, k, out.acc, freshId);
      out := Out(out.nodes + [node'], acc', dep);
    }
  }

  method CheckNode(vars: seq<string>, nodes: seq<Node>, i: nat, acc: Acc, freshId: nat -> string)
    returns (node': Node, acc': Acc, dep: Option<seq<string>>)
    requires i < |nodes| && ForestClosed(nodes)
    ensures (node', acc', dep) == NodeStep(vars, nodes, i, acc, freshId)
    decreases nodes, 0
  {
    var node := nodes[i];
    match node.content
    case Element(el) =>
      assert Markup.TextsClosed(node);
      assert ForestClosed(el.children);
      var evAcc, attrs := EventAttributes(acc, el.attributes, freshId);
      var c := CheckHtmlElms(vars, el.children, freshId, evAcc.issued);
      acc' := Acc(evAcc.actions + c.acc.actions, evAcc.needed + c.acc.needed, evAcc.relations + c.acc.relations, c.acc.issued);
      dep := None;
      if c.depVars.Some? && |c.depVars.value| > 0 {
        var id;
        acc', attrs, id := SetIdForNeededElm(acc', attrs, freshId);
        if |c.nodes| == 1 && c.nodes[0].content.TextNode? {
          acc' := acc'.(relations := acc'.relations + [ElmAndVariableRelation(id, c.depVars.value, c.nodes[0].content.text)]);
        }
      }
      node' := Node(node.uuid, NodeContent.Element(Element.Element(el.name, attrs, c.nodes)));
    case TextNode(text) =>
      assert Markup.TextsClosed(node);
      var newText, deps := UtilsText.ReplaceTextWithReactiveValue(text, vars);
      node' := Node(node.uuid, TextNode(newText));
      acc' := acc;
      dep := if |nodes| == 1 then Some(deps) else None;
    case Comment(_) =>
      node', acc', dep := node, acc, None;
  }

  // ---------------------------------------------------------------------
  // Properties

  /** Afterwards the element's `id` attribute is the returned id and this
      call's list records it; other attributes are untouched. */
  lemma SetIdRecords(acc: Acc, attrs: Attributes, freshId: nat -> string)
    ensures var r := SetId(acc, attrs, freshId);
      GetAttr(r.1, "id") == Some(Some(r.2)) && HasIdName(r.0.needed, r.2)
      && |acc.needed| <= |r.0.needed| && r.0.needed[..|acc.needed|] == acc.needed
      && (forall k :: k != "id" ==> GetAttr(r.1, k) == GetAttr(attrs, k))
  {
    var r := SetId(acc, attrs, freshId);
    var n := |acc.needed|;
    match GetAttr(attrs, "id")
    case Some(Some(id)) =>
      if !HasIdName(acc.needed, id) {
        assert r.0.needed[n].idName == id;
      }
    case _ =>
      var newId := freshId(acc.issued);
      forall k | k != "id" ensures GetAttr(r.1, k) == GetAttr(attrs, k) {
        InsertAttrGet(attrs, "id", Some(newId), k);
      }
      InsertAttrGet(attrs, "id", Some(newId), "id");
      assert r.0.needed[n].idName == newId;
  }

  /** One `@` step: the key is gone, and apart from `id` no key is added. */
  lemma EventStepKeys(acc: Acc, p: Attributes, key: string, freshId: nat -> string)
    ensures var r := RemoveAttr(SetId(acc, p, freshId).1, key);
      !HasKey(r, key) && forall key' :: key' != "id" && HasKey(r, key') ==> HasKey(p, key')
  {
    SetIdRecords(acc, p, freshId);
    var s := SetId(acc, p, freshId);
    var r := RemoveAttr(s.1, key);
    RemoveAttrGet(s.1, key, key);
    forall key' | key' != "id" && HasKey(r, key') ensures HasKey(p, key') {
      RemoveAttrGet(s.1, key, key');
      assert GetAttr(s.1, key') == GetAttr(p, key');
    }
  }

  /** Only `@` attributes are removed, and `id` is the only key added. */
  lemma {:induction false} EventFoldKeys(acc: Acc, attrs: Attributes, snapshot: Attributes, k: nat, freshId: nat -> string)
    requires k <= |snapshot|
    ensures var r := EventFold(acc, attrs, snapshot, k, freshId).1;
      (forall key :: key != "id" && HasKey(r, key) ==> HasKey(attrs, key))
      && (forall j :: 0 <= j < k && StartsWith(snapshot[j].0, "@") ==> !HasKey(r, snapshot[j].0))
    decreases k
  {
    if k > 0 {
      EventFoldKeys(acc, attrs, snapshot, k - 1, freshId);
      var prev := EventFold(acc, attrs, snapshot, k - 1, freshId);
      var key := snapshot[k - 1].0;
      if StartsWith(key, "@") {
        EventStepKeys(prev.0, prev.1, key, freshId);
        var r := EventFold(acc, attrs, snapshot, k, freshId).1;
        assert r == RemoveAttr(SetId(prev.0, prev.1, freshId).1, key);
        forall j | 0 <= j < k && StartsWith(snapshot[j].0, "@") ensures !HasKey(r, snapshot[j].0) {
          assert snapshot[j].0[0] == '@';
        }
      }
    }
  }

  /** No attribute key starts with `@`. */
  ghost predicate NoEventKey(attrs: Attributes) {
    forall key :: HasKey(attrs, key) ==> !StartsWith(key, "@")
  }

  /** No element of the tree keeps an `@` attribute. */
  ghost predicate NoEventAttrs(node: Node)
    decreases node
  {
    match node.content
    case Element(el) => NoEventKey(el.attributes) && forall i :: 0 <= i < |el.children| ==> NoEventAttrs(el.children[i])
    case _ => true
  }

  ghost predicate NoEventAttrsIn(nodes: seq<Node>) {
    forall i :: 0 <= i < |nodes| ==> NoEventAttrs(nodes[i])
  }

  /** The attribute loop leaves no `@` attribute. */
  lemma EventFoldClears(acc: Acc, attrs: Attributes, freshId: nat -> string)
    ensures NoEventKey(EventFold(acc, attrs, attrs, |attrs|, freshId).1)
  {
    EventFoldKeys(acc, attrs, attrs, |attrs|, freshId);
    var r := EventFold(acc, attrs, attrs, |attrs|, freshId).1;
    forall key | HasKey(r, key) ensures !StartsWith(key, "@") {
      if key != "id" {
        assert HasKey(attrs, key);
        var j :| 0 <= j < |attrs| && attrs[j].0 == key;
      } else {
        assert key[0] != '@';
      }
    }
  }

  /** Giving an element an id adds no `@` attribute. */
  lemma SetIdKeepsNoEventKey(acc: Acc, attrs: Attributes, freshId: nat -> string)
    requires NoEventKey(attrs)
    ensures NoEventKey(SetId(acc, attrs, freshId).1)
  {
    SetIdRecords(acc, attrs, freshId);
    var r := SetId(acc, attrs, freshId).1;
    forall key | HasKey(r, key) ensures !StartsWith(key, "@") {
      if key == "id" {
        assert key[0] != '@';
      } else {
        assert GetAttr(r, key) == GetAttr(attrs, key);
      }
    }
  }

  /** After the walk no element of the returned nodes has an `@`
      attribute: every event attribute was turned into an action. */
  lemma {:induction false} WalkNoEventAttrs(vars: seq<string>, nodes: seq<Node>, k: nat, freshId: nat -> string, issued: nat)
    requires k <= |nodes| && ForestClosed(nodes)
    ensures NoEventAttrsIn(Walk(vars, nodes, k, freshId, issued).nodes)
    decreases nodes, 1, k
  {
    if k > 0 {
      WalkNoEventAttrs(vars, nodes, k - 1, freshId, issued);
      var o := Walk(vars, nodes, k - 1, freshId, issued);
      NodeStepNoEventAttrs(vars, nodes, k - 1, o.acc, freshId);
      var all := Walk(vars, nodes, k, freshId, issued).nodes;
      assert all == o.nodes + [NodeStep(vars, nodes, k - 1, o.acc, freshId).0];
      forall i | 0 <= i < |all| ensures NoEventAttrs(all[i]) {
        if i < |o.nodes| {
          assert all[i] == o.nodes[i];
        } else {
          assert all[i] == NodeStep(vars, nodes, k - 1, o.acc, freshId).0;
        }
      }
    }
  }

  lemma {:induction false} NodeStepNoEventAttrs(vars: seq<string>, nodes: seq<Node>, i: nat, acc: Acc, freshId: nat -> string)
    requires i < |nodes| && ForestClosed(nodes)
    ensures NoEventAttrs(NodeStep(vars, nodes, i, acc, freshId).0)
    decreases nodes, 0, i
  {
    var node := nodes[i];
    match node.content
    case Element(el) =>
      assert Markup.TextsClosed(node);
      assert ForestClosed(el.children);
      var ev := EventFold(acc, el.attributes, el.attributes, |el.attributes|, freshId);
      EventFoldClears(acc, el.attributes, freshId);
      var c := Walk(vars, el.children, |el.children|, freshId, ev.0.issued);
      WalkNoEventAttrs(vars, el.children, |el.children|, freshId, ev.0.issued);
      var joined := Acc(ev.0.actions + c.acc.actions, ev.0.needed + c.acc.needed, ev.0.relations + c.acc.relations, c.acc.issued);
      SetIdKeepsNoEventKey(joined, ev.1, freshId);
      var t := ElementTail(node.uuid, el.name, ev.1, c, joined, freshId);
      assert t == NodeStep(vars, nodes, i, acc, freshId);
      var e := t.0.content.element;
      assert t.0.content == NodeContent.Element(e) && e.children == c.nodes;
      assert NoEventKey(e.attributes);
      assert NoEventAttrsIn(e.children);
    case TextNode(_) =>
    case Comment(_) =>
  }

  /** Every action's target and every relation's element id is an id the
      same call records. */
  ghost predicate Covered(acc: Acc) {
    (forall i :: 0 <= i < |acc.actions| ==> HasIdName(acc.needed, acc.actions[i].target))
    && (forall i :: 0 <= i < |acc.relations| ==> HasIdName(acc.needed, acc.relations[i].elmId))
  }

  lemma CoveredGrow(acc: Acc, needed: seq<NeededIdName>)
    requires Covered(acc) && |acc.needed| <= |needed| && needed[..|acc.needed|] == acc.needed
    ensures Covered(acc.(needed := needed))
  {
    forall id | HasIdName(acc.needed, id) ensures HasIdName(needed, id) {
      var i :| 0 <= i < |acc.needed| && acc.needed[i].idName == id;
      assert needed[i] == acc.needed[i];
    }
  }

  lemma CoveredJoin(a: Acc, b: Acc, issued: nat)
    requires Covered(a) && Covered(b)
    ensures Covered(Acc(a.actions + b.actions, a.needed + b.needed, a.relations + b.relations, issued))
  {
    var n := a.needed + b.needed;
    forall id | HasIdName(a.needed, id) ensures HasIdName(n, id) {
      var i :| 0 <= i < |a.needed| && a.needed[i].idName == id;
      assert n[i] == a.needed[i];
    }
    forall id | HasIdName(b.needed, id) ensures HasIdName(n, id) {
      var i :| 0 <= i < |b.needed| && b.needed[i].idName == id;
      assert n[|a.needed| + i] == b.needed[i];
    }
  }

  lemma {:induction false} EventFoldCovered(acc: Acc, attrs: Attributes, snapshot: Attributes, k: nat, freshId: nat -> string)
    requires k <= |snapshot| && Covered(acc)
    ensures Covered(EventFold(acc, attrs, snapshot, k, freshId).0)
    decreases k
  {
    if k > 0 {
      EventFoldCovered(acc, attrs, snapshot, k - 1, freshId);
      var prev := EventFold(acc, attrs, snapshot, k - 1, freshId);
      if StartsWith(snapshot[k - 1].0, "@") {
        SetIdRecords(prev.0, prev.1, freshId);
        var s := SetId(prev.0, prev.1, freshId);
        CoveredGrow(prev.0, s.0.needed);
        assert s.0 == prev.0.(needed := s.0.needed, issued := s.0.issued);
      }
    }
  }

  /** Every id the returned actions and relations refer to is in the
      returned id list, so the generated code looks each of them up. */
  lemma {:induction false} WalkCovered(vars: seq<string>, nodes: seq<Node>, k: nat, freshId: nat -> string, issued: nat)
    requires k <= |nodes| && ForestClosed(nodes)
    ensures Covered(Walk(vars, nodes, k, freshId, issued).acc)
    decreases nodes, 1, k
  {
    if k > 0 {
      WalkCovered(vars, nodes, k - 1, freshId, issued);
      var o := Walk(vars, nodes, k - 1, freshId, issued);
      NodeStepCovered(vars, nodes, k - 1, o.acc, freshId);
    }
  }

  lemma {:induction false} NodeStepCovered(vars: seq<string>, nodes: seq<Node>, i: nat, acc: Acc, freshId: nat -> string)
    requires i < |nodes| && ForestClosed(nodes) && Covered(acc)
    ensures Covered(NodeStep(vars, nodes, i, acc, freshId).1)
    decreases nodes, 0, i
  {
    var node := nodes[i];
    match node.content
    case Element(el) =>
      assert Markup.TextsClosed(node);
      assert ForestClosed(el.children);
      var ev := EventFold(acc, el.attributes, el.attributes, |el.attributes|, freshId);
      EventFoldCovered(acc, el.attributes, el.attributes, |el.attributes|, freshId);
      var c := Walk(vars, el.children, |el.children|, freshId, ev.0.issued);
      WalkCovered(vars, el.children, |el.children|, freshId, ev.0.issued);
      var joined := Acc(ev.0.actions + c.acc.actions, ev.0.needed + c.acc.needed, ev.0.relations + c.acc.relations, c.acc.issued);
      CoveredJoin(ev.0, c.acc, c.acc.issued);
      ElementTailCovered(node.uuid, el.name, ev.1, c, joined, freshId);
    case TextNode(_) =>
    case Comment(_) =>
  }

  lemma ElementTailCovered(uuid: string, name: string, attrs: Attributes, c: Out, joined: Acc, freshId: nat -> string)
    requires Covered(joined)
    ensures Covered(ElementTail(uuid, name, attrs, c, joined, freshId).1)
  {
    if c.depVars.Some? && |c.depVars.value| > 0 {
      SetIdRecords(joined, attrs, freshId);
      var s := SetId(joined, attrs, freshId);
      CoveredGrow(joined, s.0.needed);
      assert s.0 == joined.(needed := s.0.needed, issued := s.0.issued);
    }
  }

  /** A call reports dependencies exactly when its list is one text node;
      an element never reports its own upwards. */
  lemma WalkReportsOnlyText(vars: seq<string>, nodes: seq<Node>, freshId: nat -> string, issued: nat)
    requires ForestClosed(nodes)
    ensures Walk(vars, nodes, |nodes|, freshId, issued).depVars.Some? <==> |nodes| == 1 && nodes[0].content.TextNode?
  {
  }

  /** `@name` attributes with a value, in order: the actions the loop
      records, as (name, handler) pairs. */
  function Handlers(attrs: Attributes): seq<(string, string)>
  {
    if |attrs| == 0 then []
    else
      var (key, value) := attrs[|attrs| - 1];
      Handlers(attrs[..|attrs| - 1]) + (if StartsWith(key, "@") && value.Some? then [(key[1..], value.value)] else [])
  }

  /** The loop appends one action per `@name` attribute with a value, in
      attribute order, named `name` and holding the handler text. */
  lemma {:induction false} EventFoldActions(acc: Acc, attrs: Attributes, snapshot: Attributes, k: nat, freshId: nat -> string)
    requires k <= |snapshot|
    ensures var a := EventFold(acc, attrs, snapshot, k, freshId).0.actions;
      var h := Handlers(snapshot[..k]);
      |a| == |acc.actions| + |h| && a[..|acc.actions|] == acc.actions
      && forall j :: 0 <= j < |h| ==> (a[|acc.actions| + j].actionName, a[|acc.actions| + j].action) == h[j]
    decreases k
  {
    if k > 0 {
      EventFoldActions(acc, attrs, snapshot, k - 1, freshId);
      assert snapshot[..k][..k - 1] == snapshot[..k - 1];
      var prev := EventFold(acc, attrs, snapshot, k - 1, freshId);
      var a := EventFold(acc, attrs, snapshot, k, freshId).0.actions;
      var h := Handlers(snapshot[..k]);
      var h' := Handlers(snapshot[..k - 1]);
      var n := |acc.actions|;
      assert a[..|prev.0.actions|] == prev.0.actions;
      forall j | 0 <= j < |h| ensures (a[n + j].actionName, a[n + j].action) == h[j] {
        if j < |h'| {
          assert a[n + j] == prev.0.actions[n + j];
        }
      }
    }
  }
}
