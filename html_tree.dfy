/** The markup tree the transformer rewrites: every node carries the `uuid`
    it was given when the tree was built; an element has a tag name, an
    ordered attribute mapping with unique keys (a value may be absent, as in
    `<input disabled>`) and its children in document order. */
module HtmlTree {
  import opened Wrappers

  datatype Node = Node(uuid: string, content: NodeContent)

  datatype NodeContent =
    | Element(element: Element)
    | TextNode(text: string)
    | Comment(comment: string)

  datatype Element = Element(name: string, attributes: seq<(string, Option<string>)>, children: seq<Node>)

  type Attributes = seq<(string, Option<string>)>

  predicate HasKey(attrs: Attributes, key: string) {
    exists i :: 0 <= i < |attrs| && attrs[i].0 == key
  }

  predicate UniqueKeys(attrs: Attributes) {
    forall i, j :: 0 <= i < j < |attrs| ==> attrs[i].0 != attrs[j].0
  }

  /** `attributes.get(key)`. */
  function GetAttr(attrs: Attributes, key: string): (r: Option<Option<string>>)
    ensures r.Some? <==> HasKey(attrs, key)
    ensures r.Some? ==> exists i :: 0 <= i < |attrs| && attrs[i] == (key, r.value)
    decreases |attrs|
  {
    if |attrs| == 0 then None
    else if attrs[0].0 == key then Some(attrs[0].1)
    else
      var r := GetAttr(attrs[1..], key);
      assert HasKey(attrs[1..], key) ==> HasKey(attrs, key) by {
        if HasKey(attrs[1..], key) {
          var i :| 0 <= i < |attrs[1..]| && attrs[1..][i].0 == key;
          assert attrs[i + 1].0 == key;
        }
      }
      assert r.Some? ==> exists i :: 0 <= i < |attrs| - 1 && attrs[1..][i] == (key, r.value);
      r
  }

  /** Keys are unique in a list exactly when its head's key is not in the
      tail and the tail's keys are unique. */
  lemma UniqueCons(a: (string, Option<string>), rest: Attributes)
    ensures UniqueKeys([a] + rest) <==> !HasKey(rest, a.0) && UniqueKeys(rest)
  {
    var l := [a] + rest;
    assert l[1..] == rest;
    if UniqueKeys(l) {
      forall i | 0 <= i < |rest| ensures rest[i].0 != a.0 {
        assert l[0].0 != l[i + 1].0;
      }
    }
    if !HasKey(rest, a.0) && UniqueKeys(rest) {
      forall i, j | 0 <= i < j < |l| ensures l[i].0 != l[j].0 {
        if i == 0 {
          assert l[j] == rest[j - 1];
        } else {
          assert l[i] == rest[i - 1] && l[j] == rest[j - 1];
        }
      }
    }
  }

  lemma HasKeyIsGet(attrs: Attributes, k: string)
    ensures HasKey(attrs, k) <==> GetAttr(attrs, k).Some?
  {
  }

  /** `attributes.insert(key, value)`: an existing key keeps its place and
      takes the new value; a new key goes last. */
  function InsertAttr(attrs: Attributes, key: string, value: Option<string>): (r: Attributes)
    ensures |r| == |attrs| || |r| == |attrs| + 1
    decreases |attrs|
  {
    if |attrs| == 0 then [(key, value)]
    else if attrs[0].0 == key then [(key, value)] + attrs[1..]
    else [attrs[0]] + InsertAttr(attrs[1..], key, value)
  }

  /** After the insert, `key` holds `value` and every other key holds what
      it held before. */
  lemma {:induction false} InsertAttrGet(attrs: Attributes, key: string, value: Option<string>, k: string)
    ensures GetAttr(InsertAttr(attrs, key, value), k) == if k == key then Some(value) else GetAttr(attrs, k)
    decreases |attrs|
  {
    if |attrs| > 0 {
      var r := InsertAttr(attrs, key, value);
      if attrs[0].0 == key {
        assert r[1..] == attrs[1..];
      } else {
        InsertAttrGet(attrs[1..], key, value, k);
        assert r[1..] == InsertAttr(attrs[1..], key, value);
      }
    }
  }

  lemma {:induction false} InsertAttrUnique(attrs: Attributes, key: string, value: Option<string>)
    requires UniqueKeys(attrs)
    ensures UniqueKeys(InsertAttr(attrs, key, value))
    decreases |attrs|
  {
    if |attrs| > 0 {
      var a := attrs[0];
      var tail := attrs[1..];
      assert attrs == [a] + tail;
      UniqueCons(a, tail);
      if a.0 == key {
        UniqueCons((key, value), tail);
      } else {
        var rest := InsertAttr(tail, key, value);
        InsertAttrUnique(tail, key, value);
        InsertAttrGet(tail, key, value, a.0);
        HasKeyIsGet(tail, a.0);
        HasKeyIsGet(rest, a.0);
        UniqueCons(a, rest);
      }
    }
  }

  /** `attributes.remove(key)`, keeping the order of the other entries. */
  function RemoveAttr(attrs: Attributes, key: string): (r: Attributes)
    ensures |r| <= |attrs|
    decreases |attrs|
  {
    if |attrs| == 0 then []
    else if attrs[0].0 == key then RemoveAttr(attrs[1..], key)
    else [attrs[0]] + RemoveAttr(attrs[1..], key)
  }

  /** After the removal `key` is absent and every other key holds what it
      held before. */
  lemma {:induction false} RemoveAttrGet(attrs: Attributes, key: string, k: string)
    ensures GetAttr(RemoveAttr(attrs, key), k) == if k == key then None else GetAttr(attrs, k)
    decreases |attrs|
  {
    if |attrs| > 0 {
      RemoveAttrGet(attrs[1..], key, k);
      if attrs[0].0 != key {
        var r := RemoveAttr(attrs, key);
        assert r[1..] == RemoveAttr(attrs[1..], key);
      }
    }
  }

  lemma {:induction false} RemoveAttrUnique(attrs: Attributes, key: string)
    requires UniqueKeys(attrs)
    ensures UniqueKeys(RemoveAttr(attrs, key))
    decreases |attrs|
  {
    if |attrs| > 0 {
      var a := attrs[0];
      var tail := attrs[1..];
      assert attrs == [a] + tail;
      UniqueCons(a, tail);
      RemoveAttrUnique(tail, key);
      if a.0 != key {
        var rest := RemoveAttr(tail, key);
        RemoveAttrGet(tail, key, a.0);
        HasKeyIsGet(tail, a.0);
        HasKeyIsGet(rest, a.0);
        UniqueCons(a, rest);
      }
    }
  }

  predicate IsElement(n: Node) {
    n.content.Element?
  }

  /** The position of the child whose uuid is `uuid`. */
  function IndexOfUuid(children: seq<Node>, uuid: string): (r: Option<nat>)
    ensures r.Some? ==> r.value < |children| && children[r.value].uuid == uuid
    ensures r.Some? ==> forall i :: 0 <= i < r.value ==> children[i].uuid != uuid
    ensures r.None? ==> forall i :: 0 <= i < |children| ==> children[i].uuid != uuid
    decreases |children|
  {
    if |children| == 0 then None
    else if children[0].uuid == uuid then Some(0)
    else match IndexOfUuid(children[1..], uuid)
      case None => None
      case Some(k) => Some(k + 1)
  }

  /** The first element child at or after `from`. */
  function NextElement(children: seq<Node>, from: nat): (r: Option<nat>)
    requires from <= |children|
    ensures r.Some? ==> from <= r.value < |children| && IsElement(children[r.value])
    ensures r.Some? ==> forall i :: from <= i < r.value ==> !IsElement(children[i])
    ensures r.None? ==> forall i :: from <= i < |children| ==> !IsElement(children[i])
    decreases |children| - from
  {
    if from == |children| then None
    else if IsElement(children[from]) then Some(from)
    else NextElement(children, from + 1)
  }

  /** What `Element::remove_child` hands back: the element without the
      child, the detached child, its distance to the next element sibling
      and that sibling's index in the original child list. */
  datatype Removal = Removal(rest: Element, detached: Node, distance: nat, nextElementIndex: Option<nat>)

  /** Detaches the child whose uuid is `uuid`. The distance is one more than
      the number of non-element siblings between the child and the next
      element sibling (or the end of the list), so it is 1 when an element
      follows at once or when the child is last; the returned index is the
      next element's position before the removal. */
  function RemoveChild(el: Element, uuid: string): (r: Result<Removal>)
    ensures r.Err? <==> forall i :: 0 <= i < |el.children| ==> el.children[i].uuid != uuid
    ensures r.Ok? ==> |r.value.rest.children| == |el.children| - 1
    ensures r.Ok? ==> r.value.detached.uuid == uuid && r.value.distance >= 1
    ensures r.Ok? ==> r.value.rest.name == el.name && r.value.rest.attributes == el.attributes
    ensures r.Ok? && r.value.nextElementIndex.Some? ==>
      var q := r.value.nextElementIndex.value;
      1 <= q <= |r.value.rest.children| && r.value.rest.children[q - 1] == el.children[q]
      && IsElement(r.value.rest.children[q - 1])
  {
    match IndexOfUuid(el.children, uuid)
    case None => Err(Panic("child to remove not found"))
    case Some(p) =>
      var rest := el.children[..p] + el.children[p + 1..];
      var next := NextElement(el.children, p + 1);
      var distance := (if next.Some? then next.value else |el.children|) - p;
      Ok(Removal(el.(children := rest), el.children[p], distance, next))
  }

  /** The distance counts exactly the non-element siblings that follow the
      detached child before the next element, plus one. */
  lemma RemoveChildDistance(el: Element, uuid: string)
    requires RemoveChild(el, uuid).Ok?
    ensures var r := RemoveChild(el, uuid).value;
      var p := IndexOfUuid(el.children, uuid).value;
      p + r.distance <= |el.children|
      && (forall i :: p < i < p + r.distance ==> !IsElement(el.children[i]))
      && (r.nextElementIndex.Some? <==> p + r.distance < |el.children|)
      && (r.nextElementIndex.Some? ==> r.nextElementIndex.value == p + r.distance)
  {
  }
}
