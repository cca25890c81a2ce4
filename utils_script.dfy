/** The script half of the transformer's `utils.rs`: finding the top-level
    variable declarations of the script (each gets the next power of two
    and is wrapped in `reactiveValue(...)`), finding the references to them
    that need `.v`, and splicing the collected insertions into the script
    text. The script arrives as its JSON syntax tree. */
module UtilsScript {
  import opened Wrappers
  import opened Strings
  import opened Masks
  import opened Json
  import opened TransformInfo

  // ---------------------------------------------------------------------
  // search_json

  /** The first error in iteration order, or the two lists joined. */
  function Concat(a: Result<seq<AddStringToPosition>>, b: Result<seq<AddStringToPosition>>): (r: Result<seq<AddStringToPosition>>)
    ensures r.Ok? <==> a.Ok? && b.Ok?
    ensures r.Ok? ==> r.value == a.value + b.value
  {
    if a.Err? then a else if b.Err? then b else Ok(a.value + b.value)
  }

  predicate IsIdentifier(fields: seq<(string, Json)>) {
    Lookup(fields, "type") == Some(String("Identifier"))
  }

  /** The `.v` insertion an identifier asks for: only below an object that
      is not a `VariableDeclarator`, only for a declared variable, and only
      when its span has an end. `end - 1` underflows (and aborts) for an end
      of 0 and is truncated to 32 bits. */
  function IdentifierInsertion(fields: seq<(string, Json)>, vars: seq<string>, parent: Option<seq<(string, Json)>>): (r: Result<seq<AddStringToPosition>>)
  {
    if parent.Some? && Lookup(parent.value, "type") != Some(String("VariableDeclarator")) then
      match Lookup(fields, "value")
      case Some(String(name)) =>
        if name in vars then
          match Lookup(fields, "span")
          case Some(Object(span)) =>
            (match Lookup(span, "end")
             case Some(Number(end)) =>
               if end == 0 then Err(Panic("attempt to subtract with overflow"))
               else Ok([AddStringToPosition(Low32(end - 1), ".v")])
             case _ => Ok([]))
          case _ => Ok([])
        else Ok([])
      case _ => Ok([])
    else Ok([])
  }

  /** `search_json`: an identifier is a leaf; any other object is searched
      field by field with itself as the parent; an array is searched item by
      item with no parent. */
  function SearchJson(json: Json, vars: seq<string>, parent: Option<seq<(string, Json)>>): (r: Result<seq<AddStringToPosition>>)
    ensures !json.Object? && !json.Array? ==> r == Ok([])
    ensures json.Object? && IsIdentifier(json.fields) && parent.None? ==> r == Ok([])
    decreases json, 1, 0
  {
    match json
    case Object(fields) =>
      if IsIdentifier(fields) then IdentifierInsertion(fields, vars, parent)
      else SearchFields(json, vars, |fields|)
    case Array(items) => SearchItems(json, vars, |items|)
    case _ => Ok([])
  }

  /** The search of the first `n` fields of an object. */
  function SearchFields(obj: Json, vars: seq<string>, n: nat): Result<seq<AddStringToPosition>>
    requires obj.Object? && n <= |obj.fields|
    decreases obj, 0, n
  {
    if n == 0 then Ok([])
    else Concat(SearchFields(obj, vars, n - 1), SearchJson(obj.fields[n - 1].1, vars, Some(obj.fields)))
  }

  /** The search of the first `n` items of an array. */
  function SearchItems(arr: Json, vars: seq<string>, n: nat): Result<seq<AddStringToPosition>>
    requires arr.Array? && n <= |arr.items|
    decreases arr, 0, n
  {
    if n == 0 then Ok([])
    else Concat(SearchItems(arr, vars, n - 1), SearchJson(arr.items[n - 1], vars, None))
  }

  /** `sub` is reached by the search of `json` (started with parent
      `parent`) and is searched with parent `subParent`: the search never
      goes below an identifier. */
  ghost predicate Reached(json: Json, parent: Option<seq<(string, Json)>>, sub: Json, subParent: Option<seq<(string, Json)>>)
    decreases json
  {
    (json == sub && parent == subParent)
    || (json.Object? && !IsIdentifier(json.fields)
        && exists i :: 0 <= i < |json.fields| && Reached(json.fields[i].1, Some(json.fields), sub, subParent))
    || (json.Array? && exists i :: 0 <= i < |json.items| && Reached(json.items[i], None, sub, subParent))
  }

  /** `ins` is the insertion for a reference to a declared variable: an
      identifier naming one of `vars`, whose parent is an object that is not
      a `VariableDeclarator`, at the end of its span. */
  ghost predicate RewrittenReference(sub: Json, parent: Option<seq<(string, Json)>>, vars: seq<string>, ins: AddStringToPosition) {
    sub.Object? && IsIdentifier(sub.fields)
    && parent.Some? && Lookup(parent.value, "type") != Some(String("VariableDeclarator"))
    && (exists name :: Lookup(sub.fields, "value") == Some(String(name)) && name in vars)
    && (exists span, end: nat :: Lookup(sub.fields, "span") == Some(Object(span))
          && Lookup(span, "end") == Some(Number(end)) && end > 0
          && ins == AddStringToPosition(Low32(end - 1), ".v"))
  }

  /** An identifier yields at most one insertion, and it is a `.v` for a
      reference to a declared variable. */
  lemma IdentifierInsertionSound(fields: seq<(string, Json)>, vars: seq<string>, parent: Option<seq<(string, Json)>>)
    requires IsIdentifier(fields)
    ensures var r := IdentifierInsertion(fields, vars, parent);
      r.Ok? ==> |r.value| <= 1 && forall k :: 0 <= k < |r.value| ==> RewrittenReference(Object(fields), parent, vars, r.value[k])
  {
    var r := IdentifierInsertion(fields, vars, parent);
    if r.Ok? && |r.value| > 0 {
      var name := Lookup(fields, "value").value.s;
      var span := Lookup(fields, "span").value.fields;
      var end := Lookup(span, "end").value.n;
      assert r.value == [AddStringToPosition(Low32(end - 1), ".v")];
      assert RewrittenReference(Object(fields), parent, vars, r.value[0]);
    }
  }

  /** Every insertion the search returns is a `.v` after a reference to a
      declared variable somewhere in the tree. */
  lemma {:induction false} SearchJsonSound(json: Json, vars: seq<string>, parent: Option<seq<(string, Json)>>, k: nat)
    requires SearchJson(json, vars, parent).Ok? && k < |SearchJson(json, vars, parent).value|
    ensures exists sub, sp :: Reached(json, parent, sub, sp) && RewrittenReference(sub, sp, vars, SearchJson(json, vars, parent).value[k])
    decreases json, 1, 0
  {
    var ins := SearchJson(json, vars, parent).value[k];
    match json
    case Object(fields) =>
      if IsIdentifier(fields) {
        IdentifierInsertionSound(fields, vars, parent);
        assert Reached(json, parent, json, parent);
      } else {
        var i := SearchFieldsSound(json, vars, |fields|, k);
        var sub, sp :| Reached(fields[i].1, Some(fields), sub, sp) && RewrittenReference(sub, sp, vars, ins);
        assert Reached(json, parent, sub, sp);
      }
    case Array(items) =>
      var i := SearchItemsSound(json, vars, |items|, k);
      var sub, sp :| Reached(items[i], None, sub, sp) && RewrittenReference(sub, sp, vars, ins);
      assert Reached(json, parent, sub, sp);
  }

  /** The `k`-th insertion from the first `n` fields comes from field `i`. */
  lemma {:induction false} SearchFieldsSound(obj: Json, vars: seq<string>, n: nat, k: nat) returns (i: nat)
    requires obj.Object? && n <= |obj.fields|
    requires SearchFields(obj, vars, n).Ok? && k < |SearchFields(obj, vars, n).value|
    ensures i < n
    ensures exists sub, sp :: (Reached(obj.fields[i].1, Some(obj.fields), sub, sp)
      && RewrittenReference(sub, sp, vars, SearchFields(obj, vars, n).value[k]))
    decreases obj, 0, n
  {
    var prefix := SearchFields(obj, vars, n - 1);
    var last := SearchJson(obj.fields[n - 1].1, vars, Some(obj.fields));
    var whole := SearchFields(obj, vars, n).value;
    assert whole == prefix.value + last.value;
    if k < |prefix.value| {
      assert whole[k] == prefix.value[k];
      i := SearchFieldsSound(obj, vars, n - 1, k);
    } else {
      assert whole[k] == last.value[k - |prefix.value|];
      i := n - 1;
      SearchJsonSound(obj.fields[n - 1].1, vars, Some(obj.fields), k - |prefix.value|);
      var sub, sp :| Reached(obj.fields[i].1, Some(obj.fields), sub, sp) && RewrittenReference(sub, sp, vars, whole[k]);
    }
  }

  /** The `k`-th insertion from the first `n` items comes from item `i`. */
  lemma {:induction false} SearchItemsSound(arr: Json, vars: seq<string>, n: nat, k: nat) returns (i: nat)
    requires arr.Array? && n <= |arr.items|
    requires SearchItems(arr, vars, n).Ok? && k < |SearchItems(arr, vars, n).value|
    ensures i < n
    ensures exists sub, sp :: (Reached(arr.items[i], None, sub, sp)
      && RewrittenReference(sub, sp, vars, SearchItems(arr, vars, n).value[k]))
    decreases arr, 0, n
  {
    var prefix := SearchItems(arr, vars, n - 1);
    var last := SearchJson(arr.items[n - 1], vars, None);
    var whole := SearchItems(arr, vars, n).value;
    assert whole == prefix.value + last.value;
    if k < |prefix.value| {
      assert whole[k] == prefix.value[k];
      i := SearchItemsSound(arr, vars, n - 1, k);
    } else {
      assert whole[k] == last.value[k - |prefix.value|];
      i := n - 1;
      SearchJsonSound(arr.items[n - 1], vars, None, k - |prefix.value|);
      var sub, sp :| Reached(arr.items[i], None, sub, sp) && RewrittenReference(sub, sp, vars, whole[k]);
    }
  }

  /** The converse of `IdentifierInsertionSound`: a reference to a declared
      variable yields exactly its `.v`. */
  lemma IdentifierInsertionComplete(fields: seq<(string, Json)>, vars: seq<string>, parent: Option<seq<(string, Json)>>, ins: AddStringToPosition)
    requires RewrittenReference(Object(fields), parent, vars, ins)
    ensures IdentifierInsertion(fields, vars, parent) == Ok([ins])
  {
    var name :| Lookup(fields, "value") == Some(String(name)) && name in vars;
    var span, end: nat :| Lookup(fields, "span") == Some(Object(span))
      && Lookup(span, "end") == Some(Number(end)) && end > 0
      && ins == AddStringToPosition(Low32(end - 1), ".v");
  }

  /** Every reference to a declared variable that the search reaches gets
      its `.v`: together with `SearchJsonSound`, the insertions are exactly
      those of the reached references. */
  lemma {:induction false} SearchJsonComplete(json: Json, vars: seq<string>, parent: Option<seq<(string, Json)>>,
                                              sub: Json, sp: Option<seq<(string, Json)>>, ins: AddStringToPosition)
    requires SearchJson(json, vars, parent).Ok?
    requires Reached(json, parent, sub, sp) && RewrittenReference(sub, sp, vars, ins)
    ensures ins in SearchJson(json, vars, parent).value
    decreases json, 1, 0
  {
    if json == sub && parent == sp {
      IdentifierInsertionComplete(sub.fields, vars, sp, ins);
    } else {
      match json
      case Object(fields) =>
        var i :| 0 <= i < |fields| && Reached(fields[i].1, Some(fields), sub, sp);
        SearchFieldsComplete(json, vars, |fields|, i, sub, sp, ins);
      case Array(items) =>
        var i :| 0 <= i < |items| && Reached(items[i], None, sub, sp);
        SearchItemsComplete(json, vars, |items|, i, sub, sp, ins);
    }
  }

  /** A reference reached through field `i < n` is rewritten by the search
      of the first `n` fields. */
  lemma {:induction false} SearchFieldsComplete(obj: Json, vars: seq<string>, n: nat, i: nat,
                                                sub: Json, sp: Option<seq<(string, Json)>>, ins: AddStringToPosition)
    requires obj.Object? && i < n <= |obj.fields|
    requires SearchFields(obj, vars, n).Ok?
    requires Reached(obj.fields[i].1, Some(obj.fields), sub, sp) && RewrittenReference(sub, sp, vars, ins)
    ensures ins in SearchFields(obj, vars, n).value
    decreases obj, 0, n
  {
    var prefix := SearchFields(obj, vars, n - 1);
    var last := SearchJson(obj.fields[n - 1].1, vars, Some(obj.fields));
    assert SearchFields(obj, vars, n).value == prefix.value + last.value;
    if i == n - 1 {
      SearchJsonComplete(obj.fields[n - 1].1, vars, Some(obj.fields), sub, sp, ins);
    } else {
      SearchFieldsComplete(obj, vars, n - 1, i, sub, sp, ins);
    }
  }

  /** A reference reached through item `i < n` is rewritten by the search
      of the first `n` items. */
  lemma {:induction false} SearchItemsComplete(arr: Json, vars: seq<string>, n: nat, i: nat,
                                               sub: Json, sp: Option<seq<(string, Json)>>, ins: AddStringToPosition)
    requires arr.Array? && i < n <= |arr.items|
    requires SearchItems(arr, vars, n).Ok?
    requires Reached(arr.items[i], None, sub, sp) && RewrittenReference(sub, sp, vars, ins)
    ensures ins in SearchItems(arr, vars, n).value
    decreases arr, 0, n
  {
    var prefix := SearchItems(arr, vars, n - 1);
    var last := SearchJson(arr.items[n - 1], vars, None);
    assert SearchItems(arr, vars, n).value == prefix.value + last.value;
    if i == n - 1 {
      SearchJsonComplete(arr.items[n - 1], vars, None, sub, sp, ins);
    } else {
      SearchItemsComplete(arr, vars, n - 1, i, sub, sp, ins);
    }
  }

  /** Identifiers that are items of an array have no parent object, so they
      are never rewritten. */
  lemma {:induction false} ArrayIdentifiersUntouched(arr: Json, vars: seq<string>, n: nat)
    requires arr.Array? && n <= |arr.items|
    requires forall i :: 0 <= i < |arr.items| ==> arr.items[i].Object? && IsIdentifier(arr.items[i].fields)
    ensures SearchItems(arr, vars, n) == Ok([])
    decreases n
  {
    if n > 0 {
      ArrayIdentifiersUntouched(arr, vars, n - 1);
      var item := arr.items[n - 1];
      assert IdentifierInsertion(item.fields, vars, None) == Ok([]);
      assert SearchJson(item, vars, None) == Ok([]);
      assert SearchItems(arr, vars, n - 1).value + SearchJson(item, vars, None).value == [];
    }
  }

  /** The name bound by a declarator (its parent is the
      `VariableDeclarator`) is never rewritten. */
  lemma DeclaredNameUntouched(fields: seq<(string, Json)>, vars: seq<string>, declarator: seq<(string, Json)>)
    requires IsIdentifier(fields)
    requires Lookup(declarator, "type") == Some(String("VariableDeclarator"))
    ensures SearchJson(Object(fields), vars, Some(declarator)) == Ok([])
  {
  }

  /** The search of a list of fields, all with the same parent. */
  function SearchEntries(entries: seq<(string, Json)>, vars: seq<string>, parent: Option<seq<(string, Json)>>): (r: Result<seq<AddStringToPosition>>)
    ensures |entries| == 0 ==> r == Ok([])
    decreases |entries|
  {
    if |entries| == 0 then Ok([])
    else Concat(SearchEntries(entries[..|entries| - 1], vars, parent), SearchJson(entries[|entries| - 1].1, vars, parent))
  }

  /** The field loop of an object is the search of its first `n` fields. */
  lemma {:induction false} FieldsAsEntries(obj: Json, vars: seq<string>, n: nat)
    requires obj.Object? && n <= |obj.fields|
    ensures SearchFields(obj, vars, n) == SearchEntries(obj.fields[..n], vars, Some(obj.fields))
    decreases n
  {
    if n > 0 {
      FieldsAsEntries(obj, vars, n - 1);
      assert obj.fields[..n][..n - 1] == obj.fields[..n - 1];
    }
  }

  /** Searching two lists of fields one after the other. */
  lemma {:induction false} EntriesAppend(u: seq<(string, Json)>, w: seq<(string, Json)>, vars: seq<string>, parent: Option<seq<(string, Json)>>)
    ensures var a, b, r := SearchEntries(u, vars, parent), SearchEntries(w, vars, parent), SearchEntries(u + w, vars, parent);
      (r.Ok? <==> a.Ok? && b.Ok?) && (r.Ok? ==> r.value == a.value + b.value)
    decreases |w|
  {
    if |w| == 0 {
      assert u + w == u;
    } else {
      var w0 := w[..|w| - 1];
      EntriesAppend(u, w0, vars, parent);
      assert (u + w)[..|u + w| - 1] == u + w0;
      assert (u + w)[|u + w| - 1] == w[|w| - 1];
    }
  }

  /** A child sees its parent only through the parent's `type`. */
  lemma SearchParentByType(json: Json, vars: seq<string>, p: seq<(string, Json)>, q: seq<(string, Json)>)
    requires Lookup(p, "type") == Lookup(q, "type")
    ensures SearchJson(json, vars, Some(p)) == SearchJson(json, vars, Some(q))
  {
    if json.Object? && IsIdentifier(json.fields) {
      assert IdentifierInsertion(json.fields, vars, Some(p)) == IdentifierInsertion(json.fields, vars, Some(q));
    }
  }

  /** The same for a list of fields. */
  lemma {:induction false} EntriesParentByType(entries: seq<(string, Json)>, vars: seq<string>, p: seq<(string, Json)>, q: seq<(string, Json)>)
    requires Lookup(p, "type") == Lookup(q, "type")
    ensures SearchEntries(entries, vars, Some(p)) == SearchEntries(entries, vars, Some(q))
    decreases |entries|
  {
    if |entries| > 0 {
      EntriesParentByType(entries[..|entries| - 1], vars, p, q);
      SearchParentByType(entries[|entries| - 1].1, vars, p, q);
    }
  }

  /** Taking `x` out of a list that holds it. */
  lemma RemoveEntry(init: seq<(string, Json)>, x: (string, Json), u: seq<(string, Json)>, j: nat)
    requires j < |u| && u[j] == x && multiset(init + [x]) == multiset(u)
    ensures u == u[..j] + [x] + u[j + 1..]
    ensures multiset(init) == multiset(u[..j] + u[j + 1..])
  {
    var a, b := u[..j], u[j + 1..];
    assert u == a + [x] + b;
    calc {
      multiset(init) + multiset([x]);
      multiset(u);
      multiset(a + [x]) + multiset(b);
      multiset(a) + multiset([x]) + multiset(b);
      multiset(a + b) + multiset([x]);
    }
    assert multiset(init) == multiset(init) + multiset([x]) - multiset([x]);
    assert multiset(a + b) == multiset(a + b) + multiset([x]) - multiset([x]);
  }

  /** The search of `a`, then the field `x`, then `b`. */
  lemma EntriesAround(a: seq<(string, Json)>, x: (string, Json), b: seq<(string, Json)>, vars: seq<string>, parent: Option<seq<(string, Json)>>)
    ensures var r, ra, sx, rb := SearchEntries(a + [x] + b, vars, parent), SearchEntries(a, vars, parent),
                                  SearchJson(x.1, vars, parent), SearchEntries(b, vars, parent);
      (r.Ok? <==> ra.Ok? && sx.Ok? && rb.Ok?)
      && (r.Ok? ==> multiset(r.value) == multiset(ra.value) + multiset(sx.value) + multiset(rb.value))
  {
    EntriesAppend(a, [x], vars, parent);
    EntriesAppend(a + [x], b, vars, parent);
    assert [x][..0] == [];
    assert SearchEntries([x], vars, parent) == Concat(Ok([]), SearchJson(x.1, vars, parent));
  }

  /** Listing the fields in another order changes neither whether the
      search succeeds nor, as a multiset, what it inserts. */
  lemma {:induction false} EntriesPermuted(u: seq<(string, Json)>, u': seq<(string, Json)>, vars: seq<string>, parent: Option<seq<(string, Json)>>)
    requires multiset(u) == multiset(u')
    ensures var r, r' := SearchEntries(u, vars, parent), SearchEntries(u', vars, parent);
      r.Ok? == r'.Ok? && (r.Ok? ==> multiset(r.value) == multiset(r'.value))
    decreases |u|
  {
    if |u| == 0 {
      assert |u'| == |multiset(u')|;
    } else {
      var x, init := u[|u| - 1], u[..|u| - 1];
      assert u == init + [x];
      assert x in multiset(u');
      var j :| 0 <= j < |u'| && u'[j] == x;
      RemoveEntry(init, x, u', j);
      var a, b := u'[..j], u'[j + 1..];
      EntriesPermuted(init, a + b, vars, parent);
      EntriesAppend(a, b, vars, parent);
      EntriesAround(a, x, b, vars, parent);
    }
  }

  /** `search_json` on an object walks its fields in the order the map
      yields them; that order does not matter: success and the insertions,
      counted with their multiplicity, are the same for every order. */
  lemma SearchJsonFieldOrderFree(fields: seq<(string, Json)>, other: seq<(string, Json)>, vars: seq<string>, parent: Option<seq<(string, Json)>>)
    requires DistinctKeys(fields) && multiset(fields) == multiset(other)
    ensures var r, r' := SearchJson(Object(fields), vars, parent), SearchJson(Object(other), vars, parent);
      r.Ok? == r'.Ok? && (r.Ok? ==> multiset(r.value) == multiset(r'.value))
  {
    LookupPermuted(fields, other, "type");
    if IsIdentifier(fields) {
      LookupPermuted(fields, other, "value");
      LookupPermuted(fields, other, "span");
      IdentifierByFields(fields, other, vars, parent);
      assert SearchJson(Object(fields), vars, parent) == IdentifierInsertion(fields, vars, parent);
      assert SearchJson(Object(other), vars, parent) == IdentifierInsertion(other, vars, parent);
    } else {
      FieldsOrderFree(fields, other, vars);
      assert SearchJson(Object(fields), vars, parent) == SearchFields(Object(fields), vars, |fields|);
      assert SearchJson(Object(other), vars, parent) == SearchFields(Object(other), vars, |other|);
    }
  }

  /** An identifier is read only through its `value` and `span`. */
  lemma IdentifierByFields(fields: seq<(string, Json)>, other: seq<(string, Json)>, vars: seq<string>, parent: Option<seq<(string, Json)>>)
    requires Lookup(fields, "value") == Lookup(other, "value") && Lookup(fields, "span") == Lookup(other, "span")
    ensures IdentifierInsertion(fields, vars, parent) == IdentifierInsertion(other, vars, parent)
  {
  }

  /** The field loop part of `SearchJsonFieldOrderFree`. */
  lemma FieldsOrderFree(fields: seq<(string, Json)>, other: seq<(string, Json)>, vars: seq<string>)
    requires Lookup(fields, "type") == Lookup(other, "type") && multiset(fields) == multiset(other)
    ensures var r, r' := SearchFields(Object(fields), vars, |fields|), SearchFields(Object(other), vars, |other|);
      r.Ok? == r'.Ok? && (r.Ok? ==> multiset(r.value) == multiset(r'.value))
  {
    FieldsAsEntries(Object(fields), vars, |fields|);
    FieldsAsEntries(Object(other), vars, |other|);
    assert fields[..|fields|] == fields && other[..|other|] == other;
    EntriesParentByType(other, vars, fields, other);
    EntriesPermuted(fields, other, vars, Some(fields));
  }

  // ---------------------------------------------------------------------
  // add_strings_to_script

  /** Each insertion point is at or after the previous one (the first after
      `last`) and inside the script: slicing `script[last..position]` is
      defined at every step. */
  predicate Fits(inserts: seq<AddStringToPosition>, last: nat, n: nat)
    decreases |inserts|
  {
    |inserts| == 0
    || (last <= inserts[0].position <= n && Fits(inserts[1..], inserts[0].position, n))
  }

  /** The script from `last` on with the insertions spliced in. */
  function Splice(script: string, inserts: seq<AddStringToPosition>, last: nat): string
    requires last <= |script| && Fits(inserts, last, |script|)
    decreases |inserts|
  {
    if |inserts| == 0 then script[last..]
    else
      var p := inserts[0].position;
      script[last..p] + inserts[0].text + Splice(script, inserts[1..], p)
  }

  function TotalLength(inserts: seq<AddStringToPosition>): nat
    decreases |inserts|
  {
    if |inserts| == 0 then 0 else |inserts[0].text| + TotalLength(inserts[1..])
  }

  /** Deletes the insertions again from a spliced text. */
  function Unsplice(out: string, inserts: seq<AddStringToPosition>, last: nat): string
    decreases |inserts|
  {
    if |inserts| == 0 then out
    else
      var p := inserts[0].position;
      if p < last || p - last + |inserts[0].text| > |out| then out
      else out[..p - last] + Unsplice(out[p - last + |inserts[0].text|..], inserts[1..], p)
  }

  /** The output is as long as the script plus everything inserted. */
  lemma {:induction false} SpliceLength(script: string, inserts: seq<AddStringToPosition>, last: nat)
    requires last <= |script| && Fits(inserts, last, |script|)
    ensures |Splice(script, inserts, last)| == |script| - last + TotalLength(inserts)
    decreases |inserts|
  {
    if |inserts| > 0 {
      SpliceLength(script, inserts[1..], inserts[0].position);
    }
  }

  /** Deleting the insertions gives the script back. */
  lemma {:induction false} SpliceRoundTrip(script: string, inserts: seq<AddStringToPosition>, last: nat)
    requires last <= |script| && Fits(inserts, last, |script|)
    ensures Unsplice(Splice(script, inserts, last), inserts, last) == script[last..]
    decreases |inserts|
  {
    if |inserts| > 0 {
      var p := inserts[0].position;
      var t := inserts[0].text;
      var rest := Splice(script, inserts[1..], p);
      var out := script[last..p] + t + rest;
      assert Splice(script, inserts, last) == out;
      SpliceRoundTrip(script, inserts[1..], p);
      assert |out| == p - last + |t| + |rest|;
      assert out[..p - last] == script[last..p];
      assert out[p - last + |t|..] == rest;
      assert script[last..] == script[last..p] + script[p..];
    }
  }

  /** `add_strings_to_script`: copies the script up to each insertion point
      and then the inserted text; slicing out of order or past the end
      aborts. */
  method AddStringsToScript(inserts: seq<AddStringToPosition>, script: string) returns (r: Result<string>)
    ensures r.Ok? <==> Fits(inserts, 0, |script|)
    ensures r.Ok? ==> r.value == Splice(script, inserts, 0)
  {
    var result := "";
    var lastPosition := 0;
    var i := 0;
    while i < |inserts|
      invariant 0 <= i <= |inserts| && lastPosition <= |script|
      invariant Fits(inserts, 0, |script|) <==> Fits(inserts[i..], lastPosition, |script|)
      invariant Fits(inserts, 0, |script|) ==> result + Splice(script, inserts[i..], lastPosition) == Splice(script, inserts, 0)
    {
      var p := inserts[i].position;
      assert inserts[i..][1..] == inserts[i + 1..];
      if p < lastPosition || p > |script| {
        return Err(Panic("byte index out of range"));
      }
      result := result + script[lastPosition..p] + inserts[i].text;
      lastPosition := p;
      i := i + 1;
    }
    assert Fits(inserts[i..], lastPosition, |script|);
    r := Ok(result + script[lastPosition..]);
  }

  // ---------------------------------------------------------------------
  // power_of_two_generator

  /** The closure `power_of_two_generator` returns, with its captured
      counter: the `k`-th call (from 0) returns `2^k`; `2u32.pow(32)`
      overflows and aborts. */
  class PowerOfTwoGenerator {
    var count: nat

    constructor ()
      ensures count == 0
    {
      count := 0;
    }

    method Next() returns (r: Result<nat>)
      modifies this
      ensures r.Err? <==> old(count) >= 32
      ensures r.Err? ==> r.error == Panic("attempt to multiply with overflow") && count == old(count)
      ensures r.Ok? ==> r.value == Pow2(old(count)) && r.value < Pow2(32) && count == old(count) + 1
    {
      if count >= 32 {
        return Err(Panic("attempt to multiply with overflow"));
      }
      Pow2Monotone(count + 1, 32);
      r := Ok(Pow2(count));
      count := count + 1;
    }
  }

  /** Numbers handed out by different calls share no bit, so each variable
      has a bit of its own. */
  lemma PowersDisjoint(j: nat, k: nat, i: nat)
    requires j != k
    ensures !(BitSet(Pow2(j), i) && BitSet(Pow2(k), i))
  {
    Pow2Bit(j, i);
    Pow2Bit(k, i);
  }

  // ---------------------------------------------------------------------
  // find_variable_declarations

  /** A declarator with a name and an initializer span. */
  datatype Declarator = Declarator(name: string, start: nat, end: nat)

  /** The name (`id.value`) of a declarator, if it has one. */
  function DeclaredName(d: Json): Option<string> {
    match Get(d, "id")
    case Some(Object(id)) =>
      (match Lookup(id, "value")
       case Some(String(name)) => Some(name)
       case _ => None)
    case _ => None
  }

  /** The span (`init.span.start`, `init.span.end`) of a declarator's
      initializer, if it has one. */
  function InitSpan(d: Json): Option<(nat, nat)> {
    match Get(d, "init")
    case Some(Object(init)) =>
      (match Lookup(init, "span")
       case Some(Object(span)) =>
         (match Lookup(span, "end")
          case Some(Number(end)) =>
            (match Lookup(span, "start")
             case Some(Number(start)) => Some((start, end))
             case _ => None)
          case _ => None)
       case _ => None)
    case _ => None
  }

  function DeclaratorOf(d: Json): Option<Declarator> {
    match DeclaredName(d)
    case Some(name) =>
      (match InitSpan(d)
       case Some(span) => Some(Declarator(name, span.0, span.1))
       case None => None)
    case None => None
  }

  /** The lists `f` gives for the elements of `xs`, joined in order. */
  function FlatMap<A, B>(xs: seq<A>, f: A -> seq<B>): seq<B>
    decreases |xs|
  {
    if |xs| == 0 then [] else FlatMap(xs[..|xs| - 1], f) + f(xs[|xs| - 1])
  }

  lemma {:induction false} FlatMapAppend<A, B>(a: seq<A>, b: seq<A>, f: A -> seq<B>)
    ensures FlatMap(a + b, f) == FlatMap(a, f) + FlatMap(b, f)
    decreases |b|
  {
    if |b| > 0 {
      var ab := a + b;
      assert ab[..|ab| - 1] == a + b[..|b| - 1];
      FlatMapAppend(a, b[..|b| - 1], f);
    } else {
      assert a + b == a;
    }
  }

  lemma FlatMapSnoc<A, B>(xs: seq<A>, i: nat, f: A -> seq<B>)
    requires i < |xs|
    ensures FlatMap(xs[..i + 1], f) == FlatMap(xs[..i], f) + f(xs[i])
  {
    assert xs[..i + 1][..i] == xs[..i];
  }

  /** The declarator `d` as a list of zero or one usable declarators. */
  function DeclaratorSeq(d: Json): seq<Declarator> {
    match DeclaratorOf(d)
    case Some(x) => [x]
    case None => []
  }

  /** The declarations of a body item: only a `VariableDeclaration` with a
      `declarations` array has any. */
  function ItemDeclarations(item: Json): seq<Json> {
    if Get(item, "type") == Some(String("VariableDeclaration")) then
      match Get(item, "declarations")
      case Some(Array(decls)) => decls
      case _ => []
    else []
  }

  /** The usable declarators of one body item, in order. */
  function ItemDeclarators(item: Json): seq<Declarator> {
    FlatMap(ItemDeclarations(item), DeclaratorSeq)
  }

  /** The usable declarators of the body items, in source order. */
  function Declarators(items: seq<Json>): seq<Declarator> {
    FlatMap(items, ItemDeclarators)
  }

  /** The variable numbered `n` and its two insertions: `reactiveValue(`
      before the initializer and `, n, refs)` at its end. */
  function Entries(d: Declarator, n: nat): (seq<VariableNameAndAssignedNumber>, seq<AddStringToPosition>)
    requires d.start > 0 && d.end > 0
  {
    ([VariableNameAndAssignedNumber(d.name, n)],
     [AddStringToPosition(Low32(d.start - 1), "reactiveValue("),
      AddStringToPosition(Low32(d.end - 1), ", " + NatToString(n) + ", refs)")])
  }

  /** What the `k`-th usable declarator yields: the generator's `2^k`
      (which overflows from `k = 32` on) and its entries; a span starting or
      ending at 0 underflows. */
  function Assigned(d: Declarator, k: nat): Result<(seq<VariableNameAndAssignedNumber>, seq<AddStringToPosition>)> {
    if k >= 32 then Err(Panic("attempt to multiply with overflow"))
    else if d.start == 0 || d.end == 0 then Err(Panic("attempt to subtract with overflow"))
    else Ok(Entries(d, Pow2(k)))
  }

  /** The results for a list of usable declarators, numbered in order. */
  function AssignAll(ds: seq<Declarator>): Result<(seq<VariableNameAndAssignedNumber>, seq<AddStringToPosition>)>
    decreases |ds|
  {
    if |ds| == 0 then Ok(([], []))
    else
      match AssignAll(ds[..|ds| - 1])
      case Err(e) => Err(e)
      case Ok(acc) =>
        match Assigned(ds[|ds| - 1], |ds| - 1)
        case Err(e) => Err(e)
        case Ok(one) => Ok((acc.0 + one.0, acc.1 + one.1))
  }

  /** The specification of `find_variable_declarations`: no `body` array
      gives nothing. */
  function VariableDeclarations(json: Json): Result<(seq<VariableNameAndAssignedNumber>, seq<AddStringToPosition>)> {
    match Get(json, "body")
    case Some(Array(body)) => AssignAll(Declarators(body))
    case _ => Ok(([], []))
  }

  /** Numbering succeeds exactly when there are at most 32 usable
      declarators and none of their spans starts or ends at 0. */
  predicate Assignable(ds: seq<Declarator>) {
    |ds| <= 32 && forall k :: 0 <= k < |ds| ==> ds[k].start > 0 && ds[k].end > 0
  }

  /** Numbering one more declarator, given the results so far. */
  lemma AssignSnoc(ds: seq<Declarator>, d: Declarator, vars: seq<VariableNameAndAssignedNumber>, pos: seq<AddStringToPosition>)
    requires AssignAll(ds) == Ok((vars, pos))
    ensures AssignAll(ds + [d]) == match Assigned(d, |ds|)
      case Err(e) => Err(e)
      case Ok(one) => Ok((vars + one.0, pos + one.1))
  {
    assert (ds + [d])[..|ds|] == ds;
  }

  /** Numbering succeeds exactly when there are at most 32 usable
      declarators and none of their spans starts or ends at 0. */
  lemma {:induction false} AssignAllOk(ds: seq<Declarator>)
    ensures AssignAll(ds).Ok? <==> Assignable(ds)
    ensures AssignAll(ds).Ok? ==> |AssignAll(ds).value.0| == |ds| && |AssignAll(ds).value.1| == 2 * |ds|
    decreases |ds|
  {
    if |ds| > 0 {
      var init := ds[..|ds| - 1];
      var last := ds[|ds| - 1];
      AssignAllOk(init);
      AssignableSnoc(init, last);
      assert ds == init + [last];
      var one := Assigned(last, |init|);
      assert one.Ok? <==> |init| < 32 && last.start > 0 && last.end > 0;
      assert AssignAll(ds).Ok? <==> AssignAll(init).Ok? && one.Ok?;
    }
  }

  /** One more declarator keeps the list numberable exactly when it is
      among the first 32 and its span neither starts nor ends at 0. */
  lemma AssignableSnoc(init: seq<Declarator>, d: Declarator)
    ensures Assignable(init + [d]) <==> Assignable(init) && |init| < 32 && d.start > 0 && d.end > 0
  {
    var ds := init + [d];
    if Assignable(ds) {
      forall k | 0 <= k < |init| ensures init[k].start > 0 && init[k].end > 0 {
        assert init[k] == ds[k];
      }
      assert ds[|init|] == d;
    }
    if Assignable(init) && |init| < 32 && d.start > 0 && d.end > 0 {
      forall k | 0 <= k < |ds| ensures ds[k].start > 0 && ds[k].end > 0 {
        if k < |init| {
          assert ds[k] == init[k];
        }
      }
    }
  }

  /** The `k`-th usable declarator is variable `k`, numbered `2^k`, and
      its two insertions (`reactiveValue(` before its initializer and
      `, 2^k, refs)` at the end of it) are insertions `2k` and `2k + 1`. */
  lemma {:induction false} AssignAllAt(ds: seq<Declarator>, k: nat)
    requires AssignAll(ds).Ok? && k < |ds|
    ensures ds[k].start > 0 && ds[k].end > 0
    ensures var r := AssignAll(ds).value;
      var e := Entries(ds[k], Pow2(k));
      k < |r.0| && 2 * k + 1 < |r.1|
      && r.0[k] == e.0[0] && r.1[2 * k] == e.1[0] && r.1[2 * k + 1] == e.1[1]
    decreases |ds|
  {
    var init := ds[..|ds| - 1];
    AssignAllLast(ds);
    AssignAllOk(init);
    if k < |init| {
      AssignAllAt(init, k);
      assert init[k] == ds[k];
    }
  }

  /** A successful numbering ends with the entries of the last declarator. */
  lemma AssignAllLast(ds: seq<Declarator>)
    requires AssignAll(ds).Ok? && |ds| > 0
    ensures var last := ds[|ds| - 1];
      var init := ds[..|ds| - 1];
      AssignAll(init).Ok? && |ds| <= 32 && last.start > 0 && last.end > 0
      && var e := Entries(last, Pow2(|ds| - 1));
      AssignAll(ds).value == (AssignAll(init).value.0 + e.0, AssignAll(init).value.1 + e.1)
  {
  }

  /** Without a `body` array there is nothing to declare. */
  lemma NoBodyNoDeclarations(json: Json)
    requires !(exists body :: Get(json, "body") == Some(Array(body)))
    ensures VariableDeclarations(json) == Ok(([], []))
  {
    match Get(json, "body")
    case Some(v) => assert !v.Array?;
    case None =>
  }

  /** Body items that are not variable declarations contribute nothing. */
  lemma {:induction false} OtherItemsIgnored(items: seq<Json>, other: Json)
    requires Get(other, "type") != Some(String("VariableDeclaration"))
    ensures Declarators(items + [other]) == Declarators(items)
  {
    assert (items + [other])[..|items|] == items;
    assert ItemDeclarators(other) == [];
  }

  /** Once numbering fails, more declarators do not change the failure. */
  lemma {:induction false} AssignErrPersists(a: seq<Declarator>, b: seq<Declarator>)
    requires AssignAll(a).Err?
    ensures AssignAll(a + b) == AssignAll(a)
    decreases |b|
  {
    if |b| > 0 {
      var ab := a + b;
      assert ab[..|ab| - 1] == a + b[..|b| - 1];
      AssignErrPersists(a, b[..|b| - 1]);
    } else {
      assert a + b == a;
    }
  }

  lemma FlatMapSplit<A, B>(xs: seq<A>, k: nat, f: A -> seq<B>)
    requires k <= |xs|
    ensures FlatMap(xs, f) == FlatMap(xs[..k], f) + FlatMap(xs[k..], f)
  {
    assert xs == xs[..k] + xs[k..];
    FlatMapAppend(xs[..k], xs[k..], f);
  }

  /** A failure while numbering declarator `j` of a body item is the
      failure of the whole item. */
  lemma ItemFailureIsFinal(decls: seq<Json>, j: nat, found: seq<Declarator>, next: seq<Declarator>)
    requires j < |decls| && next == found + FlatMap(decls[..j + 1], DeclaratorSeq)
    requires AssignAll(next).Err?
    ensures AssignAll(found + FlatMap(decls, DeclaratorSeq)) == AssignAll(next)
  {
    var done := FlatMap(decls[..j + 1], DeclaratorSeq);
    var rest := FlatMap(decls[j + 1..], DeclaratorSeq);
    FlatMapSplit(decls, j + 1, DeclaratorSeq);
    Associate(found, done, rest);
    AssignErrPersists(next, rest);
  }

  /** The inner loop of `find_variable_declarations`: numbers the usable
      declarators of one body item, continuing from the results so far. */
  method NumberDeclarators(decls: seq<Json>, generator: PowerOfTwoGenerator, ghost found: seq<Declarator>,
                           variables: seq<VariableNameAndAssignedNumber>, positions: seq<AddStringToPosition>)
    returns (r: Result<(seq<VariableNameAndAssignedNumber>, seq<AddStringToPosition>)>)
    requires AssignAll(found) == Ok((variables, positions)) && generator.count == |found|
    modifies generator
    ensures r == AssignAll(found + FlatMap(decls, DeclaratorSeq))
    ensures r.Ok? ==> generator.count == |found + FlatMap(decls, DeclaratorSeq)|
  {
    ghost var done := found;
    var vars, pos := variables, positions;
    var j := 0;
    while j < |decls|
      invariant 0 <= j <= |decls|
      invariant done == found + FlatMap(decls[..j], DeclaratorSeq)
      invariant AssignAll(done) == Ok((vars, pos)) && generator.count == |done|
    {
      FlatMapSnoc(decls, j, DeclaratorSeq);
      ghost var before := FlatMap(decls[..j], DeclaratorSeq);
      var d := DeclaratorOf(decls[j]);
      assert DeclaratorSeq(decls[j]) == (if d.Some? then [d.value] else []);
      if d.Some? {
        AssignSnoc(done, d.value, vars, pos);
        var num := generator.Next();
        ghost var next := done + [d.value];
        Associate(found, before, [d.value]);
        if num.Err? || d.value.start == 0 || d.value.end == 0 {
          ItemFailureIsFinal(decls, j, found, next);
          if num.Err? {
            return Err(num.error);
          }
          return Err(Panic("attempt to subtract with overflow"));
        }
        var entries := Entries(d.value, num.value);
        vars := vars + entries.0;
        pos := pos + entries.1;
        done := next;
      } else {
        assert before + [] == before;
      }
      j := j + 1;
    }
    assert decls[..j] == decls;
    return Ok((vars, pos));
  }

  /** `find_variable_declarations`: walks the body items and their
      declarators, numbering each usable declarator with the generator. */
  method FindVariableDeclarations(json: Json) returns (r: Result<(seq<VariableNameAndAssignedNumber>, seq<AddStringToPosition>)>)
    ensures r == VariableDeclarations(json)
  {
    var bodyValue := Get(json, "body");
    if !(bodyValue.Some? && bodyValue.value.Array?) {
      assert VariableDeclarations(json) == Ok(([], []));
      return Ok(([], []));
    }
    var body := bodyValue.value.items;
    assert VariableDeclarations(json) == AssignAll(Declarators(body));
    var variables: seq<VariableNameAndAssignedNumber> := [];
    var positions: seq<AddStringToPosition> := [];
    var generator := new PowerOfTwoGenerator();
    ghost var found: seq<Declarator> := [];
    var i := 0;
    while i < |body|
      invariant 0 <= i <= |body|
      invariant found == Declarators(body[..i])
      invariant AssignAll(found) == Ok((variables, positions)) && generator.count == |found|
    {
      FlatMapSnoc(body, i, ItemDeclarators);
      var item := NumberDeclarators(ItemDeclarations(body[i]), generator, found, variables, positions);
      ghost var next := found + ItemDeclarators(body[i]);
      assert next == Declarators(body[..i + 1]);
      if item.Err? {
        FlatMapSplit(body, i + 1, ItemDeclarators);
        AssignErrPersists(next, Declarators(body[i + 1..]));
        return item;
      }
      variables, positions := item.value.0, item.value.1;
      found := next;
      i := i + 1;
    }
    assert body[..i] == body;
    return Ok((variables, positions));
  }
}
