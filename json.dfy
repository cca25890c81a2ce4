/** The script's syntax tree as the compiler receives it: a `serde_json`
    value. Numbers are the unsigned integers the tree's spans carry; an
    object is its list of fields in iteration order. */
module Json {
  import opened Wrappers

  datatype Json =
    | Null
    | Bool(b: bool)
    | Number(n: nat)
    | String(s: string)
    | Array(items: seq<Json>)
    | Object(fields: seq<(string, Json)>)

  /** `map.get(key)`: the value stored under `key`. */
  function Lookup(fields: seq<(string, Json)>, key: string): (r: Option<Json>)
    ensures r.Some? <==> exists i :: 0 <= i < |fields| && fields[i].0 == key
    ensures r.Some? ==> exists i :: 0 <= i < |fields| && fields[i] == (key, r.value)
    decreases |fields|
  {
    if |fields| == 0 then None
    else if fields[0].0 == key then Some(fields[0].1)
    else
      var r := Lookup(fields[1..], key);
      assert r.Some? ==> exists i :: 0 <= i < |fields| - 1 && fields[1..][i] == (key, r.value);
      r
  }

  /** No two fields share a key, as in a JSON object read into a map. */
  predicate DistinctKeys(fields: seq<(string, Json)>) {
    forall i, j :: 0 <= i < j < |fields| ==> fields[i].0 != fields[j].0
  }

  /** A lookup does not depend on the order the fields are listed in. */
  lemma LookupPermuted(fields: seq<(string, Json)>, other: seq<(string, Json)>, key: string)
    requires DistinctKeys(fields) && multiset(fields) == multiset(other)
    ensures Lookup(fields, key) == Lookup(other, key)
  {
    var r, r' := Lookup(fields, key), Lookup(other, key);
    if r.Some? {
      var i :| 0 <= i < |fields| && fields[i] == (key, r.value);
      assert fields[i] in multiset(other);
      assert r'.Some?;
      var j :| 0 <= j < |other| && other[j] == (key, r'.value);
      assert other[j] in multiset(fields);
      var i' :| 0 <= i' < |fields| && fields[i'] == other[j];
    } else if r'.Some? {
      assert false;
    }
  }

  /** `value.get(key)`: `None` unless `value` is an object holding `key`. */
  function Get(value: Json, key: string): Option<Json> {
    if value.Object? then Lookup(value.fields, key) else None
  }

  /** `Some(Value::String(text))` as a `get` result. */
  predicate IsStringValue(v: Option<Json>, text: string) {
    v == Some(String(text))
  }
}
