/** The structured payload carried after `#!` in a search URL, and the library
    codecs (percent-encoding, JSON text) the crawler calls but does not define.
    The codecs are passed around as function values so that nothing about them is
    assumed beyond what a lemma states explicitly. */
module Codecs {
  import opened Text

  /** A JSON value as `json.loads` produces it; an object keeps its keys in
      insertion order, like a Python dict. Floating-point numbers are not modelled. */
  datatype Json =
    | JNull
    | JBool(b: bool)
    | JNumber(n: int)
    | JString(s: string)
    | JArray(items: seq<Json>)
    | JObject(fields: seq<(string, Json)>)

  /** The library functions used on the payload. */
  datatype Library = Library(
    unquote: string -> string,     // urllib.parse.unquote; never raises on a str
    quote: string -> string,       // urllib.parse.quote
    loads: string -> Option<Json>, // json.loads; None when it raises JSONDecodeError
    dumps: Json -> string,         // json.dumps(…, ensure_ascii=False)
    pretty: Json -> string)        // json.dumps(…, ensure_ascii=False, indent=2)

  /** No two entries of the object share a key. */
  predicate DistinctKeys(fields: seq<(string, Json)>) {
    forall i, j :: 0 <= i < j < |fields| ==> fields[i].0 != fields[j].0
  }

  /** No object anywhere inside the value repeats a key. `json.loads` only
      builds such values: a repeated key in the text keeps its last value. */
  predicate NoRepeatedKeys(j: Json) {
    match j
    case JArray(items) => forall i :: 0 <= i < |items| ==> NoRepeatedKeys(items[i])
    case JObject(fields) =>
      DistinctKeys(fields) && forall i :: 0 <= i < |fields| ==> NoRepeatedKeys(fields[i].1)
    case _ => true
  }

  /** The library reads back what it wrote: encoding a value without repeated
      keys as JSON text, percent-encoding it, decoding and parsing it again gives
      the same value; and parsing never yields a repeated key. */
  ghost predicate RoundTrips(lib: Library) {
    && (forall j :: NoRepeatedKeys(j) ==> lib.loads(lib.unquote(lib.quote(lib.dumps(j)))) == Some(j))
    && (forall s :: lib.loads(s).Some? ==> NoRepeatedKeys(lib.loads(s).value))
  }

  function Keys(fields: seq<(string, Json)>): seq<string> {
    if fields == [] then [] else [fields[0].0] + Keys(fields[1..])
  }

  /** `d.get(key)` on a dict given by its entries. */
  function GetField(fields: seq<(string, Json)>, key: string): (r: Option<Json>)
    ensures r.None? <==> key !in Keys(fields)
  {
    if fields == [] then None
    else if fields[0].0 == key then Some(fields[0].1)
    else GetField(fields[1..], key)
  }

  /** The entry at index `i` is what `get` returns when its key occurs nowhere before it. */
  lemma {:induction false} GetFieldAt(fields: seq<(string, Json)>, i: nat)
    requires i < |fields|
    requires forall j :: 0 <= j < i ==> fields[j].0 != fields[i].0
    ensures GetField(fields, fields[i].0) == Some(fields[i].1)
    decreases i
  {
    if i > 0 {
      GetFieldAt(fields[1..], i - 1);
    }
  }

  /** Entries before the first occurrence of a key can be skipped. */
  lemma {:induction false} GetFieldSkip(fields: seq<(string, Json)>, n: nat, key: string)
    requires n <= |fields|
    requires forall i :: 0 <= i < n ==> fields[i].0 != key
    ensures GetField(fields, key) == GetField(fields[n..], key)
    decreases n
  {
    if n > 0 {
      assert fields[1..][n - 1..] == fields[n..];
      GetFieldSkip(fields[1..], n - 1, key);
    }
  }

  /** `d[key] = v` on a dict given by its entries: an existing key keeps its
      position and takes the new value; a new key goes at the end. */
  function SetField(fields: seq<(string, Json)>, key: string, v: Json): (r: seq<(string, Json)>)
    ensures GetField(r, key) == Some(v)
    ensures forall k :: k != key ==> GetField(r, k) == GetField(fields, k)
    ensures key in Keys(fields) ==> Keys(r) == Keys(fields)
    ensures key !in Keys(fields) ==> Keys(r) == Keys(fields) + [key]
  {
    if fields == [] then [(key, v)]
    else if fields[0].0 == key then [(key, v)] + fields[1..]
    else [fields[0]] + SetField(fields[1..], key, v)
  }

  /** Every entry after an assignment is an old entry or the assigned one. */
  lemma {:induction false} SetFieldEntries(fields: seq<(string, Json)>, key: string, v: Json)
    ensures forall p :: p in SetField(fields, key, v) ==> p in fields || p == (key, v)
    decreases |fields|
  {
    if fields != [] && fields[0].0 != key {
      SetFieldEntries(fields[1..], key, v);
      forall p | p in fields[1..]
        ensures p in fields
      {
        var i :| 0 <= i < |fields[1..]| && fields[1..][i] == p;
        assert fields[i + 1] == p;
      }
    }
  }

  /** Assigning a key of an object without repeated keys keeps it so. */
  lemma SetFieldNoRepeats(fields: seq<(string, Json)>, key: string, v: Json)
    requires NoRepeatedKeys(JObject(fields)) && NoRepeatedKeys(v)
    ensures NoRepeatedKeys(JObject(SetField(fields, key, v)))
  {
    SetFieldDistinct(fields, key, v);
    var r := SetField(fields, key, v);
    SetFieldEntries(fields, key, v);
    forall i | 0 <= i < |r|
      ensures NoRepeatedKeys(r[i].1)
    {
      assert r[i] in r;
      if r[i] != (key, v) {
        var t :| 0 <= t < |fields| && fields[t] == r[i];
      }
    }
  }

  lemma {:induction false} SetFieldDistinct(fields: seq<(string, Json)>, key: string, v: Json)
    requires DistinctKeys(fields)
    ensures DistinctKeys(SetField(fields, key, v))
    decreases |fields|
  {
    if fields == [] {
    } else if fields[0].0 == key {
      var r := SetField(fields, key, v);
      assert forall i :: 1 <= i < |r| ==> r[i] == fields[i];
    } else {
      var rest := fields[1..];
      SetFieldDistinct(rest, key, v);
      SetFieldEntries(rest, key, v);
      FirstKeyFresh(fields);
      DistinctCons(fields[0], SetField(rest, key, v));
    }
  }

  /** The first key of an object without repeated keys occurs nowhere after it. */
  lemma FirstKeyFresh(fields: seq<(string, Json)>)
    requires fields != [] && DistinctKeys(fields)
    ensures DistinctKeys(fields[1..])
    ensures forall q :: q in fields[1..] ==> q.0 != fields[0].0
  {
    var rest := fields[1..];
    assert forall i :: 0 <= i < |rest| ==> rest[i] == fields[i + 1];
  }

  lemma DistinctCons(p: (string, Json), rest: seq<(string, Json)>)
    requires DistinctKeys(rest)
    requires forall q :: q in rest ==> q.0 != p.0
    ensures DistinctKeys([p] + rest)
  {
    var r := [p] + rest;
    assert forall i :: 1 <= i < |r| ==> r[i] == rest[i - 1] && rest[i - 1] in rest;
  }

  /** The second assignment to a key overrides the first. */
  lemma {:induction false} SetFieldTwice(fields: seq<(string, Json)>, key: string, v1: Json, v2: Json)
    ensures SetField(SetField(fields, key, v1), key, v2) == SetField(fields, key, v2)
    decreases |fields|
  {
    if fields != [] && fields[0].0 != key {
      SetFieldTwice(fields[1..], key, v1, v2);
    }
  }
}
