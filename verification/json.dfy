/** JSON values as Python holds them after `json.loads`, with Python truthiness,
    an insertion-ordered dictionary, and the serialiser/parser pair treated as
    opaque functions (their grammar is not part of the model). */
module Json {
  import opened Base

  /** A decoded JSON value. Numbers are kept as integers: the pipeline only
      ever asks whether a number is zero. */
  datatype Json =
    | JNull
    | JBool(b: bool)
    | JNum(n: int)
    | JStr(s: string)
    | JArr(items: seq<Json>)
    | JObj(fields: map<string, Json>)

  /** Python's `bool(value)`: None, False, 0, "" and empty containers are false. */
  predicate Truthy(j: Json) {
    match j
    case JNull => false
    case JBool(b) => b
    case JNum(n) => n != 0
    case JStr(s) => s != ""
    case JArr(items) => |items| > 0
    case JObj(fields) => |fields| > 0
  }

  /** `dict.get(key, default)` on a JSON object; `None` when the value is not an
      object (the Python call would raise AttributeError). */
  function Get(j: Json, key: string, default: Json): (r: Option<Json>)
    ensures r.Some? <==> j.JObj?
    ensures j.JObj? && key in j.fields ==> r == Some(j.fields[key])
    ensures j.JObj? && key !in j.fields ==> r == Some(default)
  {
    match j
    case JObj(fields) => Some(if key in fields then fields[key] else default)
    case _ => None
  }

  /** What `json.loads` yields: a value, or the `JSONDecodeError` message. */
  datatype Parsed = Parsed(value: Json) | Malformed(message: string)

  /** The serialisers and the parser the program calls:
      `compact` is `json.dumps(v, ensure_ascii=False, separators=(',', ':'))`,
      `plain` is `json.dumps(v)` with default settings, `loads` is `json.loads`. */
  datatype JsonCodec = JsonCodec(compact: Json -> string, plain: Json -> string, loads: string -> Parsed)

  /** The codec reads back what its compact serialiser wrote for `j`, and
      that text is not empty (no JSON text is). */
  predicate RoundTrips(codec: JsonCodec, j: Json) {
    codec.compact(j) != "" && codec.loads(codec.compact(j)) == Parsed(j)
  }

  /** Bytes a character takes in UTF-8. */
  function Utf8Width(c: char): (w: nat)
    ensures 1 <= w <= 4
    ensures w == 1 <==> (c as int) < 0x80
  {
    var n := c as int;
    if n < 0x80 then 1 else if n < 0x800 then 2 else if n < 0x10000 then 3 else 4
  }

  /** `len(s.encode('utf-8'))`. */
  function Utf8Length(s: string): (r: nat)
    ensures |s| <= r <= 4 * |s|
    ensures r == |s| <==> forall i :: 0 <= i < |s| ==> (s[i] as int) < 0x80
  {
    if |s| == 0 then 0 else Utf8Width(s[0]) + Utf8Length(s[1..])
  }

  /** A Python `dict` with string keys, in insertion order (the order
      `json.load` reproduces from the file). */
  type Entries = seq<(string, Json)>

  function Keys(e: Entries): (r: set<string>)
    ensures forall k :: k in r <==> exists i :: 0 <= i < |e| && e[i].0 == k
  {
    if |e| == 0 then {} else {e[0].0} + Keys(e[1..])
  }

  /** `d.get(key)`: the value stored under the first entry with that key. */
  function Lookup(e: Entries, key: string): (r: Option<Json>)
    ensures r.Some? <==> key in Keys(e)
    ensures r.Some? ==> exists i :: 0 <= i < |e| && e[i] == (key, r.value)
  {
    if |e| == 0 then None
    else if e[0].0 == key then Some(e[0].1)
    else
      var r := Lookup(e[1..], key);
      if r.Some? then
        var i :| 0 <= i < |e[1..]| && e[1..][i] == (key, r.value);
        assert e[i + 1] == (key, r.value);
        r
      else r
  }

  function Values(e: Entries): (r: seq<Json>)
    ensures |r| == |e|
    ensures forall i :: 0 <= i < |e| ==> r[i] == e[i].1
  {
    if |e| == 0 then [] else [e[0].1] + Values(e[1..])
  }

  /** The top-level value of a JSON text that parses to something other than
      an object: a list, a string, or a number, boolean or null. */
  datatype TopLevel = TopList(items: seq<Json>) | TopText(text: string) | TopScalar

  /** A `metadata.json` file as a step finds it: missing, not JSON at all,
      JSON whose top-level value is not an object, or a dictionary. */
  datatype JsonFile = Absent | Unparsable | NonObject(top: TopLevel) | Loaded(entries: Entries)

  /** `json.load` returns without raising. */
  predicate Parses(f: JsonFile) {
    f.NonObject? || f.Loaded?
  }

  /** Python's `part in s` on strings: `part` occurs in `s` as a contiguous
      run (the empty string occurs everywhere). */
  function Contains(s: string, part: string): bool {
    part <= s || (|s| > 0 && Contains(s[1..], part))
  }

  /** `Contains` finds `part` exactly when it starts at some position of `s`. */
  lemma {:induction false} ContainsIff(s: string, part: string)
    ensures Contains(s, part) <==> exists i :: 0 <= i <= |s| && part <= s[i..]
  {
    if part <= s {
      assert part <= s[0..];
    } else if |s| > 0 {
      ContainsIff(s[1..], part);
      if Contains(s[1..], part) {
        var i :| 0 <= i <= |s[1..]| && part <= s[1..][i..];
        assert s[1..][i..] == s[i + 1..];
      } else {
        assert s[0..] == s;
        forall i | 0 < i <= |s|
          ensures s[i..] == s[1..][i - 1..]
        {
        }
      }
    } else {
      assert s[0..] == s;
    }
  }

  /** What `key in d` followed by `d[key]` does on the value `json.load`
      returned: no entry, the entry's value, the lookup raising (a list or
      string holds the key as an element or substring, but indexing it by a
      string raises TypeError), or the membership test itself raising (a
      number, boolean or null supports no `in`). */
  datatype KeyProbe = NoEntry | HasEntry(value: Json) | IndexRaises | TestRaises

  function ProbeKey(f: JsonFile, key: string): (r: KeyProbe)
    requires Parses(f)
    ensures r.HasEntry? <==> f.Loaded? && key in Keys(f.entries)
    ensures r.HasEntry? ==> Lookup(f.entries, key) == Some(r.value)
    ensures r.TestRaises? <==> f.NonObject? && f.top.TopScalar?
    ensures r.IndexRaises? <==> f.NonObject? && ((f.top.TopList? && JStr(key) in f.top.items)
                                                || (f.top.TopText? && exists i :: 0 <= i <= |f.top.text| && key <= f.top.text[i..]))
  {
    match f
    case Loaded(entries) =>
      if key in Keys(entries) then HasEntry(Lookup(entries, key).value) else NoEntry
    case NonObject(top) =>
      match top
      case TopList(items) => if JStr(key) in items then IndexRaises else NoEntry
      case TopText(text) => ContainsIff(text, key); if Contains(text, key) then IndexRaises else NoEntry
      case TopScalar => TestRaises
  }
}
