/**
 * The subset of `serde_json::Value` the service touches: construction,
 * `Value::get` with a string key, `as_str`, `as_array`, and compact
 * serialisation (`serde_json::to_string`) with object keys in the
 * ascending order of the default `BTreeMap`-backed `Map`.
 * Numbers are integers only.
 */
module Json {
  import opened Wrappers
  import opened RustCore

  datatype Json =
    | JNull
    | JBool(b: bool)
    | JNum(n: int)
    | JStr(s: string)
    | JArr(items: seq<Json>)
    | JObj(fields: map<string, Json>)

  /** `value.get(key)`: the member named `key` of an object; `None` for any other value. */
  function Get(v: Json, key: string): (r: Option<Json>)
    ensures r.Some? <==> v.JObj? && key in v.fields
    ensures r.Some? ==> r.value == v.fields[key]
  {
    if v.JObj? && key in v.fields then Some(v.fields[key]) else None
  }

  /** `and_then(Value::as_str)` after an optional lookup. */
  function AsStr(v: Option<Json>): (r: Option<string>)
    ensures r.Some? <==> v.Some? && v.value.JStr?
    ensures r.Some? ==> r.value == v.value.s
  {
    if v.Some? && v.value.JStr? then Some(v.value.s) else None
  }

  /** `and_then(Value::as_array)` after an optional lookup. */
  function AsArray(v: Option<Json>): (r: Option<seq<Json>>)
    ensures r.Some? <==> v.Some? && v.value.JArr?
    ensures r.Some? ==> r.value == v.value.items
  {
    if v.Some? && v.value.JArr? then Some(v.value.items) else None
  }

  // ---------------------------------------------------------------------------
  // Key order of a BTreeMap<String, _>: code-point (equivalently UTF-8 byte) order
  // ---------------------------------------------------------------------------

  predicate StrLe(a: string, b: string) {
    a == [] || (b != [] && (a[0] < b[0] || (a[0] == b[0] && StrLe(a[1..], b[1..]))))
  }

  lemma {:induction false} StrLeRefl(a: string)
    ensures StrLe(a, a)
  {
    if a != [] {
      StrLeRefl(a[1..]);
    }
  }

  lemma {:induction false} StrLeTotal(a: string, b: string)
    ensures StrLe(a, b) || StrLe(b, a)
  {
    if a != [] && b != [] && a[0] == b[0] {
      StrLeTotal(a[1..], b[1..]);
    }
  }

  lemma {:induction false} StrLeAntisym(a: string, b: string)
    requires StrLe(a, b) && StrLe(b, a)
    ensures a == b
  {
    if a != [] {
      StrLeAntisym(a[1..], b[1..]);
      assert a == [a[0]] + a[1..];
      assert b == [b[0]] + b[1..];
    }
  }

  lemma {:induction false} StrLeTrans(a: string, b: string, c: string)
    requires StrLe(a, b) && StrLe(b, c)
    ensures StrLe(a, c)
  {
    if a != [] && b != [] && c != [] && a[0] == b[0] == c[0] {
      StrLeTrans(a[1..], b[1..], c[1..]);
    }
  }

  predicate IsLeast(k: string, keys: set<string>) {
    k in keys && forall k' :: k' in keys ==> StrLe(k, k')
  }

  lemma {:induction false} LeastExists(keys: set<string>)
    requires keys != {}
    ensures exists k :: IsLeast(k, keys)
    decreases |keys|
  {
    var x :| x in keys;
    var rest := keys - {x};
    if rest == {} {
      assert keys == {x};
      StrLeRefl(x);
      assert IsLeast(x, keys);
    } else {
      LeastExists(rest);
      var m :| IsLeast(m, rest);
      StrLeTotal(x, m);
      if StrLe(x, m) {
        forall k' | k' in keys
          ensures StrLe(x, k')
        {
          if k' != x {
            StrLeTrans(x, m, k');
          } else {
            StrLeRefl(x);
          }
        }
        assert IsLeast(x, keys);
      } else {
        assert IsLeast(m, keys);
      }
    }
  }

  /** The smallest key of a non-empty key set. */
  function Least(keys: set<string>): (k: string)
    requires keys != {}
    ensures IsLeast(k, keys)
  {
    LeastExists(keys);
    assert forall a, b :: IsLeast(a, keys) && IsLeast(b, keys) ==> a == b by {
      forall a, b | IsLeast(a, keys) && IsLeast(b, keys)
        ensures a == b
      {
        StrLeAntisym(a, b);
      }
    }
    var k :| IsLeast(k, keys);
    k
  }

  /** Ascending without repetition. */
  predicate StrictlySorted(r: seq<string>) {
    forall i, j :: 0 <= i < j < |r| ==> StrLe(r[i], r[j]) && r[i] != r[j]
  }

  lemma PrependLeast(k: string, rest: seq<string>, keys: set<string>)
    requires IsLeast(k, keys) && StrictlySorted(rest)
    requires forall x :: x in rest ==> x in keys && x != k
    ensures StrictlySorted([k] + rest)
  {
    var r := [k] + rest;
    forall i, j | 0 <= i < j < |r|
      ensures StrLe(r[i], r[j]) && r[i] != r[j]
    {
      if i == 0 {
        assert r[j] == rest[j - 1] && rest[j - 1] in rest;
      } else {
        assert r[i] == rest[i - 1] && r[j] == rest[j - 1];
      }
    }
  }

  /** The keys of a map in the order a `BTreeMap` visits them. */
  function SortedKeys(keys: set<string>): (r: seq<string>)
    ensures |r| == |keys|
    ensures forall k :: k in r <==> k in keys
    ensures StrictlySorted(r)
    decreases |keys|
  {
    if keys == {} then []
    else
      var k := Least(keys);
      var rest := SortedKeys(keys - {k});
      PrependLeast(k, rest, keys);
      [k] + rest
  }

  // ---------------------------------------------------------------------------
  // serde_json::to_string (compact form)
  // ---------------------------------------------------------------------------

  function HexDigit(d: nat): char
    requires d < 16
  {
    "0123456789abcdef"[d]
  }

  /** serde_json's escaping of one character inside a string literal. */
  function EscapeChar(c: char): string {
    if c == '"' then "\\\""
    else if c == '\\' then "\\\\"
    else if c == '\U{0008}' then "\\b"
    else if c == '\t' then "\\t"
    else if c == '\n' then "\\n"
    else if c == '\U{000C}' then "\\f"
    else if c == '\r' then "\\r"
    else if c as int < 0x20 then "\\u00" + [HexDigit(c as int / 16), HexDigit(c as int % 16)]
    else [c]
  }

  /** A character that serde_json writes as it is inside a string literal. */
  predicate PlainChar(c: char) {
    c != '"' && c != '\\' && c as int >= 0x20
  }

  /** Text with no quote, no backslash and no control character is written unchanged. */
  lemma {:induction false} EscapePlain(s: string)
    requires forall i :: 0 <= i < |s| ==> PlainChar(s[i])
    ensures Escape(s) == s
  {
    if s != [] {
      EscapePlain(s[1..]);
      assert s == [s[0]] + s[1..];
    }
  }

  /** Such a string value is serialised as its text in quotes. */
  lemma SerializePlain(s: string)
    requires forall i :: 0 <= i < |s| ==> PlainChar(s[i])
    ensures Serialize(JStr(s)) == "\"" + s + "\""
  {
    EscapePlain(s);
  }

  function Escape(s: string): string {
    if s == [] then [] else EscapeChar(s[0]) + Escape(s[1..])
  }

  function Serialize(v: Json): (text: string)
    ensures |text| > 0
    ensures (v.JStr? || v.JArr? || v.JObj?) ==> |text| >= 2
    ensures v.JStr? ==> text[0] == '"' && text[|text| - 1] == '"'
    ensures v.JArr? ==> text[0] == '[' && text[|text| - 1] == ']'
    ensures v.JObj? ==> text[0] == '{' && text[|text| - 1] == '}'
    decreases v, 1
  {
    match v
    case JNull => "null"
    case JBool(b) => if b then "true" else "false"
    case JNum(n) => if n < 0 then "-" + Decimal(-n) else Decimal(n)
    case JStr(s) => "\"" + Escape(s) + "\""
    case JArr(items) => "[" + SerializeItems(items) + "]"
    case JObj(fields) => "{" + SerializeMembers(v, SortedKeys(fields.Keys)) + "}"
  }

  function SerializeItems(items: seq<Json>): string
    decreases items
  {
    if items == [] then []
    else if |items| == 1 then Serialize(items[0])
    else Serialize(items[0]) + "," + SerializeItems(items[1..])
  }

  function SerializeMembers(obj: Json, keys: seq<string>): string
    requires obj.JObj? && forall k :: k in keys ==> k in obj.fields
    decreases obj, 0, |keys|
  {
    if keys == [] then []
    else
      assert obj.fields[keys[0]] in obj.fields.Values;
      var member := "\"" + Escape(keys[0]) + "\":" + Serialize(obj.fields[keys[0]]);
      if |keys| == 1 then member else member + "," + SerializeMembers(obj, keys[1..])
  }
}
