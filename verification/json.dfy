/**
 * JSON values (RFC 8259) as Klaxon's JsonObject holds them: an object is a
 * linked hash map, so its entries keep the order in which their keys were
 * first put, and putting an existing key replaces its value in place.
 * Numbers are kept as the token that spelled them.
 */
module Json {
  import opened JsonNumber

  datatype Value =
    | JNull
    | JBool(b: bool)
    | JNumber(token: string)
    | JString(s: string)
    | JArray(items: seq<Value>)
    | JObject(fields: seq<Field>)

  datatype Field = Field(key: string, value: Value)

  /** The keys of an object's entries, in entry order. */
  function Keys(fields: seq<Field>): (r: seq<string>)
    ensures |r| == |fields|
    ensures forall i :: 0 <= i < |fields| ==> r[i] == fields[i].key
  {
    if fields == [] then [] else [fields[0].key] + Keys(fields[1..])
  }

  /** No key occurs twice: what a map, which a JsonObject is, always satisfies. */
  predicate UniqueKeys(fields: seq<Field>)
  {
    forall i, j :: 0 <= i < j < |fields| ==> fields[i].key != fields[j].key
  }

  /** The map an object's entries stand for. */
  function ToMap(fields: seq<Field>): (m: map<string, Value>)
    ensures forall k :: k in m <==> k in Keys(fields)
  {
    if fields == [] then map[]
    else ToMap(fields[1..])[fields[0].key := fields[0].value]
  }

  /** In an object without repeated keys, the map sends each entry's key to its value. */
  lemma {:induction false} ToMapLookup(fields: seq<Field>, i: nat)
    requires UniqueKeys(fields)
    requires i < |fields|
    ensures ToMap(fields)[fields[i].key] == fields[i].value
  {
    if i > 0 {
      UniqueTail(fields);
      assert fields[1..][i - 1] == fields[i];
      ToMapLookup(fields[1..], i - 1);
    }
  }

  /**
   * LinkedHashMap.put: the value of an existing key is replaced where it
   * stands; a new key is appended at the end.
   */
  function Put(fields: seq<Field>, key: string, value: Value): (r: seq<Field>)
    ensures key in Keys(fields) ==> Keys(r) == Keys(fields)
    ensures key !in Keys(fields) ==> r == fields + [Field(key, value)]
  {
    if fields == [] then [Field(key, value)]
    else if fields[0].key == key then [Field(key, value)] + fields[1..]
    else [fields[0]] + Put(fields[1..], key, value)
  }

  lemma UniqueTail(fields: seq<Field>)
    requires UniqueKeys(fields) && fields != []
    ensures UniqueKeys(fields[1..])
    ensures fields[0].key !in Keys(fields[1..])
  {
    forall a, b | 0 <= a < b < |fields[1..]|
      ensures fields[1..][a].key != fields[1..][b].key
    {
      assert fields[1..][a] == fields[a + 1] && fields[1..][b] == fields[b + 1];
    }
  }

  /** Putting into a map keeps its keys distinct. */
  lemma {:induction false} PutUnique(fields: seq<Field>, key: string, value: Value)
    requires UniqueKeys(fields)
    ensures UniqueKeys(Put(fields, key, value))
  {
    var r := Put(fields, key, value);
    if key !in Keys(fields) {
      forall a, b | 0 <= a < b < |r| ensures r[a].key != r[b].key {
        if b < |fields| {
          assert r[a] == fields[a] && r[b] == fields[b];
        } else {
          assert Keys(fields)[a] == r[a].key;
        }
      }
    } else {
      assert Keys(r) == Keys(fields);
      forall a, b | 0 <= a < b < |r| ensures r[a].key != r[b].key {
        assert Keys(r)[a] == Keys(fields)[a] && Keys(r)[b] == Keys(fields)[b];
      }
    }
  }

  /** The map a put object stands for gains or updates exactly one entry. */
  lemma {:induction false} PutToMap(fields: seq<Field>, key: string, value: Value)
    requires UniqueKeys(fields)
    ensures ToMap(Put(fields, key, value)) == ToMap(fields)[key := value]
  {
    if fields == [] {
    } else if fields[0].key == key {
      PutToMapHead(fields, key, value);
    } else {
      UniqueTail(fields);
      PutToMap(fields[1..], key, value);
      PutToMapTail(fields, key, value);
    }
  }

  lemma PutToMapHead(fields: seq<Field>, key: string, value: Value)
    requires fields != [] && fields[0].key == key
    ensures ToMap(Put(fields, key, value)) == ToMap(fields)[key := value]
  {
    var r := Put(fields, key, value);
    assert r[0] == Field(key, value) && r[1..] == fields[1..];
  }

  lemma PutToMapTail(fields: seq<Field>, key: string, value: Value)
    requires fields != [] && fields[0].key != key
    requires ToMap(Put(fields[1..], key, value)) == ToMap(fields[1..])[key := value]
    ensures ToMap(Put(fields, key, value)) == ToMap(fields)[key := value]
  {
    var r := Put(fields, key, value);
    assert r != [] && r[0] == fields[0] && r[1..] == Put(fields[1..], key, value);
    ToMapCons(r);
    ToMapCons(fields);
    UpdatesCommute(ToMap(fields[1..]), key, value, fields[0].key, fields[0].value);
  }

  lemma ToMapCons(fields: seq<Field>)
    requires fields != []
    ensures ToMap(fields) == ToMap(fields[1..])[fields[0].key := fields[0].value]
  {
  }

  lemma UpdatesCommute(m: map<string, Value>, k1: string, v1: Value, k2: string, v2: Value)
    requires k1 != k2
    ensures m[k1 := v1][k2 := v2] == m[k2 := v2][k1 := v1]
  {
  }

  // ---------------------------------------------------------------------------
  // Compact rendering, as JsonObject.toJsonString() with no pretty printing
  // ---------------------------------------------------------------------------

  /** A lower-case hexadecimal digit. */
  function HexDigit(n: nat): (c: char)
    requires n < 16
  {
    if n < 10 then '0' + n as char else 'a' + (n - 10) as char
  }

  /** The escaped form of one character inside a string literal. */
  function EscapeChar(c: char): (r: string)
    ensures |r| > 0 && r[0] != '"'
    ensures r[0] == '\\' <==> (c == '"' || c == '\\' || c < ' ')
  {
    if c == '"' then "\\\""
    else if c == '\\' then "\\\\"
    else if c == '\U{0008}' then "\\b"
    else if c == '\U{000C}' then "\\f"
    else if c == '\n' then "\\n"
    else if c == '\r' then "\\r"
    else if c == '\t' then "\\t"
    else if c < ' ' then "\\u00" + [HexDigit(c as nat / 16), HexDigit(c as nat % 16)]
    else [c]
  }

  function Escape(s: string): (r: string)
    ensures |r| >= |s|
  {
    if s == [] then [] else EscapeChar(s[0]) + Escape(s[1..])
  }

  /** A string literal: the escaped characters between double quotes. */
  function Quote(s: string): (r: string)
    ensures |r| >= 2 && r[0] == '"'
  {
    "\"" + Escape(s) + "\""
  }

  function Render(v: Value): string
    decreases v
  {
    match v
    case JNull => "null"
    case JBool(b) => if b then "true" else "false"
    case JNumber(t) => t
    case JString(s) => Quote(s)
    case JArray(items) => "[" + RenderItems(items) + "]"
    case JObject(fields) => "{" + RenderFields(fields) + "}"
  }

  /** Array elements separated by commas. */
  function RenderItems(items: seq<Value>): string
    decreases items
  {
    if items == [] then ""
    else if |items| == 1 then Render(items[0])
    else Render(items[0]) + "," + RenderItems(items[1..])
  }

  /** One object entry: the quoted key, a colon, the value. */
  function RenderField(f: Field): string
    decreases f
  {
    Quote(f.key) + ":" + Render(f.value)
  }

  /** Object entries, in entry order, separated by commas. */
  function RenderFields(fields: seq<Field>): string
    decreases fields
  {
    if fields == [] then ""
    else if |fields| == 1 then RenderField(fields[0])
    else RenderField(fields[0]) + "," + RenderFields(fields[1..])
  }

  /**
   * A value the parser can produce: every number is one RFC 8259 number token
   * and no object repeats a key.
   */
  predicate WellFormed(v: Value)
    decreases v
  {
    match v
    case JNumber(t) => IsNumber(t)
    case JArray(items) => forall i :: 0 <= i < |items| ==> WellFormed(items[i])
    case JObject(fields) => WellFormedFields(fields)
    case _ => true
  }

  predicate WellFormedFields(fields: seq<Field>)
    decreases fields
  {
    UniqueKeys(fields) && forall i :: 0 <= i < |fields| ==> WellFormed(fields[i].value)
  }

  /** Putting a well-formed value into a well-formed object keeps it well formed. */
  lemma {:induction false} PutWellFormed(fields: seq<Field>, key: string, value: Value)
    requires WellFormedFields(fields) && WellFormed(value)
    ensures WellFormedFields(Put(fields, key, value))
  {
    PutUnique(fields, key, value);
    var r := Put(fields, key, value);
    if fields != [] && fields[0].key != key {
      UniqueTail(fields);
      PutWellFormed(fields[1..], key, value);
      assert r == [fields[0]] + Put(fields[1..], key, value);
      forall i | 0 <= i < |r| ensures WellFormed(r[i].value) {
        if i > 0 {
          assert r[i] == Put(fields[1..], key, value)[i - 1];
        }
      }
    }
  }

  /**
   * Klaxon's JsonObject: a mutable map from keys to values whose entries keep
   * their insertion order.
   */
  class JsonObject {
    var fields: seq<Field>

    /** JsonObject(): an empty object. */
    constructor ()
      ensures fields == []
    {
      fields := [];
    }

    /** `o[key] = value`. */
    method Set(key: string, value: Value)
      modifies this
      ensures fields == Put(old(fields), key, value)
    {
      fields := Put(fields, key, value);
    }

    /** The object as a JSON value. */
    function ToValue(): (v: Value)
      reads this
      ensures v.JObject? && v.fields == fields
    {
      JObject(fields)
    }
  }
}
