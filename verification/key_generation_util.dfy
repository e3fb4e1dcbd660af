/**
 * The row key of a record, as KeyGenerationUtil derives it from a message
 * body. A body made only of hexadecimal digits and hyphens (a GUID, say)
 * stands for the object {"id": body}; any other body must be a JSON object.
 * The object's top-level entries are sorted by key and rendered compactly;
 * that canonical text, UTF-8 encoded, preceded by its CRC-32 as four
 * big-endian bytes, is the key.
 */
module KeyGenerationUtil {
  import opened Wrappers
  import opened Bytes
  import Utf8
  import Crc32
  import opened Json
  import opened JsonParser
  import opened JsonRoundTrip
  import opened KeyOrder

  /** Why a body has no key: the exception generateKey lets through. */
  datatype KeyError =
    | InvalidJson   // IllegalArgumentException("Cannot parse invalid JSON")
    | NotAnObject   // the body is JSON but not an object: the cast to JsonObject fails

  // ---------------------------------------------------------------------------
  // getId and convertToJson
  // ---------------------------------------------------------------------------

  predicate IsIdChar(c: char)
  {
    '0' <= c <= '9' || 'a' <= c <= 'f' || 'A' <= c <= 'F' || c == '-'
  }

  /** The whole body matches ^[0-9a-fA-F-]*$; the empty body does too. */
  predicate IsIdLike(s: string)
  {
    forall i :: 0 <= i < |s| ==> IsIdChar(s[i])
  }

  /**
   * What getId makes of a body: an id-like body becomes an object with the
   * single entry "id"; any other body is read as JSON and must be an object.
   * This is the specification GetId is proved against: GetId fills a
   * JsonObject in place, and the lemmas below are stated on this function.
   */
  function IdOrObject(text: string): Result<seq<Field>, KeyError>
  {
    if IsIdLike(text) then Ok([Field("id", JString(text))])
    else match Parse(text)
      case None => Err(InvalidJson)
      case Some(JObject(fields)) => Ok(fields)
      case Some(_) => Err(NotAnObject)
  }

  /** getId: fills a fresh JsonObject for an id-like body, otherwise parses it. */
  method GetId(bodyString: string) returns (r: Result<seq<Field>, KeyError>)
    ensures r == IdOrObject(bodyString)
  {
    if IsIdLike(bodyString) {
      var idObject := new JsonObject();
      idObject.Set("id", JString(bodyString));
      return Ok(idObject.fields);
    }
    var parsed := Parse(bodyString);
    if parsed.None? {
      r := Err(InvalidJson);
    } else if parsed.value.JObject? {
      r := Ok(parsed.value.fields);
    } else {
      r := Err(NotAnObject);
    }
  }

  /** Text that parses to an object is never taken for an id. */
  lemma ParsedObjectNotIdLike(text: string)
    requires Parse(text).Some? && Parse(text).value.JObject?
    ensures !IsIdLike(text)
  {
  }

  /** Every object getId produces is one the writer renders faithfully. */
  lemma IdOrObjectWellFormed(text: string)
    ensures IdOrObject(text).Ok? ==> WellFormedFields(IdOrObject(text).value)
  {
    if !IsIdLike(text) && Parse(text).Some? {
      ParseWellFormed(text);
    }
  }

  /** convertToJson: the body decoded as UTF-8, then getId. */
  function ConvertToJson(body: seq<byte>): (r: Result<seq<Field>, KeyError>)
    ensures r.Ok? ==> WellFormedFields(r.value)
  {
    IdOrObjectWellFormed(Utf8.Decode(body));
    IdOrObject(Utf8.Decode(body))
  }

  // ---------------------------------------------------------------------------
  // sortJsonByKey
  // ---------------------------------------------------------------------------

  /** The entries of `m` for the keys `ks`, in that order. */
  function Entries(m: map<string, Value>, ks: seq<string>): (r: seq<Field>)
    requires forall k :: k in ks ==> k in m
    ensures Keys(r) == ks
    ensures forall i :: 0 <= i < |r| ==> r[i].value == m[ks[i]]
  {
    if ks == [] then [] else [Field(ks[0], m[ks[0]])] + Entries(m, ks[1..])
  }

  lemma SortedDistinct(ks: seq<string>)
    requires StrictlySorted(ks)
    ensures forall i, j :: 0 <= i < j < |ks| ==> ks[i] != ks[j]
  {
    forall i, j | 0 <= i < j < |ks| ensures ks[i] != ks[j] {
      Irreflexive(ks[i]);
    }
  }

  /** Listing every key of a map once gives back the map. */
  lemma EntriesMap(m: map<string, Value>, ks: seq<string>)
    requires forall k :: k in ks <==> k in m
    requires forall i, j :: 0 <= i < j < |ks| ==> ks[i] != ks[j]
    ensures ToMap(Entries(m, ks)) == m
  {
    var r := Entries(m, ks);
    EntriesUnique(m, ks);
    forall k | k in m ensures ToMap(r)[k] == m[k] {
      EntriesLookup(m, ks, k);
    }
  }

  lemma EntriesUnique(m: map<string, Value>, ks: seq<string>)
    requires forall k :: k in ks ==> k in m
    requires forall i, j :: 0 <= i < j < |ks| ==> ks[i] != ks[j]
    ensures UniqueKeys(Entries(m, ks))
  {
    var r := Entries(m, ks);
    forall i, j | 0 <= i < j < |r| ensures r[i].key != r[j].key {
      assert Keys(r)[i] == ks[i] && Keys(r)[j] == ks[j];
    }
  }

  lemma EntriesLookup(m: map<string, Value>, ks: seq<string>, k: string)
    requires forall k :: k in ks ==> k in m
    requires UniqueKeys(Entries(m, ks))
    requires k in ks
    ensures k in ToMap(Entries(m, ks)) && ToMap(Entries(m, ks))[k] == m[k]
  {
    var r := Entries(m, ks);
    var i :| 0 <= i < |ks| && ks[i] == k;
    assert r[i].key == Keys(r)[i];
    ToMapLookup(r, i);
  }

  /**
   * toSortedMap: the entries of the object, each key once, in ascending
   * String.compareTo order; the map they stand for is unchanged.
   */
  function SortedFields(obj: seq<Field>): (r: seq<Field>)
    ensures StrictlySorted(Keys(r))
    ensures ToMap(r) == ToMap(obj)
  {
    var m := ToMap(obj);
    var ks := SortKeys(Keys(obj));
    SortedDistinct(ks);
    EntriesMap(m, ks);
    Entries(m, ks)
  }

  /** sortJsonByKey: the compact rendering of the sorted object. */
  function SortJsonByKey(unsortedJson: seq<Field>): (r: string)
    ensures |r| >= 2 && r[0] == '{' && r[|r| - 1] == '}'
  {
    Render(JObject(SortedFields(unsortedJson)))
  }

  lemma {:induction false} ToMapWellFormed(fields: seq<Field>)
    requires forall i :: 0 <= i < |fields| ==> WellFormed(fields[i].value)
    ensures forall k :: k in ToMap(fields) ==> WellFormed(ToMap(fields)[k])
  {
    if fields != [] {
      var tail := fields[1..];
      assert forall i :: 0 <= i < |tail| ==> tail[i] == fields[i + 1];
      ToMapWellFormed(tail);
    }
  }

  /** Sorting a well-formed object gives a well-formed object. */
  lemma SortedFieldsWellFormed(obj: seq<Field>)
    requires WellFormedFields(obj)
    ensures WellFormedFields(SortedFields(obj))
  {
    var r := SortedFields(obj);
    SortedDistinct(Keys(r));
    assert UniqueKeys(r) by {
      forall i, j | 0 <= i < j < |r| ensures r[i].key != r[j].key {
        assert Keys(r)[i] == r[i].key && Keys(r)[j] == r[j].key;
      }
    }
    ToMapWellFormed(obj);
    forall i | 0 <= i < |r| ensures WellFormed(r[i].value) {
      ToMapLookup(r, i);
      assert r[i].key in Keys(r) by { assert Keys(r)[i] == r[i].key; }
    }
  }

  /** Reading the sorted text back gives the sorted object. */
  lemma SortJsonByKeyReadsBack(unsortedJson: seq<Field>)
    requires WellFormedFields(unsortedJson)
    ensures Parse(SortJsonByKey(unsortedJson)) == Some(JObject(SortedFields(unsortedJson)))
  {
    SortedFieldsWellFormed(unsortedJson);
    RenderRoundTrip(JObject(SortedFields(unsortedJson)));
  }

  /**
   * Two objects have the same sorted text exactly when they stand for the
   * same map: entry order does not matter, and any difference in a key or in
   * a value (its type included) shows.
   */
  lemma SortJsonByKeyInjective(a: seq<Field>, b: seq<Field>)
    requires WellFormedFields(a) && WellFormedFields(b)
    ensures SortJsonByKey(a) == SortJsonByKey(b) <==> ToMap(a) == ToMap(b)
  {
    if ToMap(a) == ToMap(b) {
      SortKeysDeterminedBySet(Keys(a), Keys(b));
    }
    if SortJsonByKey(a) == SortJsonByKey(b) {
      SortedFieldsWellFormed(a);
      SortedFieldsWellFormed(b);
      RenderInjective(JObject(SortedFields(a)), JObject(SortedFields(b)));
    }
  }

  lemma {:induction false} LexLessAt(a: seq<int>, b: seq<int>, k: nat)
    requires k < |a| && k < |b| && a[..k] == b[..k] && a[k] < b[k]
    ensures LexLess(a, b)
  {
    if k > 0 {
      assert a[0] == a[..k][0] == b[..k][0] == b[0];
      assert a[1..][..k - 1] == a[..k][1..] == b[..k][1..] == b[1..][..k - 1];
      LexLessAt(a[1..], b[1..], k - 1);
    }
  }

  /** A string of the Basic Multilingual Plane is one code unit per character. */
  lemma {:induction false} Utf16Bmp(s: string)
    requires forall i :: 0 <= i < |s| ==> (s[i] as int) < 0x1_0000
    ensures |Utf16(s)| == |s|
    ensures forall i :: 0 <= i < |s| ==> Utf16(s)[i] == s[i] as int
  {
    if s != [] {
      Utf16Bmp(s[1..]);
      assert Utf16(s) == [s[0] as int] + Utf16(s[1..]);
    }
  }

  /** Of two such strings that agree up to `k`, the one with the smaller character at `k` comes first. */
  lemma BmpLess(x: string, y: string, k: nat)
    requires forall i :: 0 <= i < |x| ==> (x[i] as int) < 0x1_0000
    requires forall i :: 0 <= i < |y| ==> (y[i] as int) < 0x1_0000
    requires k < |x| && k < |y| && x[..k] == y[..k] && x[k] < y[k]
    ensures Less(x, y)
  {
    Utf16Bmp(x);
    Utf16Bmp(y);
    var a := Utf16(x);
    var b := Utf16(y);
    assert a[..k] == b[..k] by {
      forall i | 0 <= i < k ensures a[i] == b[i] {
        assert x[i] == x[..k][i] == y[..k][i] == y[i];
      }
    }
    LexLessAt(a, b, k);
  }

  lemma InsertBefore(k: string, ks: seq<string>)
    requires StrictlySorted(ks) && ks != [] && Less(k, ks[0])
    ensures Insert(k, ks) == [k] + ks
  {
    Irreflexive(k);
  }

  lemma InsertAfter(k: string, ks: seq<string>)
    requires StrictlySorted(ks) && ks != [] && Less(ks[0], k)
    ensures Insert(k, ks) == [ks[0]] + Insert(k, ks[1..])
  {
    Irreflexive(k);
    Asymmetric(ks[0], k);
  }

  // The test example of sortJsonByKey, proved in small steps (the key order,
  // the sorted keys, the map, each rendered entry, the joins) so that each
  // step stays cheap for the solver whatever its random seed.

  lemma SortExampleOrder()
    ensures Less("testA", "testC") && Less("testC", "testb") && Less("testA", "testb")
  {
    BmpLess("testA", "testC", 4);
    BmpLess("testC", "testb", 4);
    BmpLess("testA", "testb", 4);
  }

  lemma SortExampleKeys()
    ensures SortKeys(["testb", "testA", "testC"]) == ["testA", "testC", "testb"]
  {
    SortExampleOrder();
    var ks := ["testb", "testA", "testC"];
    assert ks[1..] == ["testA", "testC"];
    assert ks[1..][1..] == ["testC"];
    InsertBefore("testA", ["testC"]);
    assert SortKeys(ks[1..]) == ["testA", "testC"];
    InsertAfter("testb", ["testA", "testC"]);
    InsertAfter("testb", ["testC"]);
    assert ["testA", "testC"][1..] == ["testC"];
    assert ["testC"][1..] == [];
  }

  lemma SortExampleMap()
    ensures ToMap([Field("testb", JBool(true)), Field("testA", JString("test1")), Field("testC", JNumber("2"))])
         == map["testb" := JBool(true), "testA" := JString("test1"), "testC" := JNumber("2")]
  {
    var obj := [Field("testb", JBool(true)), Field("testA", JString("test1")), Field("testC", JNumber("2"))];
    assert obj[1..] == [obj[1], obj[2]];
    assert obj[1..][1..] == [obj[2]];
  }

  lemma SortExampleEntries()
    ensures Entries(map["testb" := JBool(true), "testA" := JString("test1"), "testC" := JNumber("2")], ["testA", "testC", "testb"])
         == [Field("testA", JString("test1")), Field("testC", JNumber("2")), Field("testb", JBool(true))]
  {
    var ks := ["testA", "testC", "testb"];
    assert ks[1..] == ["testC", "testb"];
    assert ks[1..][1..] == ["testb"];
  }

  lemma SortExampleFields()
    ensures SortedFields([Field("testb", JBool(true)), Field("testA", JString("test1")), Field("testC", JNumber("2"))])
         == [Field("testA", JString("test1")), Field("testC", JNumber("2")), Field("testb", JBool(true))]
  {
    var obj := [Field("testb", JBool(true)), Field("testA", JString("test1")), Field("testC", JNumber("2"))];
    assert Keys(obj) == ["testb", "testA", "testC"];
    SortExampleKeys();
    SortExampleMap();
    SortExampleEntries();
  }

  lemma SortExampleField(k: string, v: Value, text: string)
    requires forall i :: 0 <= i < |k| ==> IsPlain(k[i])
    requires Render(v) == text
    ensures RenderField(Field(k, v)) == "\"" + k + "\":" + text
  {
    EscapePlain(k);
  }

  lemma SortExampleLast()
    ensures RenderFields([Field("testb", JBool(true))]) == "\"testb\":true"
  {
    SortExampleField("testb", JBool(true), "true");
  }

  lemma SortExampleMiddle()
    ensures RenderField(Field("testC", JNumber("2"))) == "\"testC\":2"
  {
    SortExampleField("testC", JNumber("2"), "2");
  }

  lemma SortExampleTailJoin(head: string, tail: string)
    requires head == "\"testC\":2" && tail == "\"testb\":true"
    ensures head + "," + tail == "\"testC\":2,\"testb\":true"
  {
  }

  lemma SortExampleTail()
    ensures RenderFields([Field("testC", JNumber("2")), Field("testb", JBool(true))]) == "\"testC\":2,\"testb\":true"
  {
    var r := [Field("testC", JNumber("2")), Field("testb", JBool(true))];
    RenderFieldsCons(r);
    assert r[1..] == [Field("testb", JBool(true))];
    SortExampleLast();
    SortExampleMiddle();
    SortExampleTailJoin(RenderField(r[0]), RenderFields(r[1..]));
  }

  lemma SortExampleHead()
    ensures RenderField(Field("testA", JString("test1"))) == "\"testA\":\"test1\""
  {
    SortExampleValue();
    SortExampleField("testA", JString("test1"), "\"test1\"");
  }

  lemma SortExampleValue()
    ensures Render(JString("test1")) == "\"test1\""
  {
    EscapePlain("test1");
  }

  lemma RenderFieldsCons(fields: seq<Field>)
    requires |fields| > 1
    ensures RenderFields(fields) == RenderField(fields[0]) + "," + RenderFields(fields[1..])
  {
  }

  lemma SortExampleText()
    ensures RenderFields([Field("testA", JString("test1")), Field("testC", JNumber("2")), Field("testb", JBool(true))])
         == "\"testA\":\"test1\",\"testC\":2,\"testb\":true"
  {
    var r := [Field("testA", JString("test1")), Field("testC", JNumber("2")), Field("testb", JBool(true))];
    RenderFieldsCons(r);
    assert r[1..] == [Field("testC", JNumber("2")), Field("testb", JBool(true))];
    SortExampleTail();
    SortExampleHead();
    SortExampleJoin(RenderField(r[0]), RenderFields(r[1..]));
  }

  lemma SortExampleJoin(head: string, tail: string)
    requires head == "\"testA\":\"test1\"" && tail == "\"testC\":2,\"testb\":true"
    ensures head + "," + tail == "\"testA\":\"test1\",\"testC\":2,\"testb\":true"
  {
  }

  /** The example of the key-order test: upper-case letters sort before lower-case ones. */
  lemma SortExample()
    ensures SortJsonByKey([Field("testb", JBool(true)), Field("testA", JString("test1")), Field("testC", JNumber("2"))])
         == "{" + "\"testA\":\"test1\",\"testC\":2,\"testb\":true" + "}"
  {
    var obj := [Field("testb", JBool(true)), Field("testA", JString("test1")), Field("testC", JNumber("2"))];
    var r := [Field("testA", JString("test1")), Field("testC", JNumber("2")), Field("testb", JBool(true))];
    SortExampleFields();
    SortExampleText();
    assert SortJsonByKey(obj) == "{" + RenderFields(r) + "}";
  }

  // ---------------------------------------------------------------------------
  // generateFourByteChecksum and generateKey
  // ---------------------------------------------------------------------------

  /** The CRC-32 of the UTF-8 bytes of `input`, as four big-endian bytes. */
  function FourByteChecksum(input: string): (r: seq<byte>)
    ensures |r| == 4
    ensures FromBigEndian(r) == Crc32.Checksum(Utf8.Encode(input))
  {
    BigEndianRoundTrip(Crc32.Checksum(Utf8.Encode(input)));
    BigEndian(Crc32.Checksum(Utf8.Encode(input)))
  }

  /** generateFourByteChecksum: a CRC32 updated with all the bytes, put into a four-byte buffer. */
  method GenerateFourByteChecksum(input: string) returns (r: seq<byte>)
    ensures r == FourByteChecksum(input)
  {
    var bytes := Utf8.Encode(input);
    var checksum := new Crc32.Crc32();
    checksum.Update(bytes, 0, |bytes|);
    assert bytes[0..|bytes|] == bytes;
    var buffer := new ByteBuffer.Allocate(4);
    buffer.PutInt(checksum.Value());
    r := buffer.Array();
  }

  /** The canonical text of a body: its object, sorted and rendered. */
  function CanonicalForm(body: seq<byte>): Result<string, KeyError>
  {
    match ConvertToJson(body)
    case Err(e) => Err(e)
    case Ok(json) => Ok(SortJsonByKey(json))
  }

  /**
   * generateKey: the checksum bytes followed by the UTF-8 bytes of the
   * canonical text. A body with no canonical text has no key, for the same
   * reason.
   */
  function GenerateKey(jsonString: seq<byte>): (r: Result<seq<byte>, KeyError>)
    ensures r.Err? <==> CanonicalForm(jsonString).Err?
    ensures r.Err? ==> r.error == CanonicalForm(jsonString).error
    ensures r.Ok? ==> |r.value| >= 4 && r.value[4..] == Utf8.Encode(CanonicalForm(jsonString).value)
    ensures r.Ok? ==> FromBigEndian(r.value[..4]) == Crc32.Checksum(r.value[4..])
  {
    match CanonicalForm(jsonString)
    case Err(e) => Err(e)
    case Ok(jsonOrdered) =>
      var checksumBytes := FourByteChecksum(jsonOrdered);
      var key := checksumBytes + Utf8.Encode(jsonOrdered);
      assert key[..4] == checksumBytes && key[4..] == Utf8.Encode(jsonOrdered);
      Ok(key)
  }

  /** Two keys are equal exactly when their canonical texts are, whatever the checksums. */
  lemma KeyIdentifiesCanonicalForm(a: seq<byte>, b: seq<byte>)
    requires GenerateKey(a).Ok? && GenerateKey(b).Ok?
    ensures GenerateKey(a) == GenerateKey(b) <==> CanonicalForm(a) == CanonicalForm(b)
  {
    if GenerateKey(a) == GenerateKey(b) {
      Utf8.EncodeInjective(CanonicalForm(a).value, CanonicalForm(b).value);
    }
  }

  /**
   * Two bodies that both yield objects get the same key exactly when the
   * objects stand for the same map.
   */
  lemma KeyDeterminedByMap(a: seq<byte>, b: seq<byte>)
    requires ConvertToJson(a).Ok? && ConvertToJson(b).Ok?
    ensures GenerateKey(a) == GenerateKey(b) <==> ToMap(ConvertToJson(a).value) == ToMap(ConvertToJson(b).value)
  {
    KeyIdentifiesCanonicalForm(a, b);
    SortJsonByKeyInjective(ConvertToJson(a).value, ConvertToJson(b).value);
  }

  /** Text that reads as an object converts to that object. */
  lemma ObjectTextConverts(text: string, fields: seq<Field>)
    requires Parse(text) == Some(JObject(fields))
    ensures ConvertToJson(Utf8.Encode(text)) == Ok(fields)
  {
    Utf8.DecodeEncode(text);
    ParsedObjectNotIdLike(text);
  }

  /** An object's text with any whitespace between its tokens converts to that object. */
  lemma SpacedTextConverts(fields: seq<Field>, layout: Layout, before: string, after: string)
    requires WellFormedFields(fields) && Blank(layout) && AllWhitespace(before) && AllWhitespace(after)
    ensures ConvertToJson(Utf8.Encode(before + Spaced(JObject(fields), layout) + after)) == Ok(fields)
  {
    TextRoundTrip(JObject(fields), layout, before, after);
    ObjectTextConverts(before + Spaced(JObject(fields), layout) + after, fields);
  }

  /**
   * Whitespace does not change a key: two texts of one object that differ
   * only in the runs of whitespace between their tokens, and before and after
   * them, get the same key (the compact text is the one with no whitespace).
   */
  lemma WhitespaceDoesNotMatter(fields: seq<Field>, s: string, t: string, a: Layout, b: Layout,
                                aBefore: string, aAfter: string, bBefore: string, bAfter: string)
    requires WellFormedFields(fields) && Blank(a) && Blank(b)
    requires AllWhitespace(aBefore) && AllWhitespace(aAfter) && AllWhitespace(bBefore) && AllWhitespace(bAfter)
    requires s == aBefore + Spaced(JObject(fields), a) + aAfter
    requires t == bBefore + Spaced(JObject(fields), b) + bAfter
    ensures GenerateKey(Utf8.Encode(s)) == GenerateKey(Utf8.Encode(t))
  {
    KeyOfSpacedText(fields, a, aBefore, aAfter);
    KeyOfSpacedText(fields, b, bBefore, bAfter);
  }

  /** An object's text with whitespace between its tokens has the key of its compact text. */
  lemma KeyOfSpacedText(fields: seq<Field>, layout: Layout, before: string, after: string)
    requires WellFormedFields(fields) && Blank(layout) && AllWhitespace(before) && AllWhitespace(after)
    ensures GenerateKey(Utf8.Encode(before + Spaced(JObject(fields), layout) + after))
         == GenerateKey(Utf8.Encode(Render(JObject(fields))))
  {
    SpacedTextConverts(fields, layout, before, after);
    RenderRoundTrip(JObject(fields));
    ObjectTextConverts(Render(JObject(fields)), fields);
    SameObjectSameKey(Utf8.Encode(before + Spaced(JObject(fields), layout) + after),
                      Utf8.Encode(Render(JObject(fields))));
  }

  /** The key depends on the body only through the object it converts to. */
  lemma SameObjectSameKey(x: seq<byte>, y: seq<byte>)
    requires ConvertToJson(x) == ConvertToJson(y)
    ensures GenerateKey(x) == GenerateKey(y)
  {
    assert CanonicalForm(x) == CanonicalForm(y);
  }

  /** A character the writer leaves as it is. */
  predicate IsPlain(c: char)
  {
    c >= ' ' && c != '"' && c != '\\'
  }

  lemma {:induction false} EscapePlain(s: string)
    requires forall i :: 0 <= i < |s| ==> IsPlain(s[i])
    ensures Escape(s) == s
  {
    if s != [] {
      EscapePlain(s[1..]);
      assert s == [s[0]] + s[1..];
    }
  }

  lemma EscapeIdLike(s: string)
    requires IsIdLike(s)
    ensures Escape(s) == s
  {
    EscapePlain(s);
  }

  /** An id-like body's canonical text is {"id":"<body>"}, the body unescaped. */
  lemma IdBodyCanonicalForm(body: seq<byte>)
    requires IsIdLike(Utf8.Decode(body))
    ensures CanonicalForm(body) == Ok("{\"id\":\"" + Utf8.Decode(body) + "\"}")
  {
    var id := Utf8.Decode(body);
    IdObjectSorted(id);
    RenderIdObject(id);
  }

  lemma IdObjectSorted(id: string)
    ensures SortedFields([Field("id", JString(id))]) == [Field("id", JString(id))]
  {
    var obj := [Field("id", JString(id))];
    assert Keys(obj) == ["id"];
    assert SortKeys(Keys(obj)) == ["id"];
  }

  lemma RenderIdObject(id: string)
    requires IsIdLike(id)
    ensures Render(JObject([Field("id", JString(id))])) == "{\"id\":\"" + id + "\"}"
  {
    var value := "\"" + id + "\"";
    assert Render(JString(id)) == value by {
      EscapeIdLike(id);
    }
    IdKeyQuoted();
    var inner := "\"id\"" + ":" + value;
    assert RenderFields([Field("id", JString(id))]) == inner;
    assert "{" + inner + "}" == "{\"id\":\"" + id + "\"}";
  }

  lemma IdKeyQuoted()
    ensures Quote("id") == "\"id\""
  {
    EscapePlain("id");
  }

  /** Sending an id, or the object {"id":"<id>"} itself, gives the same key. */
  lemma IdBodyAsObject(id: string)
    requires IsIdLike(id)
    ensures GenerateKey(Utf8.Encode(id)) == GenerateKey(Utf8.Encode("{\"id\":\"" + id + "\"}"))
  {
    var obj := [Field("id", JString(id))];
    RenderIdObject(id);
    RenderRoundTrip(JObject(obj));
    ObjectTextConverts("{\"id\":\"" + id + "\"}", obj);
    Utf8.DecodeEncode(id);
  }

  // ---------------------------------------------------------------------------
  // printableKey
  // ---------------------------------------------------------------------------

  /** %02x: two lower-case hexadecimal digits of the unsigned byte. */
  function HexByte(b: byte): string
  {
    [HexDigit(b / 16), HexDigit(b % 16)]
  }

  /** Byte.toChar: the signed byte, sign-extended to a UTF-16 code unit. */
  function ByteChar(b: byte): char
  {
    if b < 0x80 then b as char else (0xFF00 + b) as char
  }

  /** "\x" and two hexadecimal digits for each byte. */
  function HexPrefix(bytes: seq<byte>): (r: string)
    ensures |r| == 4 * |bytes|
    ensures forall i :: 0 <= i < |bytes| ==> r[4 * i..4 * i + 4] == "\\x" + HexByte(bytes[i])
  {
    if bytes == [] then []
    else
      var tail := HexPrefix(bytes[1..]);
      var r := "\\x" + HexByte(bytes[0]) + tail;
      assert forall i :: 1 <= i < |bytes| ==> r[4 * i..4 * i + 4] == tail[4 * (i - 1)..4 * (i - 1) + 4];
      r
  }

  /**
   * printableKey: the four checksum bytes as \xNN escapes, then every other
   * byte as the character Byte.toChar gives.
   */
  function PrintableKey(key: seq<byte>): (r: string)
    requires |key| >= 4
    ensures |r| == |key| + 12
    ensures forall i :: 0 <= i < 4 ==> r[4 * i..4 * i + 4] == "\\x" + HexByte(key[i])
    ensures forall j :: 4 <= j < |key| ==> r[j + 12] == ByteChar(key[j])
  {
    var hex := HexPrefix(key[..4]);
    var r := hex + ByteChars(key[4..]);
    assert forall i :: 0 <= i < 4 ==> r[4 * i..4 * i + 4] == "\\x" + HexByte(key[i]) by {
      forall i | 0 <= i < 4
        ensures r[4 * i..4 * i + 4] == "\\x" + HexByte(key[i])
      {
        assert r[4 * i..4 * i + 4] == hex[4 * i..4 * i + 4];
        assert key[..4][i] == key[i];
      }
    }
    r
  }

  /** Every byte as the character Byte.toChar gives. */
  function ByteChars(bytes: seq<byte>): (r: string)
    ensures |r| == |bytes|
    ensures forall i :: 0 <= i < |bytes| ==> r[i] == ByteChar(bytes[i])
  {
    if bytes == [] then [] else [ByteChar(bytes[0])] + ByteChars(bytes[1..])
  }

  lemma HexByteInjective(a: byte, b: byte)
    requires HexByte(a) == HexByte(b)
    ensures a == b
  {
    assert HexDigit(a / 16) == HexDigit(b / 16) && HexDigit(a % 16) == HexDigit(b % 16);
    assert a / 16 == b / 16 && a % 16 == b % 16;
  }

  lemma ByteCharInjective(a: byte, b: byte)
    requires ByteChar(a) == ByteChar(b)
    ensures a == b
  {
  }

  lemma PrintableHexInjective(a: seq<byte>, b: seq<byte>, i: nat)
    requires |a| >= 4 && |b| >= 4 && i < 4
    requires PrintableKey(a) == PrintableKey(b)
    ensures a[i] == b[i]
  {
    var p := PrintableKey(a);
    var x := "\\x" + HexByte(a[i]);
    var y := "\\x" + HexByte(b[i]);
    assert x == p[4 * i..4 * i + 4] == y;
    assert HexByte(a[i]) == x[2..];
    assert HexByte(b[i]) == y[2..];
    HexByteInjective(a[i], b[i]);
  }

  /** Different keys print differently. */
  lemma PrintableKeyInjective(a: seq<byte>, b: seq<byte>)
    requires |a| >= 4 && |b| >= 4
    requires PrintableKey(a) == PrintableKey(b)
    ensures a == b
  {
    forall i | 0 <= i < |a| ensures a[i] == b[i] {
      if i < 4 {
        PrintableHexInjective(a, b, i);
      } else {
        ByteCharInjective(a[i], b[i]);
      }
    }
  }

  /** For canonical text in ASCII, the printed key shows the text itself after the checksum. */
  lemma PrintableKeyShowsAsciiText(body: seq<byte>)
    requires GenerateKey(body).Ok?
    requires var t := CanonicalForm(body).value; forall i :: 0 <= i < |t| ==> t[i] as int < 0x80
    ensures PrintableKey(GenerateKey(body).value)[16..] == CanonicalForm(body).value
  {
    var t := CanonicalForm(body).value;
    var key := GenerateKey(body).value;
    Utf8.EncodeAscii(t);
    var p := PrintableKey(key);
    assert |p[16..]| == |t|;
    forall i | 0 <= i < |t| ensures p[16..][i] == t[i] {
      assert key[i + 4] == key[4..][i] == Utf8.Encode(t)[i];
      assert p[16..][i] == p[(i + 4) + 12];
    }
  }
}
