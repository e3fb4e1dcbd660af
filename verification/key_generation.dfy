/**
 * KeyGeneration, the earlier form of the key derivation. It sorts, renders,
 * checksums and prints keys exactly as KeyGenerationUtil does, with the same
 * definitions; it differs only in convertToJson, which reads every body as
 * JSON and gives no special meaning to a body that is an id.
 */
module KeyGeneration {
  import opened Wrappers
  import opened Bytes
  import Utf8
  import Crc32
  import JsonNumber
  import opened Json
  import opened JsonParser
  import opened JsonRoundTrip
  import U = KeyGenerationUtil

  /** convertToJson: the body decoded as UTF-8 and read as JSON; it must be an object. */
  function ConvertToJson(body: seq<byte>): (r: Result<seq<Field>, U.KeyError>)
    ensures r.Ok? ==> WellFormedFields(r.value)
  {
    var text := Utf8.Decode(body);
    match Parse(text)
    case None => Err(U.InvalidJson)
    case Some(v) =>
      ParseWellFormed(text);
      if v.JObject? then Ok(v.fields) else Err(U.NotAnObject)
  }

  /** The canonical text of a body: its object, sorted and rendered. */
  function CanonicalForm(body: seq<byte>): Result<string, U.KeyError>
  {
    match ConvertToJson(body)
    case Err(e) => Err(e)
    case Ok(json) => Ok(U.SortJsonByKey(json))
  }

  /** generateKey: the checksum bytes followed by the UTF-8 bytes of the canonical text. */
  function GenerateKey(jsonString: seq<byte>): (r: Result<seq<byte>, U.KeyError>)
    ensures r.Err? <==> CanonicalForm(jsonString).Err?
    ensures r.Err? ==> r.error == CanonicalForm(jsonString).error
    ensures r.Ok? ==> |r.value| >= 4 && r.value[4..] == Utf8.Encode(CanonicalForm(jsonString).value)
    ensures r.Ok? ==> FromBigEndian(r.value[..4]) == Crc32.Checksum(r.value[4..])
  {
    match CanonicalForm(jsonString)
    case Err(e) => Err(e)
    case Ok(jsonOrdered) =>
      var checksumBytes := U.FourByteChecksum(jsonOrdered);
      var key := checksumBytes + Utf8.Encode(jsonOrdered);
      assert key[..4] == checksumBytes && key[4..] == Utf8.Encode(jsonOrdered);
      Ok(key)
  }

  /** On a body that is not an id, both forms agree, failures included. */
  lemma AgreesOnNonIds(body: seq<byte>)
    requires !U.IsIdLike(Utf8.Decode(body))
    ensures ConvertToJson(body) == U.ConvertToJson(body)
    ensures GenerateKey(body) == U.GenerateKey(body)
  {
  }

  /** A body this form accepts is never an id, so the newer form gives it the same key. */
  lemma AcceptedBodiesAgree(body: seq<byte>)
    requires ConvertToJson(body).Ok?
    ensures !U.IsIdLike(Utf8.Decode(body))
    ensures GenerateKey(body) == U.GenerateKey(body)
  {
    U.ParsedObjectNotIdLike(Utf8.Decode(body));
  }

  /** An id on its own, a GUID say, has no key in this form. */
  lemma IdBodyRejected(id: string)
    requires U.IsIdLike(id)
    ensures GenerateKey(Utf8.Encode(id)).Err?
  {
    Utf8.DecodeEncode(id);
    if ConvertToJson(Utf8.Encode(id)).Ok? {
      AcceptedBodiesAgree(Utf8.Encode(id));
    }
  }

  /**
   * Two accepted bodies get the same key exactly when their objects stand
   * for the same map: the order of the entries does not count, and any
   * difference in a key or a value, its type included, does. Whitespace
   * between tokens never reaches the map (TextRoundTrip reads any runs of it
   * back to the same object), so it does not count either.
   */
  lemma KeyDeterminedByMap(a: seq<byte>, b: seq<byte>)
    requires ConvertToJson(a).Ok? && ConvertToJson(b).Ok?
    ensures GenerateKey(a) == GenerateKey(b) <==> ToMap(ConvertToJson(a).value) == ToMap(ConvertToJson(b).value)
  {
    AcceptedBodiesAgree(a);
    AcceptedBodiesAgree(b);
    U.KeyDeterminedByMap(a, b);
  }

  lemma TruncatedMembers()
    ensures ParseMembers("\"testOne\":", []).None?
  {
    var s := "\"testOne\":";
    U.EscapePlain("testOne");
    assert s[1..] == Escape("testOne") + "\"" + ":";
    StringRoundTrip("testOne", ":");
    assert SkipWhitespace(":") == ":";
    assert SkipWhitespace(":"[1..]) == [];
  }

  lemma TruncatedParse()
    ensures Parse("{\"testOne\":").None?
  {
    var text := "{\"testOne\":";
    assert SkipWhitespace(text) == text;
    assert text[1..] == "\"testOne\":";
    assert SkipWhitespace(text[1..]) == text[1..];
    TruncatedMembers();
  }

  /** The invalid-input example of the tests: an object cut short after a colon. */
  lemma TruncatedObjectRejected()
    ensures ConvertToJson(Utf8.Encode("{\"testOne\":")) == Err(U.InvalidJson)
  {
    Utf8.DecodeEncode("{\"testOne\":");
    TruncatedParse();
  }

  // ---------------------------------------------------------------------------
  // The order and whitespace examples of the tests
  // ---------------------------------------------------------------------------

  /** The object of the examples, in the order the tests first write it, and swapped. */
  const TestFields := [Field("testOne", JString("test1")), Field("testTwo", JNumber("2"))]
  const SwappedFields := [Field("testTwo", JNumber("2")), Field("testOne", JString("test1"))]

  /** One space after the comma and nowhere else. */
  const OneSpace := Layout("", "", [EntryLayout("", "", Flat, "", " ")])

  /** Four spaces after the brace, fourteen after the first colon, twelve after the comma and two after the second colon. */
  const Spread := Layout("    ", "", [EntryLayout("", "              ", Flat, "", "            "), EntryLayout("", "  ", Flat, "", "")])

  lemma TestFieldsWellFormed()
    ensures WellFormedFields(TestFields) && WellFormedFields(SwappedFields)
  {
    assert JsonNumber.ScanNumber("2") == Some(1);
  }

  lemma LayoutsBlank()
    ensures Blank(OneSpace) && Blank(Spread)
  {
    assert BlankEntry(OneSpace.entries[0]);
    assert BlankEntry(Spread.entries[0]) && BlankEntry(Spread.entries[1]);
  }

  /** Both orders of the entries stand for one map. */
  lemma SwappedSameMap()
    ensures ToMap(TestFields) == ToMap(SwappedFields)
  {
    assert TestFields[1..] == [Field("testTwo", JNumber("2"))];
    assert SwappedFields[1..] == [Field("testOne", JString("test1"))];
    assert [Field("testTwo", JNumber("2"))][1..] == [];
    assert [Field("testOne", JString("test1"))][1..] == [];
    UpdatesCommute(map[], "testTwo", JNumber("2"), "testOne", JString("test1"));
  }

  /**
   * An object's text with whitespace between its tokens is accepted here as
   * that object, and both forms of the key derivation give it one key.
   */
  lemma SpacedObjectAgrees(fields: seq<Field>, layout: Layout, text: string)
    requires WellFormedFields(fields) && Blank(layout) && text == Spaced(JObject(fields), layout)
    ensures ConvertToJson(Utf8.Encode(text)) == Ok(fields)
    ensures GenerateKey(Utf8.Encode(text)) == U.GenerateKey(Utf8.Encode(text))
  {
    TextRoundTrip(JObject(fields), layout, "", "");
    assert "" + text + "" == text;
    Utf8.DecodeEncode(text);
    U.ParsedObjectNotIdLike(text);
    AgreesOnNonIds(Utf8.Encode(text));
  }

  /**
   * The whitespace example of the tests: the object written with one space
   * after its comma, and written with the uneven runs of Spread, has one key.
   */
  lemma WhitespaceExample()
    ensures GenerateKey(Utf8.Encode(Spaced(JObject(TestFields), OneSpace))).Ok?
    ensures GenerateKey(Utf8.Encode(Spaced(JObject(TestFields), OneSpace)))
         == GenerateKey(Utf8.Encode(Spaced(JObject(TestFields), Spread)))
  {
    var compact := Spaced(JObject(TestFields), OneSpace);
    var spread := Spaced(JObject(TestFields), Spread);
    TestFieldsWellFormed();
    LayoutsBlank();
    SpacedObjectAgrees(TestFields, OneSpace, compact);
    SpacedObjectAgrees(TestFields, Spread, spread);
    U.WhitespaceDoesNotMatter(TestFields, "" + compact + "", "" + spread + "", OneSpace, Spread, "", "", "", "");
    assert "" + compact + "" == compact && "" + spread + "" == spread;
  }

  /** The order example of the tests: the swapped entries get the key of the original order. */
  lemma OrderExample()
    ensures GenerateKey(Utf8.Encode(Spaced(JObject(TestFields), OneSpace))).Ok?
    ensures GenerateKey(Utf8.Encode(Spaced(JObject(TestFields), OneSpace)))
         == GenerateKey(Utf8.Encode(Spaced(JObject(SwappedFields), OneSpace)))
  {
    var original := Spaced(JObject(TestFields), OneSpace);
    var swapped := Spaced(JObject(SwappedFields), OneSpace);
    TestFieldsWellFormed();
    LayoutsBlank();
    SpacedObjectAgrees(TestFields, OneSpace, original);
    SpacedObjectAgrees(SwappedFields, OneSpace, swapped);
    SwappedSameMap();
    KeyDeterminedByMap(Utf8.Encode(original), Utf8.Encode(swapped));
  }

  /** The order-and-whitespace example of the tests: swapped and spread out, the object still has one key. */
  lemma OrderAndWhitespaceExample()
    ensures GenerateKey(Utf8.Encode(Spaced(JObject(TestFields), OneSpace))).Ok?
    ensures GenerateKey(Utf8.Encode(Spaced(JObject(TestFields), OneSpace)))
         == GenerateKey(Utf8.Encode(Spaced(JObject(SwappedFields), Spread)))
  {
    var original := Spaced(JObject(TestFields), OneSpace);
    var swapped := Spaced(JObject(SwappedFields), Spread);
    TestFieldsWellFormed();
    LayoutsBlank();
    SpacedObjectAgrees(TestFields, OneSpace, original);
    SpacedObjectAgrees(SwappedFields, Spread, swapped);
    SwappedSameMap();
    KeyDeterminedByMap(Utf8.Encode(original), Utf8.Encode(swapped));
  }
}
