/**
 * The reader and the writer agree: reading back the compact rendering of a
 * value, or a rendering with any runs of whitespace between its tokens,
 * gives the value back, and whatever the reader returns is a value the writer
 * renders faithfully.
 */
module JsonRoundTrip {
  import opened Wrappers
  import opened JsonNumber
  import opened Json
  import opened JsonParser

  // ---------------------------------------------------------------------------
  // Renderings with insignificant whitespace
  // ---------------------------------------------------------------------------

  /**
   * The whitespace inside the text of one value: after its opening bracket or
   * brace, before its closing one, and in and around each of its entries. A
   * scalar has no place for whitespace inside it, so it ignores its layout.
   */
  datatype Layout = Layout(open: string, close: string, entries: seq<EntryLayout>)

  /**
   * The whitespace of one entry of an array or object: around the colon of a
   * member, inside the entry's value, and around the comma that follows the
   * entry when another one comes after it. An array element has no colon.
   */
  datatype EntryLayout = EntryLayout(
    beforeColon: string,
    afterColon: string,
    value: Layout,
    beforeComma: string,
    afterComma: string)

  /** No whitespace anywhere. */
  const Flat := Layout("", "", [])

  const FlatEntry := EntryLayout("", "", Flat, "", "")

  /** The layout of the first entry; entries beyond the given ones have none. */
  function First(entries: seq<EntryLayout>): EntryLayout
  {
    if entries == [] then FlatEntry else entries[0]
  }

  function Rest(entries: seq<EntryLayout>): seq<EntryLayout>
  {
    if entries == [] then [] else entries[1..]
  }

  /** Every run of the layout is whitespace. */
  predicate Blank(layout: Layout)
    decreases layout
  {
    && AllWhitespace(layout.open) && AllWhitespace(layout.close)
    && forall i :: 0 <= i < |layout.entries| ==> BlankEntry(layout.entries[i])
  }

  predicate BlankEntry(e: EntryLayout)
    decreases e
  {
    && AllWhitespace(e.beforeColon) && AllWhitespace(e.afterColon)
    && Blank(e.value)
    && AllWhitespace(e.beforeComma) && AllWhitespace(e.afterComma)
  }

  predicate BlankEntries(entries: seq<EntryLayout>)
  {
    forall i :: 0 <= i < |entries| ==> BlankEntry(entries[i])
  }

  lemma BlankSplit(entries: seq<EntryLayout>)
    requires BlankEntries(entries)
    ensures BlankEntry(First(entries)) && BlankEntries(Rest(entries))
  {
    if entries != [] {
      assert BlankEntry(entries[0]);
      forall i | 0 <= i < |entries[1..]| ensures BlankEntry(entries[1..][i]) {
        assert entries[1..][i] == entries[i + 1];
      }
    } else {
      assert Blank(Flat);
    }
  }

  /** The rendering of `v` with the whitespace of `layout` between its tokens. */
  function Spaced(v: Value, layout: Layout): string
    decreases v
  {
    match v
    case JArray(items) =>
      if items == [] then "[" + layout.open + "]"
      else "[" + layout.open + SpacedItems(items, layout.entries) + layout.close + "]"
    case JObject(fields) =>
      if fields == [] then "{" + layout.open + "}"
      else "{" + layout.open + SpacedFields(fields, layout.entries) + layout.close + "}"
    case _ => Render(v)
  }

  function SpacedItems(items: seq<Value>, entries: seq<EntryLayout>): string
    requires items != []
    decreases items
  {
    var e := First(entries);
    if |items| == 1 then Spaced(items[0], e.value)
    else Spaced(items[0], e.value) + e.beforeComma + "," + e.afterComma + SpacedItems(items[1..], Rest(entries))
  }

  function SpacedField(f: Field, e: EntryLayout): string
    decreases f
  {
    Quote(f.key) + e.beforeColon + ":" + e.afterColon + Spaced(f.value, e.value)
  }

  function SpacedFields(fields: seq<Field>, entries: seq<EntryLayout>): string
    requires fields != []
    decreases fields
  {
    var e := First(entries);
    if |fields| == 1 then SpacedField(fields[0], e)
    else SpacedField(fields[0], e) + e.beforeComma + "," + e.afterComma + SpacedFields(fields[1..], Rest(entries))
  }

  /** With no whitespace the spaced rendering is the compact one. */
  lemma {:induction false} SpacedCompact(v: Value)
    ensures Spaced(v, Flat) == Render(v)
    decreases v
  {
    match v
    case JArray(items) =>
      if items != [] {
        SpacedItemsCompact(items);
      }
    case JObject(fields) =>
      if fields != [] {
        SpacedFieldsCompact(fields);
      }
    case _ =>
  }

  lemma {:induction false} SpacedItemsCompact(items: seq<Value>)
    requires items != []
    ensures SpacedItems(items, []) == RenderItems(items)
    decreases items
  {
    SpacedCompact(items[0]);
    if |items| > 1 {
      SpacedItemsCompact(items[1..]);
    }
  }

  lemma {:induction false} SpacedFieldsCompact(fields: seq<Field>)
    requires fields != []
    ensures SpacedFields(fields, []) == RenderFields(fields)
    decreases fields
  {
    SpacedCompact(fields[0].value);
    if |fields| > 1 {
      SpacedFieldsCompact(fields[1..]);
    }
  }

  // ---------------------------------------------------------------------------
  // Helpers about the first character of a rendering
  // ---------------------------------------------------------------------------

  /** What can follow a value without being read as part of it. */
  predicate Delimits(rest: string)
  {
    rest == [] || rest[0] == ',' || rest[0] == ']' || rest[0] == '}' || IsWhitespace(rest[0])
  }

  /** Whitespace in front of text that does not start with whitespace is skipped exactly. */
  lemma {:induction false} SkipPad(pad: string, x: string)
    requires AllWhitespace(pad)
    requires x == [] || !IsWhitespace(x[0])
    ensures SkipWhitespace(pad + x) == x
  {
    if pad == [] {
      assert pad + x == x;
    } else {
      assert (pad + x)[1..] == pad[1..] + x;
      SkipPad(pad[1..], x);
    }
  }

  /** Whitespace, or nothing, in front of a delimiter still delimits. */
  lemma PadDelimits(pad: string, x: string)
    requires AllWhitespace(pad) && x != [] && (x[0] == ',' || x[0] == ']' || x[0] == '}')
    ensures Delimits(pad + x)
  {
    if pad != [] {
      assert (pad + x)[0] == pad[0];
    } else {
      assert pad + x == x;
    }
  }

  /** A rendering starts with the character that announces its kind of value. */
  lemma SpacedStart(v: Value, layout: Layout)
    requires WellFormed(v)
    ensures Spaced(v, layout) != []
    ensures var c := Spaced(v, layout)[0];
      !IsWhitespace(c) && c != ',' && c != ':' && c != ']' && c != '}'
  {
    if v.JNumber? {
      NumberStart(v.token);
    }
  }

  lemma SpacedItemsStart(items: seq<Value>, entries: seq<EntryLayout>)
    requires items != [] && WellFormed(items[0])
    ensures SpacedItems(items, entries) != []
    ensures var c := SpacedItems(items, entries)[0];
      !IsWhitespace(c) && c != ']'
  {
    SpacedStart(items[0], First(entries).value);
  }

  lemma SpacedFieldsStart(fields: seq<Field>, entries: seq<EntryLayout>)
    requires fields != []
    ensures SpacedFields(fields, entries) != [] && SpacedFields(fields, entries)[0] == '"'
  {
    var e := First(entries);
    assert SpacedField(fields[0], e)[0] == Quote(fields[0].key)[0];
  }

  lemma FreshKey(acc: seq<Field>, fields: seq<Field>)
    requires fields != [] && UniqueKeys(acc + fields)
    ensures fields[0].key !in Keys(acc)
  {
    forall i | 0 <= i < |acc|
      ensures Keys(acc)[i] != fields[0].key
    {
      assert (acc + fields)[i] == acc[i] && (acc + fields)[|acc|] == fields[0];
    }
  }

  // ---------------------------------------------------------------------------
  // Strings
  // ---------------------------------------------------------------------------

  lemma HexValueDigit(n: nat)
    requires n < 16
    ensures HexValue(HexDigit(n)) == Some(n)
  {
  }

  /** A character's escaped form is read back as that character, whatever follows it. */
  lemma CharRoundTrip(c: char, t: string)
    ensures var e := EscapeChar(c);
      ParseStringChar(e + t) == Some((c, |e|))
  {
    var e := EscapeChar(c);
    var s := e + t;
    if c < ' ' && c != '\U{0008}' && c != '\U{000C}' && c != '\n' && c != '\r' && c != '\t' {
      var hi := c as nat / 16;
      var lo := c as nat % 16;
      HexValueDigit(hi);
      HexValueDigit(lo);
      assert s[..6] == e;
      assert s[2..][..4] == ['0', '0', HexDigit(hi), HexDigit(lo)];
      assert Hex4(s[2..]) == Some(c as nat);
    }
  }

  /** An escaped string followed by a closing quote is read back as the string. */
  lemma {:induction false} StringRoundTrip(x: string, rest: string)
    ensures ParseString(Escape(x) + "\"" + rest) == Some((x, rest))
  {
    var s := Escape(x) + "\"" + rest;
    if x == [] {
      assert s == "\"" + rest;
    } else {
      var e := EscapeChar(x[0]);
      var t := Escape(x[1..]) + "\"" + rest;
      assert s == e + t by {
        assert Escape(x) == e + Escape(x[1..]);
      }
      CharRoundTrip(x[0], t);
      assert s[|e|..] == t;
      StringRoundTrip(x[1..], rest);
      assert [x[0]] + x[1..] == x;
    }
  }

  // ---------------------------------------------------------------------------
  // Values
  // ---------------------------------------------------------------------------

  /** A well-formed value, rendered with whitespace between its tokens, is read back followed by what came after it. */
  lemma {:induction false} ValueRoundTrip(v: Value, layout: Layout, rest: string)
    requires WellFormed(v) && Blank(layout) && Delimits(rest)
    ensures ParseValue(Spaced(v, layout) + rest) == Some((v, rest))
    decreases v, 1
  {
    match v
    case JNull =>
    case JBool(b) =>
    case JNumber(t) =>
      NumberRoundTrip(t, rest);
    case JString(x) =>
      var s := Spaced(v, layout) + rest;
      assert s[1..] == Escape(x) + "\"" + rest;
      StringRoundTrip(x, rest);
      StringStep(s, x, rest);
    case JArray(items) =>
      ArrayRoundTrip(items, layout, rest);
    case JObject(fields) =>
      ObjectRoundTrip(fields, layout, rest);
  }

  // One step of the value reader, whatever the text.

  lemma NumberStep(s: string, n: nat)
    requires s != [] && (s[0] == '-' || IsDigit(s[0]))
    requires ScanNumber(s) == Some(n)
    ensures ParseValue(s) == Some((JNumber(s[..n]), s[n..]))
  {
    var c := s[0];
    assert c != '{' && c != '[' && c != '"' && c != 'n' && c != 't' && c != 'f';
  }

  lemma StringStep(s: string, x: string, rest: string)
    requires s != [] && s[0] == '"'
    requires ParseString(s[1..]) == Some((x, rest))
    ensures ParseValue(s) == Some((JString(x), rest))
  {
  }

  lemma ArrayStep(s: string)
    requires s != [] && s[0] == '['
    ensures ParseValue(s) == ParseArray(SkipWhitespace(s[1..]))
  {
  }

  lemma EmptyArrayStep(s: string)
    requires s != [] && s[0] == ']'
    ensures ParseArray(s) == Some((JArray([]), s[1..]))
  {
  }

  lemma ElementsStep(s: string)
    requires s != [] && s[0] != ']'
    ensures ParseArray(s) == ParseElements(s, [])
  {
  }

  lemma EmptyObjectStep(s: string)
    requires s != [] && s[0] == '}'
    ensures ParseObject(s) == Some((JObject([]), s[1..]))
  {
  }

  lemma MembersStep(s: string)
    requires s != [] && s[0] != '}'
    ensures ParseObject(s) == ParseMembers(s, [])
  {
  }

  lemma ObjectStep(s: string)
    requires s != [] && s[0] == '{'
    ensures ParseValue(s) == ParseObject(SkipWhitespace(s[1..]))
  {
  }

  lemma NumberRoundTrip(t: string, rest: string)
    requires IsNumber(t) && Delimits(rest)
    ensures ParseValue(t + rest) == Some((JNumber(t), rest))
  {
    var s := t + rest;
    NumberStart(t);
    assert s[0] == t[0];
    ScanNumberAppend(t, rest);
    NumberStep(s, |t|);
    assert s[..|t|] == t && s[|t|..] == rest;
  }

  lemma {:induction false} ArrayRoundTrip(items: seq<Value>, layout: Layout, rest: string)
    requires WellFormed(JArray(items)) && Blank(layout)
    ensures ParseValue(Spaced(JArray(items), layout) + rest) == Some((JArray(items), rest))
    decreases JArray(items), 0
  {
    var s := Spaced(JArray(items), layout) + rest;
    ArrayStep(s);
    if items == [] {
      assert s[1..] == layout.open + ("]" + rest);
      SkipPad(layout.open, "]" + rest);
      EmptyArrayStep("]" + rest);
      assert ("]" + rest)[1..] == rest;
    } else {
      OpenArray(items, layout, rest);
      ElementsRoundTrip(items, layout.entries, layout.close, [], rest);
      assert [] + items == items;
    }
  }

  /** The reader of a non-empty array goes on to its first element after the bracket and whitespace. */
  lemma OpenArray(items: seq<Value>, layout: Layout, rest: string)
    requires items != [] && WellFormed(items[0]) && AllWhitespace(layout.open)
    ensures ParseValue(Spaced(JArray(items), layout) + rest)
         == ParseElements(SpacedItems(items, layout.entries) + layout.close + "]" + rest, [])
  {
    var s := Spaced(JArray(items), layout) + rest;
    ArrayStep(s);
    var x := SpacedItems(items, layout.entries) + layout.close + "]" + rest;
    assert s[1..] == layout.open + x;
    SpacedItemsStart(items, layout.entries);
    assert x[0] == SpacedItems(items, layout.entries)[0];
    SkipPad(layout.open, x);
    ElementsStep(x);
  }

  lemma {:induction false} ObjectRoundTrip(fields: seq<Field>, layout: Layout, rest: string)
    requires WellFormed(JObject(fields)) && Blank(layout)
    ensures ParseValue(Spaced(JObject(fields), layout) + rest) == Some((JObject(fields), rest))
    decreases JObject(fields), 0
  {
    var s := Spaced(JObject(fields), layout) + rest;
    ObjectStep(s);
    if fields == [] {
      assert s[1..] == layout.open + ("}" + rest);
      SkipPad(layout.open, "}" + rest);
      EmptyObjectStep("}" + rest);
      assert ("}" + rest)[1..] == rest;
    } else {
      OpenObject(fields, layout, rest);
      assert [] + fields == fields;
      MembersRoundTrip(fields, layout.entries, layout.close, [], rest);
    }
  }

  /** The reader of a non-empty object goes on to its first member after the brace and whitespace. */
  lemma OpenObject(fields: seq<Field>, layout: Layout, rest: string)
    requires fields != [] && AllWhitespace(layout.open)
    ensures ParseValue(Spaced(JObject(fields), layout) + rest)
         == ParseMembers(SpacedFields(fields, layout.entries) + layout.close + "}" + rest, [])
  {
    var s := Spaced(JObject(fields), layout) + rest;
    ObjectStep(s);
    var x := SpacedFields(fields, layout.entries) + layout.close + "}" + rest;
    assert s[1..] == layout.open + x;
    SpacedFieldsStart(fields, layout.entries);
    assert x[0] == SpacedFields(fields, layout.entries)[0];
    SkipPad(layout.open, x);
    MembersStep(x);
  }

  // One step of the array and object readers, whatever the text.

  lemma ElementsNext(s: string, acc: seq<Value>, v: Value, rest: string, next: string)
    requires ParseValue(s) == Some((v, rest))
    requires var t := SkipWhitespace(rest); t != [] && t[0] == ',' && SkipWhitespace(t[1..]) == next
    ensures ParseElements(s, acc) == ParseElements(next, acc + [v])
  {
  }

  lemma ElementsLast(s: string, acc: seq<Value>, v: Value, rest: string, after: string)
    requires ParseValue(s) == Some((v, rest))
    requires SkipWhitespace(rest) == "]" + after
    ensures ParseElements(s, acc) == Some((JArray(acc + [v]), after))
  {
    assert ("]" + after)[1..] == after;
  }

  lemma MembersNext(s: string, acc: seq<Field>, f: Field, rest: string, next: string)
    requires s != [] && s[0] == '"'
    requires ParseString(s[1..]) == Some((f.key, rest))
    requires var t := SkipWhitespace(rest);
      t != [] && t[0] == ':' && ParseValue(SkipWhitespace(t[1..])) == Some((f.value, next))
    ensures var w := SkipWhitespace(next);
      w != [] && w[0] == ',' ==> ParseMembers(s, acc) == ParseMembers(SkipWhitespace(w[1..]), Put(acc, f.key, f.value))
    ensures var w := SkipWhitespace(next);
      w != [] && w[0] == '}' ==> ParseMembers(s, acc) == Some((JObject(Put(acc, f.key, f.value)), w[1..]))
  {
  }

  /** The last element of an array, followed by whitespace and the closing bracket, is read back. */
  lemma LastElementRoundTrip(item: Value, layout: Layout, close: string, acc: seq<Value>, rest: string)
    requires Blank(layout) && AllWhitespace(close) && WellFormed(item)
    ensures ParseElements(Spaced(item, layout) + close + "]" + rest, acc) == Some((JArray(acc + [item]), rest))
    decreases item, 2
  {
    var s := Spaced(item, layout) + close + "]" + rest;
    var tail := close + ("]" + rest);
    assert s == Spaced(item, layout) + tail;
    PadDelimits(close, "]" + rest);
    ValueRoundTrip(item, layout, tail);
    SkipPad(close, "]" + rest);
    ElementsLast(s, acc, item, tail, rest);
  }

  /** A rendered element followed by a comma is read, and the reader goes on with the next one. */
  lemma NextElementStep(items: seq<Value>, entries: seq<EntryLayout>, close: string, acc: seq<Value>, rest: string)
    requires |items| > 1 && BlankEntry(First(entries))
    requires forall i :: 0 <= i < |items| ==> WellFormed(items[i])
    ensures ParseElements(SpacedItems(items, entries) + close + "]" + rest, acc)
         == ParseElements(SpacedItems(items[1..], Rest(entries)) + close + "]" + rest, acc + [items[0]])
    decreases items, 0
  {
    var e := First(entries);
    var s := SpacedItems(items, entries) + close + "]" + rest;
    var inner := SpacedItems(items[1..], Rest(entries)) + close + "]" + rest;
    var tail := e.beforeComma + ("," + (e.afterComma + inner));
    assert WellFormed(items[0]);
    NextItemShape(items, entries, close, rest);
    PadDelimits(e.beforeComma, "," + (e.afterComma + inner));
    ValueRoundTrip(items[0], e.value, tail);
    SkipPad(e.beforeComma, "," + (e.afterComma + inner));
    assert WellFormed(items[1..][0]);
    SpacedItemsStart(items[1..], Rest(entries));
    assert inner[0] == SpacedItems(items[1..], Rest(entries))[0];
    SkipPad(e.afterComma, inner);
    assert ("," + (e.afterComma + inner))[1..] == e.afterComma + inner;
    ElementsNext(s, acc, items[0], tail, inner);
  }

  /** How the rendering of an array's elements splits at its first comma. */
  lemma NextItemShape(items: seq<Value>, entries: seq<EntryLayout>, close: string, rest: string)
    requires |items| > 1
    ensures var e := First(entries);
      SpacedItems(items, entries) + close + "]" + rest
      == Spaced(items[0], e.value)
         + (e.beforeComma + ("," + (e.afterComma + (SpacedItems(items[1..], Rest(entries)) + close + "]" + rest))))
  {
    var e := First(entries);
    var a := Spaced(items[0], e.value);
    var b := SpacedItems(items[1..], Rest(entries));
    var h := a + e.beforeComma + "," + e.afterComma;
    assert SpacedItems(items, entries) == h + b;
    AssociateHead(h, b, close, "]", rest);
    Associate5(a, e.beforeComma, ",", e.afterComma, b + close + "]" + rest);
  }

  /** The elements of an array, rendered with whitespace and followed by the closing bracket, are read back. */
  lemma {:induction false} ElementsRoundTrip(items: seq<Value>, entries: seq<EntryLayout>, close: string,
                                             acc: seq<Value>, rest: string)
    requires items != [] && BlankEntries(entries) && AllWhitespace(close)
    requires forall i :: 0 <= i < |items| ==> WellFormed(items[i])
    ensures ParseElements(SpacedItems(items, entries) + close + "]" + rest, acc) == Some((JArray(acc + items), rest))
    decreases items
  {
    BlankSplit(entries);
    if |items| == 1 {
      assert items == [items[0]];
      assert WellFormed(items[0]);
      assert SpacedItems(items, entries) == Spaced(items[0], First(entries).value);
      LastElementRoundTrip(items[0], First(entries).value, close, acc, rest);
    } else {
      NextElementStep(items, entries, close, acc, rest);
      assert forall i :: 0 <= i < |items[1..]| ==> WellFormed(items[1..][i]) by {
        forall i | 0 <= i < |items[1..]| ensures WellFormed(items[1..][i]) {
          assert items[1..][i] == items[i + 1];
        }
      }
      ElementsRoundTrip(items[1..], Rest(entries), close, acc + [items[0]], rest);
      assert acc + [items[0]] + items[1..] == acc + items;
    }
  }

  /** The members of an object, rendered with whitespace and followed by the closing brace, are read back. */
  lemma {:induction false} MembersRoundTrip(fields: seq<Field>, entries: seq<EntryLayout>, close: string,
                                            acc: seq<Field>, rest: string)
    requires fields != [] && BlankEntries(entries) && AllWhitespace(close)
    requires UniqueKeys(acc + fields)
    requires forall i :: 0 <= i < |fields| ==> WellFormed(fields[i].value)
    ensures ParseMembers(SpacedFields(fields, entries) + close + "}" + rest, acc) == Some((JObject(acc + fields), rest))
    decreases fields
  {
    var f := fields[0];
    var e := First(entries);
    assert WellFormed(f.value);
    BlankSplit(entries);
    PutFresh(acc, fields);
    if |fields| == 1 {
      LastFieldShape(fields, entries, close, rest);
      LastMemberRoundTrip(f, e, close, acc, rest);
      assert acc + [f] == acc + fields;
    } else {
      var inner := SpacedFields(fields[1..], Rest(entries)) + close + "}" + rest;
      NextFieldShape(fields, entries, close, rest);
      SpacedFieldsStart(fields[1..], Rest(entries));
      assert inner[0] == '"';
      NextMemberRoundTrip(f, e, acc, inner);
      MembersRoundTrip(fields[1..], Rest(entries), close, acc + [f], rest);
    }
  }

  /** The first member is new to the object read so far, so putting it appends it. */
  lemma PutFresh(acc: seq<Field>, fields: seq<Field>)
    requires fields != [] && UniqueKeys(acc + fields)
    ensures Put(acc, fields[0].key, fields[0].value) == acc + [fields[0]]
    ensures acc + [fields[0]] + fields[1..] == acc + fields
  {
    FreshKey(acc, fields);
  }

  /** The rendering of an object's only member, followed by the closing brace. */
  lemma LastFieldShape(fields: seq<Field>, entries: seq<EntryLayout>, close: string, rest: string)
    requires |fields| == 1
    ensures SpacedFields(fields, entries) + close + "}" + rest
         == SpacedField(fields[0], First(entries)) + (close + ("}" + rest))
  {
    var a := SpacedField(fields[0], First(entries));
    assert SpacedFields(fields, entries) == a;
    assert a + close + "}" + rest == a + (close + ("}" + rest));
  }

  /** How the rendering of an object's members splits at its first comma. */
  lemma NextFieldShape(fields: seq<Field>, entries: seq<EntryLayout>, close: string, rest: string)
    requires |fields| > 1
    ensures var e := First(entries);
      SpacedFields(fields, entries) + close + "}" + rest
      == SpacedField(fields[0], e)
         + (e.beforeComma + ("," + (e.afterComma + (SpacedFields(fields[1..], Rest(entries)) + close + "}" + rest))))
  {
    var e := First(entries);
    var a := SpacedField(fields[0], e);
    var b := SpacedFields(fields[1..], Rest(entries));
    var h := a + e.beforeComma + "," + e.afterComma;
    assert SpacedFields(fields, entries) == h + b;
    AssociateHead(h, b, close, "}", rest);
    Associate5(a, e.beforeComma, ",", e.afterComma, b + close + "}" + rest);
  }

  lemma Associate3(a: string, b: string, c: string)
    ensures a + b + c == a + (b + c)
  {
  }

  lemma AssociateHead(h: string, b: string, c: string, d: string, e: string)
    ensures (h + b) + c + d + e == h + (b + c + d + e)
  {
  }

  lemma Associate5(a: string, b: string, c: string, d: string, e: string)
    ensures a + b + c + d + e == a + (b + (c + (d + e)))
  {
  }

  /** The last member is put into the object, which the closing brace ends. */
  lemma LastMemberRoundTrip(f: Field, e: EntryLayout, close: string, acc: seq<Field>, rest: string)
    requires WellFormed(f.value) && BlankEntry(e) && AllWhitespace(close)
    ensures ParseMembers(SpacedField(f, e) + (close + ("}" + rest)), acc)
      == Some((JObject(Put(acc, f.key, f.value)), rest))
    decreases f, 1
  {
    var tail := close + ("}" + rest);
    var s := SpacedField(f, e) + tail;
    KeyRoundTrip(f, e, tail);
    ColonRoundTrip(f, e, tail);
    PadDelimits(close, "}" + rest);
    ValueRoundTrip(f.value, e.value, tail);
    MembersNext(s, acc, f, e.beforeColon + (":" + (e.afterColon + (Spaced(f.value, e.value) + tail))), tail);
    SkipPad(close, "}" + rest);
    assert ("}" + rest)[1..] == rest;
  }

  /** A member followed by a comma is put into the object, and the next member is read after it. */
  lemma NextMemberRoundTrip(f: Field, e: EntryLayout, acc: seq<Field>, inner: string)
    requires WellFormed(f.value) && BlankEntry(e)
    requires inner != [] && inner[0] == '"'
    ensures ParseMembers(SpacedField(f, e) + (e.beforeComma + ("," + (e.afterComma + inner))), acc)
      == ParseMembers(inner, Put(acc, f.key, f.value))
    decreases f, 1
  {
    var tail := e.beforeComma + ("," + (e.afterComma + inner));
    var s := SpacedField(f, e) + tail;
    KeyRoundTrip(f, e, tail);
    ColonRoundTrip(f, e, tail);
    PadDelimits(e.beforeComma, "," + (e.afterComma + inner));
    ValueRoundTrip(f.value, e.value, tail);
    MembersNext(s, acc, f, e.beforeColon + (":" + (e.afterColon + (Spaced(f.value, e.value) + tail))), tail);
    SkipPad(e.beforeComma, "," + (e.afterComma + inner));
    SkipPad(e.afterComma, inner);
    assert ("," + (e.afterComma + inner))[1..] == e.afterComma + inner;
  }

  /** A member's key is read back, leaving the colon and the value with their whitespace. */
  lemma KeyRoundTrip(f: Field, e: EntryLayout, tail: string)
    ensures var s := SpacedField(f, e) + tail;
      s != [] && s[0] == '"' &&
      ParseString(s[1..]) == Some((f.key, e.beforeColon + (":" + (e.afterColon + (Spaced(f.value, e.value) + tail)))))
  {
    var v := Spaced(f.value, e.value);
    var afterKey := e.beforeColon + (":" + (e.afterColon + (v + tail)));
    var q := Quote(f.key);
    var s := SpacedField(f, e) + tail;
    Associate3(q + e.beforeColon + ":" + e.afterColon, v, tail);
    Associate5(q, e.beforeColon, ":", e.afterColon, v + tail);
    assert s == q + afterKey;
    Associate3("\"" + Escape(f.key), "\"", afterKey);
    Associate3("\"", Escape(f.key), "\"" + afterKey);
    assert s == "\"" + (Escape(f.key) + ("\"" + afterKey));
    assert s[1..] == Escape(f.key) + ("\"" + afterKey);
    Associate3(Escape(f.key), "\"", afterKey);
    StringRoundTrip(f.key, afterKey);
  }

  /** The whitespace around a member's colon is skipped, leaving the value. */
  lemma ColonRoundTrip(f: Field, e: EntryLayout, tail: string)
    requires WellFormed(f.value) && AllWhitespace(e.beforeColon) && AllWhitespace(e.afterColon)
    ensures var t := SkipWhitespace(e.beforeColon + (":" + (e.afterColon + (Spaced(f.value, e.value) + tail))));
      t != [] && t[0] == ':' && SkipWhitespace(t[1..]) == Spaced(f.value, e.value) + tail
  {
    var body := Spaced(f.value, e.value) + tail;
    SkipPad(e.beforeColon, ":" + (e.afterColon + body));
    assert (":" + (e.afterColon + body))[1..] == e.afterColon + body;
    SpacedStart(f.value, e.value);
    assert body[0] == Spaced(f.value, e.value)[0];
    SkipPad(e.afterColon, body);
  }

  /**
   * A well-formed value rendered with any runs of whitespace between its
   * tokens, and before and after the whole text, is read back as itself.
   */
  lemma TextRoundTrip(v: Value, layout: Layout, before: string, after: string)
    requires WellFormed(v) && Blank(layout) && AllWhitespace(before) && AllWhitespace(after)
    ensures Parse(before + Spaced(v, layout) + after) == Some(v)
  {
    var text := Spaced(v, layout);
    SpacedStart(v, layout);
    SkipPad(before, text + after);
    assert before + text + after == before + (text + after);
    if after != [] {
      assert (text + after)[|text|] == after[0];
    }
    assert Delimits(after);
    ValueRoundTrip(v, layout, after);
    SkipPad(after, []);
    assert after + [] == after;
  }

  /** The compact rendering of a well-formed value is read back as itself. */
  lemma RenderRoundTrip(v: Value)
    requires WellFormed(v)
    ensures Parse(Render(v)) == Some(v)
  {
    TextRoundTrip(v, Flat, "", "");
    SpacedCompact(v);
    assert "" + Render(v) + "" == Render(v);
  }

  /** So the compact rendering tells well-formed values apart. */
  lemma RenderInjective(v: Value, w: Value)
    requires WellFormed(v) && WellFormed(w)
    ensures Render(v) == Render(w) <==> v == w
  {
    if Render(v) == Render(w) {
      RenderRoundTrip(v);
      RenderRoundTrip(w);
    }
  }

  // ---------------------------------------------------------------------------
  // What the reader returns
  // ---------------------------------------------------------------------------

  /** Every value the reader returns is well formed: numbers are single tokens and keys are not repeated. */
  lemma {:induction false} ParseValueWellFormed(s: string)
    requires ParseValue(s).Some?
    ensures WellFormed(ParseValue(s).value.0)
    decreases |s|, 0
  {
    if s[0] == '{' {
      ObjectStep(s);
      ParseObjectWellFormed(SkipWhitespace(s[1..]));
    } else if s[0] == '[' {
      ArrayStep(s);
      ParseArrayWellFormed(SkipWhitespace(s[1..]));
    } else if s[0] != '"' && s[0] != 'n' && s[0] != 't' && s[0] != 'f' {
      var n := ScanNumber(s).value;
      ScanNumberPrefix(s, n);
    }
  }

  lemma {:induction false} ParseArrayWellFormed(s: string)
    requires ParseArray(s).Some?
    ensures WellFormed(ParseArray(s).value.0)
    decreases |s|, 2
  {
    if !(s != [] && s[0] == ']') {
      ParseElementsWellFormed(s, []);
    }
  }

  lemma {:induction false} ParseElementsWellFormed(s: string, acc: seq<Value>)
    requires forall i :: 0 <= i < |acc| ==> WellFormed(acc[i])
    requires ParseElements(s, acc).Some?
    ensures WellFormed(ParseElements(s, acc).value.0)
    decreases |s|, 1
  {
    var (v, rest) := ParseValue(s).value;
    ParseValueWellFormed(s);
    var t := SkipWhitespace(rest);
    assert forall i :: 0 <= i < |acc + [v]| ==> WellFormed((acc + [v])[i]);
    if t != [] && t[0] == ',' {
      ParseElementsWellFormed(SkipWhitespace(t[1..]), acc + [v]);
    }
  }

  lemma {:induction false} ParseObjectWellFormed(s: string)
    requires ParseObject(s).Some?
    ensures WellFormed(ParseObject(s).value.0)
    decreases |s|, 2
  {
    if !(s != [] && s[0] == '}') {
      ParseMembersWellFormed(s, []);
    }
  }

  lemma {:induction false} ParseMembersWellFormed(s: string, acc: seq<Field>)
    requires WellFormedFields(acc)
    requires ParseMembers(s, acc).Some?
    ensures WellFormed(ParseMembers(s, acc).value.0)
    decreases |s|, 1
  {
    var (k, rest) := ParseString(s[1..]).value;
    var t := SkipWhitespace(rest);
    var u := SkipWhitespace(t[1..]);
    var (v, rest') := ParseValue(u).value;
    ParseValueWellFormed(u);
    PutWellFormed(acc, k, v);
    var w := SkipWhitespace(rest');
    if w != [] && w[0] == ',' {
      ParseMembersWellFormed(SkipWhitespace(w[1..]), Put(acc, k, v));
    }
  }

  /** A JSON text the reader accepts stands for a well-formed value. */
  lemma ParseWellFormed(text: string)
    requires Parse(text).Some?
    ensures WellFormed(Parse(text).value)
  {
    ParseValueWellFormed(SkipWhitespace(text));
  }
}
