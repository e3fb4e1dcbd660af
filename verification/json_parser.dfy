/**
 * A recursive-descent reader for JSON text (RFC 8259), standing in for
 * Klaxon's Parser.default().parse. A `\u` escape that leaves a surrogate
 * unpaired is refused, since a Dafny char is a Unicode scalar value. Each
 * function reads one construct at the start of its input and returns the
 * value read with the text that follows it. Repeated keys in an object are
 * put one after the other, as into a linked hash map: the last value wins
 * and the key keeps its first position.
 */
module JsonParser {
  import opened Wrappers
  import opened JsonNumber
  import opened Json

  /** The four insignificant whitespace characters of section 2 of RFC 8259. */
  predicate IsWhitespace(c: char)
  {
    c == ' ' || c == '\t' || c == '\n' || c == '\r'
  }

  predicate AllWhitespace(s: string)
  {
    forall i :: 0 <= i < |s| ==> IsWhitespace(s[i])
  }

  function SkipWhitespace(s: string): (r: string)
    ensures |r| <= |s|
    ensures r == [] || !IsWhitespace(r[0])
  {
    if s != [] && IsWhitespace(s[0]) then SkipWhitespace(s[1..]) else s
  }

  function HexValue(c: char): (r: Option<nat>)
    ensures r.Some? ==> r.value < 16
  {
    if '0' <= c <= '9' then Some(c as nat - '0' as nat)
    else if 'a' <= c <= 'f' then Some(c as nat - 'a' as nat + 10)
    else if 'A' <= c <= 'F' then Some(c as nat - 'A' as nat + 10)
    else None
  }

  /** The four hexadecimal digits of a `\u` escape, as a UTF-16 code unit. */
  function Hex4(s: string): (r: Option<nat>)
    ensures r.Some? ==> r.value < 0x1_0000
  {
    if |s| < 4 then None
    else match (HexValue(s[0]), HexValue(s[1]), HexValue(s[2]), HexValue(s[3]))
      case (Some(a), Some(b), Some(c), Some(d)) => Some(a * 0x1000 + b * 0x100 + c * 0x10 + d)
      case _ => None
  }

  predicate IsHighSurrogate(u: nat)
  {
    0xD800 <= u < 0xDC00
  }

  predicate IsLowSurrogate(u: nat)
  {
    0xDC00 <= u < 0xE000
  }

  /** The character a `\u` escape, or a surrogate pair of them, stands for. */
  function UnicodeEscape(s: string): (r: Option<(char, nat)>)
    requires |s| >= 6
    ensures r.Some? ==> 6 <= r.value.1 <= |s|
  {
    match Hex4(s[2..])
    case None => None
    case Some(u) =>
      if IsLowSurrogate(u) then None
      else if !IsHighSurrogate(u) then Some((u as char, 6))
      else if |s| < 12 || s[6] != '\\' || s[7] != 'u' then None
      else match Hex4(s[8..])
        case None => None
        case Some(w) =>
          if IsLowSurrogate(w) then Some(((0x1_0000 + (u - 0xD800) * 0x400 + (w - 0xDC00)) as char, 12))
          else None
  }

  /**
   * One character of a string literal, which does not start with the closing
   * quote: the character it stands for and how many characters it takes.
   */
  function ParseStringChar(s: string): (r: Option<(char, nat)>)
    requires s != [] && s[0] != '"'
    ensures r.Some? ==> 1 <= r.value.1 <= |s|
  {
    if s[0] == '\\' then
      if |s| < 2 then None
      else if s[1] == '"' then Some(('"', 2))
      else if s[1] == '\\' then Some(('\\', 2))
      else if s[1] == '/' then Some(('/', 2))
      else if s[1] == 'b' then Some(('\U{0008}', 2))
      else if s[1] == 'f' then Some(('\U{000C}', 2))
      else if s[1] == 'n' then Some(('\n', 2))
      else if s[1] == 'r' then Some(('\r', 2))
      else if s[1] == 't' then Some(('\t', 2))
      else if s[1] == 'u' && |s| >= 6 then UnicodeEscape(s)
      else None
    else if s[0] < ' ' then None
    else Some((s[0], 1))
  }

  /** The rest of a string literal whose opening quote has been read. */
  function ParseString(s: string): (r: Option<(string, string)>)
    ensures r.Some? ==> |r.value.1| < |s|
    decreases |s|
  {
    if s == [] then None
    else if s[0] == '"' then Some(([], s[1..]))
    else match ParseStringChar(s)
      case None => None
      case Some((c, n)) =>
        match ParseString(s[n..])
        case None => None
        case Some((t, rest)) => Some(([c] + t, rest))
  }

  /** A value at the very start of `s`. */
  function ParseValue(s: string): (r: Option<(Value, string)>)
    ensures r.Some? ==> |r.value.1| < |s|
    decreases |s|, 0
  {
    if s == [] then None
    else match s[0]
      case '{' => ParseObject(SkipWhitespace(s[1..]))
      case '[' => ParseArray(SkipWhitespace(s[1..]))
      case '"' =>
        (match ParseString(s[1..])
         case None => None
         case Some((t, rest)) => Some((JString(t), rest)))
      case 'n' => if |s| >= 4 && s[..4] == "null" then Some((JNull, s[4..])) else None
      case 't' => if |s| >= 4 && s[..4] == "true" then Some((JBool(true), s[4..])) else None
      case 'f' => if |s| >= 5 && s[..5] == "false" then Some((JBool(false), s[5..])) else None
      case _ =>
        match ScanNumber(s)
        case None => None
        case Some(n) => Some((JNumber(s[..n]), s[n..]))
  }

  /** An array whose opening bracket and the whitespace after it have been read. */
  function ParseArray(s: string): (r: Option<(Value, string)>)
    ensures r.Some? ==> |r.value.1| < |s|
    decreases |s|, 2
  {
    if s != [] && s[0] == ']' then Some((JArray([]), s[1..]))
    else ParseElements(s, [])
  }

  /** The elements of an array from the next one on; `acc` holds those already read. */
  function ParseElements(s: string, acc: seq<Value>): (r: Option<(Value, string)>)
    ensures r.Some? ==> |r.value.1| < |s|
    decreases |s|, 1
  {
    match ParseValue(s)
    case None => None
    case Some((v, rest)) =>
      var t := SkipWhitespace(rest);
      if t != [] && t[0] == ',' then ParseElements(SkipWhitespace(t[1..]), acc + [v])
      else if t != [] && t[0] == ']' then Some((JArray(acc + [v]), t[1..]))
      else None
  }

  /** An object whose opening brace and the whitespace after it have been read. */
  function ParseObject(s: string): (r: Option<(Value, string)>)
    ensures r.Some? ==> |r.value.1| < |s|
    decreases |s|, 2
  {
    if s != [] && s[0] == '}' then Some((JObject([]), s[1..]))
    else ParseMembers(s, [])
  }

  /** The members of an object from the next one on, put into `acc` one by one. */
  function ParseMembers(s: string, acc: seq<Field>): (r: Option<(Value, string)>)
    ensures r.Some? ==> |r.value.1| < |s|
    decreases |s|, 1
  {
    if s == [] || s[0] != '"' then None
    else match ParseString(s[1..])
      case None => None
      case Some((k, rest)) =>
        var t := SkipWhitespace(rest);
        if t == [] || t[0] != ':' then None
        else
          var u := SkipWhitespace(t[1..]);
          match ParseValue(u)
          case None => None
          case Some((v, rest')) =>
            var w := SkipWhitespace(rest');
            if w != [] && w[0] == ',' then ParseMembers(SkipWhitespace(w[1..]), Put(acc, k, v))
            else if w != [] && w[0] == '}' then Some((JObject(Put(acc, k, v)), w[1..]))
            else None
  }

  /** A whole JSON text: one value with optional whitespace around it. */
  function Parse(text: string): Option<Value>
  {
    match ParseValue(SkipWhitespace(text))
    case None => None
    case Some((v, rest)) => if SkipWhitespace(rest) == [] then Some(v) else None
  }
}
