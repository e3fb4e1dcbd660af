/**
 * The number grammar of section 6 of RFC 8259:
 *   number = [ minus ] int [ frac ] [ exp ]
 *   int    = zero / ( digit1-9 *DIGIT )
 *   frac   = decimal-point 1*DIGIT
 *   exp    = e [ minus / plus ] 1*DIGIT
 * A number is kept as the token that spelled it.
 */
module JsonNumber {
  import opened Wrappers

  predicate IsDigit(c: char)
  {
    '0' <= c <= '9'
  }

  /** A character that can continue a number token. */
  predicate IsNumberChar(c: char)
  {
    IsDigit(c) || c == '.' || c == 'e' || c == 'E' || c == '+' || c == '-'
  }

  /** The length of the run of digits at the start of `s`. */
  function DigitRun(s: string): (n: nat)
    ensures n <= |s|
    ensures forall i :: 0 <= i < n ==> IsDigit(s[i])
    ensures n < |s| ==> !IsDigit(s[n])
  {
    if s != [] && IsDigit(s[0]) then 1 + DigitRun(s[1..]) else 0
  }

  /** Where the `int` part that starts at `i` ends. */
  function IntegerEnd(s: string, i: nat): (r: Option<nat>)
    requires i <= |s|
    ensures r.Some? ==> i < r.value <= |s|
  {
    if i < |s| && s[i] == '0' then Some(i + 1)
    else if i < |s| && '1' <= s[i] <= '9' then Some(i + 1 + DigitRun(s[i + 1..]))
    else None
  }

  /** Where the optional `frac` part that starts at `j` ends. */
  function FractionEnd(s: string, j: nat): (r: Option<nat>)
    requires j <= |s|
    ensures r.Some? ==> j <= r.value <= |s|
  {
    if j < |s| && s[j] == '.' then
      var d := DigitRun(s[j + 1..]);
      if d == 0 then None else Some(j + 1 + d)
    else
      Some(j)
  }

  /** Where the optional `exp` part that starts at `k` ends. */
  function ExponentEnd(s: string, k: nat): (r: Option<nat>)
    requires k <= |s|
    ensures r.Some? ==> k <= r.value <= |s|
  {
    if k < |s| && (s[k] == 'e' || s[k] == 'E') then
      var m := if k + 1 < |s| && (s[k + 1] == '+' || s[k + 1] == '-') then k + 2 else k + 1;
      var d := DigitRun(s[m..]);
      if d == 0 then None else Some(m + d)
    else
      Some(k)
  }

  /** The length of the number token at the start of `s`, or None when `s` does not start with one. */
  function ScanNumber(s: string): (r: Option<nat>)
    ensures r.Some? ==> 0 < r.value <= |s|
  {
    var i := if s != [] && s[0] == '-' then 1 else 0;
    match IntegerEnd(s, i)
    case None => None
    case Some(j) =>
      match FractionEnd(s, j)
      case None => None
      case Some(k) => ExponentEnd(s, k)
  }

  /** `t` is exactly one number token. */
  predicate IsNumber(t: string)
  {
    ScanNumber(t) == Some(|t|)
  }

  /** A number token starts with a minus sign or a digit. */
  lemma NumberStart(t: string)
    requires IsNumber(t)
    ensures t != [] && (t[0] == '-' || IsDigit(t[0]))
  {
  }

  /** A digit run is not lengthened by text that does not start with a digit. */
  lemma {:induction false} DigitRunAppend(x: string, rest: string)
    requires rest == [] || !IsDigit(rest[0])
    ensures DigitRun(x + rest) == DigitRun(x)
  {
    if x == [] {
      assert x + rest == rest;
    } else {
      assert (x + rest)[1..] == x[1..] + rest;
      if IsDigit(x[0]) {
        DigitRunAppend(x[1..], rest);
      }
    }
  }

  /** A suffix of `t + rest` that starts inside `t`. */
  lemma SuffixAppend(t: string, rest: string, p: nat)
    requires p <= |t|
    ensures (t + rest)[p..] == t[p..] + rest
  {
  }

  /**
   * Text after a number token that cannot continue it does not change where
   * the token ends: a scanner that stops at the first character outside the
   * grammar reads the token back exactly.
   */
  lemma ScanNumberAppend(t: string, rest: string)
    requires rest == [] || !IsNumberChar(rest[0])
    ensures ScanNumber(t + rest) == ScanNumber(t)
  {
    var u := t + rest;
    var i := if t != [] && t[0] == '-' then 1 else 0;
    assert i == if u != [] && u[0] == '-' then 1 else 0;
    IntegerEndAppend(t, rest, i);
    match IntegerEnd(t, i)
    case None =>
    case Some(j) =>
      FractionEndAppend(t, rest, j);
      match FractionEnd(t, j)
      case None =>
      case Some(k) =>
        ExponentEndAppend(t, rest, k);
  }

  lemma IntegerEndAppend(t: string, rest: string, i: nat)
    requires rest == [] || !IsNumberChar(rest[0])
    requires i <= |t|
    ensures IntegerEnd(t + rest, i) == IntegerEnd(t, i)
  {
    if i < |t| {
      SuffixAppend(t, rest, i + 1);
      DigitRunAppend(t[i + 1..], rest);
    }
  }

  lemma FractionEndAppend(t: string, rest: string, j: nat)
    requires rest == [] || !IsNumberChar(rest[0])
    requires j <= |t|
    ensures FractionEnd(t + rest, j) == FractionEnd(t, j)
  {
    if j < |t| {
      SuffixAppend(t, rest, j + 1);
      DigitRunAppend(t[j + 1..], rest);
    }
  }

  lemma ExponentEndAppend(t: string, rest: string, k: nat)
    requires rest == [] || !IsNumberChar(rest[0])
    requires k <= |t|
    ensures ExponentEnd(t + rest, k) == ExponentEnd(t, k)
  {
    if k < |t| && (t[k] == 'e' || t[k] == 'E') {
      var m := if k + 1 < |t| && (t[k + 1] == '+' || t[k + 1] == '-') then k + 2 else k + 1;
      SuffixAppend(t, rest, m);
      DigitRunAppend(t[m..], rest);
    }
  }

  /** Cutting text after the end of its leading digit run leaves the run whole. */
  lemma {:induction false} DigitRunPrefix(x: string, m: nat)
    requires DigitRun(x) <= m <= |x|
    ensures DigitRun(x[..m]) == DigitRun(x)
  {
    if x != [] && IsDigit(x[0]) {
      assert x[..m][1..] == x[1..][..m - 1];
      DigitRunPrefix(x[1..], m - 1);
    } else if m > 0 {
      assert x[..m][0] == x[0];
    }
  }

  lemma IntegerEndPrefix(s: string, i: nat, n: nat)
    requires i <= |s| && n <= |s|
    requires IntegerEnd(s, i).Some? && IntegerEnd(s, i).value <= n
    ensures IntegerEnd(s[..n], i) == IntegerEnd(s, i)
  {
    if s[i] != '0' {
      assert s[..n][i + 1..] == s[i + 1..][..n - i - 1];
      DigitRunPrefix(s[i + 1..], n - i - 1);
    }
  }

  lemma FractionEndPrefix(s: string, j: nat, n: nat)
    requires j <= n <= |s|
    requires FractionEnd(s, j).Some? && FractionEnd(s, j).value <= n
    ensures FractionEnd(s[..n], j) == FractionEnd(s, j)
  {
    if j < |s| && s[j] == '.' {
      assert s[..n][j + 1..] == s[j + 1..][..n - j - 1];
      DigitRunPrefix(s[j + 1..], n - j - 1);
    }
  }

  lemma ExponentEndPrefix(s: string, k: nat, n: nat)
    requires k <= n <= |s|
    requires ExponentEnd(s, k).Some? && ExponentEnd(s, k).value <= n
    ensures ExponentEnd(s[..n], k) == ExponentEnd(s, k)
  {
    if k < |s| && (s[k] == 'e' || s[k] == 'E') {
      var m := if k + 1 < |s| && (s[k + 1] == '+' || s[k + 1] == '-') then k + 2 else k + 1;
      assert s[..n][m..] == s[m..][..n - m];
      DigitRunPrefix(s[m..], n - m);
    }
  }

  /** What the scanner finds at the start of a text is one number token on its own. */
  lemma ScanNumberPrefix(s: string, n: nat)
    requires ScanNumber(s) == Some(n)
    ensures IsNumber(s[..n])
  {
    var t := s[..n];
    var i := if s != [] && s[0] == '-' then 1 else 0;
    assert i == if t != [] && t[0] == '-' then 1 else 0;
    var j := IntegerEnd(s, i).value;
    var k := FractionEnd(s, j).value;
    IntegerEndPrefix(s, i, n);
    FractionEndPrefix(s, j, n);
    ExponentEndPrefix(s, k, n);
  }
}
