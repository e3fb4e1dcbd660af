/**
 * The natural order of Kotlin strings, String.compareTo: lexicographic over
 * UTF-16 code units, so upper-case ASCII letters come before lower-case ones
 * and a character outside the Basic Multilingual Plane, stored as a surrogate
 * pair, comes before U+E000 to U+FFFF. A sorted map keyed by strings
 * (toSortedMap with this order) lists its keys in this order, each once.
 */
module KeyOrder {

  /** The UTF-16 code units that store one character. */
  function CodeUnits(c: char): (r: seq<int>)
    ensures 1 <= |r| <= 2
    ensures |r| == 1 <==> (c as int) < 0x1_0000
    ensures |r| == 1 ==> r[0] == c as int && !(0xD800 <= r[0] < 0xE000)
    ensures |r| == 2 ==> 0xD800 <= r[0] < 0xDC00 && 0xDC00 <= r[1] < 0xE000
  {
    var v := c as int;
    if v < 0x1_0000 then [v]
    else [0xD800 + (v - 0x1_0000) / 0x400, 0xDC00 + (v - 0x1_0000) % 0x400]
  }

  /** The UTF-16 code units of a string, as a Kotlin String holds them. */
  function Utf16(s: string): (r: seq<int>)
    ensures |r| >= |s|
    ensures s != [] ==> |r| >= |CodeUnits(s[0])| && r[..|CodeUnits(s[0])|] == CodeUnits(s[0])
  {
    if s == [] then [] else CodeUnits(s[0]) + Utf16(s[1..])
  }

  lemma CodeUnitsInjective(c: char, d: char)
    requires CodeUnits(c) == CodeUnits(d)
    ensures c == d
  {
    if (c as int) >= 0x1_0000 {
      var v := c as int - 0x1_0000;
      var w := d as int - 0x1_0000;
      assert v / 0x400 == w / 0x400 && v % 0x400 == w % 0x400;
      assert v == 0x400 * (v / 0x400) + v % 0x400;
      assert w == 0x400 * (w / 0x400) + w % 0x400;
    }
  }

  /** Different strings have different code units: the order below is total on strings. */
  lemma {:induction false} Utf16Injective(s: string, t: string)
    requires Utf16(s) == Utf16(t)
    ensures s == t
  {
    if s != [] && t != [] {
      var a := CodeUnits(s[0]);
      var b := CodeUnits(t[0]);
      var u := Utf16(s);
      assert u[0] == a[0] && u[0] == b[0];
      assert |a| == |b|;
      assert a == u[..|a|] == b;
      CodeUnitsInjective(s[0], t[0]);
      assert Utf16(s[1..]) == u[|a|..] == Utf16(t[1..]);
      Utf16Injective(s[1..], t[1..]);
      assert s == [s[0]] + s[1..];
      assert t == [t[0]] + t[1..];
    }
  }

  /** Lexicographic order: a proper prefix comes first, otherwise the first differing unit decides. */
  predicate LexLess(a: seq<int>, b: seq<int>)
    decreases |a|
  {
    b != [] && (a == [] || a[0] < b[0] || (a[0] == b[0] && LexLess(a[1..], b[1..])))
  }

  lemma {:induction false} LexIrreflexive(a: seq<int>)
    ensures !LexLess(a, a)
    decreases |a|
  {
    if a != [] {
      LexIrreflexive(a[1..]);
    }
  }

  lemma {:induction false} LexTransitive(a: seq<int>, b: seq<int>, c: seq<int>)
    requires LexLess(a, b) && LexLess(b, c)
    ensures LexLess(a, c)
    decreases |a|
  {
    if a != [] && a[0] == b[0] && b[0] == c[0] {
      LexTransitive(a[1..], b[1..], c[1..]);
    }
  }

  lemma {:induction false} LexTotal(a: seq<int>, b: seq<int>)
    requires a != b
    ensures LexLess(a, b) || LexLess(b, a)
    decreases |a|
  {
    if a != [] && b != [] && a[0] == b[0] {
      LexTotal(a[1..], b[1..]);
    }
  }

  /** String.compareTo(x, y) < 0. */
  predicate Less(x: string, y: string)
  {
    LexLess(Utf16(x), Utf16(y))
  }

  lemma Irreflexive(x: string)
    ensures !Less(x, x)
  {
    LexIrreflexive(Utf16(x));
  }

  lemma Transitive(x: string, y: string, z: string)
    requires Less(x, y) && Less(y, z)
    ensures Less(x, z)
  {
    LexTransitive(Utf16(x), Utf16(y), Utf16(z));
  }

  /** Of two different strings, one comes first. */
  lemma Total(x: string, y: string)
    requires x != y
    ensures Less(x, y) || Less(y, x)
  {
    if Utf16(x) == Utf16(y) {
      Utf16Injective(x, y);
    }
    LexTotal(Utf16(x), Utf16(y));
  }

  lemma Asymmetric(x: string, y: string)
    requires Less(x, y)
    ensures !Less(y, x)
  {
    if Less(y, x) {
      Transitive(x, y, x);
      Irreflexive(x);
    }
  }

  /** Keys in strictly ascending order, hence without repetition. */
  predicate StrictlySorted(ks: seq<string>)
  {
    forall i, j :: 0 <= i < j < |ks| ==> Less(ks[i], ks[j])
  }

  /** Putting one key into the keys of a sorted map: a key already there is not repeated. */
  function Insert(k: string, ks: seq<string>): (r: seq<string>)
    requires StrictlySorted(ks)
    ensures StrictlySorted(r)
    ensures forall x :: x in r <==> x == k || x in ks
  {
    if ks == [] then [k]
    else if k == ks[0] then ks
    else if Less(k, ks[0]) then
      assert StrictlySorted([k] + ks) by {
        forall i, j | 0 <= i < j < |[k] + ks| ensures Less(([k] + ks)[i], ([k] + ks)[j]) {
          if i == 0 && j > 1 {
            Transitive(k, ks[0], ks[j - 1]);
          }
        }
      }
      [k] + ks
    else
      var tail := Insert(k, ks[1..]);
      Total(k, ks[0]);
      assert StrictlySorted([ks[0]] + tail) by {
        forall i, j | 0 <= i < j < |[ks[0]] + tail| ensures Less(([ks[0]] + tail)[i], ([ks[0]] + tail)[j]) {
          if i == 0 {
            assert tail[j - 1] in tail;
          }
        }
      }
      [ks[0]] + tail
  }

  /** The keys of a sorted map built from `ks`: each key once, in ascending order. */
  function SortKeys(ks: seq<string>): (r: seq<string>)
    ensures StrictlySorted(r)
    ensures forall x :: x in r <==> x in ks
  {
    if ks == [] then [] else Insert(ks[0], SortKeys(ks[1..]))
  }

  /** Two ascending key lists with the same keys are the same list. */
  lemma {:induction false} SortedUnique(a: seq<string>, b: seq<string>)
    requires StrictlySorted(a) && StrictlySorted(b)
    requires forall x :: x in a <==> x in b
    ensures a == b
    decreases |a|
  {
    assert a != [] ==> a[0] in b;
    assert b != [] ==> b[0] in a;
    if a != [] && b != [] {
      if a[0] != b[0] {
        assert a[0] in b;
        assert b[0] in a;
        var i :| 0 <= i < |a| && a[i] == b[0];
        var j :| 0 <= j < |b| && b[j] == a[0];
        assert Less(a[0], b[0]);
        assert Less(b[0], a[0]);
        Asymmetric(a[0], b[0]);
      }
      forall x ensures x in a[1..] <==> x in b[1..] {
        if x in a[1..] {
          var i :| 0 <= i < |a[1..]| && a[1..][i] == x;
          assert Less(a[0], a[i + 1]);
          Irreflexive(x);
          assert a[i + 1] in a;
          assert x in b;
          var j :| 0 <= j < |b| && b[j] == x;
          assert j != 0;
          assert b[1..][j - 1] == x;
        }
        if x in b[1..] {
          var i :| 0 <= i < |b[1..]| && b[1..][i] == x;
          assert Less(b[0], b[i + 1]);
          Irreflexive(x);
          assert b[i + 1] in b;
          assert x in a;
          var j :| 0 <= j < |a| && a[j] == x;
          assert j != 0;
          assert a[1..][j - 1] == x;
        }
      }
      SortedUnique(a[1..], b[1..]);
      assert a == [a[0]] + a[1..] && b == [b[0]] + b[1..];
    }
  }

  /** The sorted keys depend only on which keys there are, not on their order or repetition. */
  lemma SortKeysDeterminedBySet(ks: seq<string>, ls: seq<string>)
    requires forall x :: x in ks <==> x in ls
    ensures SortKeys(ks) == SortKeys(ls)
  {
    SortedUnique(SortKeys(ks), SortKeys(ls));
  }
}
