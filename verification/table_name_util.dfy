/**
 * TableNameUtil: the HBase table a topic's records live in. A topic of the
 * form <word>.<namespace>.<table> names the table namespace:table, with every
 * hyphen turned into an underscore; any other topic, or any topic when tables
 * are not per topic, uses the default data table.
 */
module TableNameUtil {
  import opened Wrappers

  /** \w without the UNICODE_CHARACTER_CLASS flag: [A-Za-z0-9_]. */
  predicate IsWordChar(c: char)
  {
    'a' <= c <= 'z' || 'A' <= c <= 'Z' || '0' <= c <= '9' || c == '_'
  }

  /** [-\w] */
  predicate IsSegmentChar(c: char)
  {
    IsWordChar(c) || c == '-'
  }

  /** The line terminators of java.util.regex without UNIX_LINES (a lone character). */
  predicate IsLineTerminator(c: char)
  {
    c == '\n' || c == '\r' || c == '\U{0085}' || c == '\U{2028}' || c == '\U{2029}'
  }

  /**
   * What `$` lets follow the match when MULTILINE is off: nothing, or a
   * single line terminator (\r\n counting as one) that ends the input.
   */
  predicate IsEnd(rest: string)
  {
    rest == [] || rest == "\r\n" || (|rest| == 1 && IsLineTerminator(rest[0]))
  }

  /** The length of the run of \w characters at the start of `s`. */
  function WordRun(s: string): (n: nat)
    ensures n <= |s|
  {
    if s != [] && IsWordChar(s[0]) then 1 + WordRun(s[1..]) else 0
  }

  lemma {:induction false} WordRunSpec(s: string)
    ensures forall i :: 0 <= i < WordRun(s) ==> IsWordChar(s[i])
    ensures WordRun(s) < |s| ==> !IsWordChar(s[WordRun(s)])
  {
    if s != [] && IsWordChar(s[0]) {
      WordRunSpec(s[1..]);
      assert forall i :: 1 <= i < WordRun(s) ==> s[i] == s[1..][i - 1];
    }
  }

  /** The length of the run of [-\w] characters at the start of `s`. */
  function SegmentRun(s: string): (n: nat)
    ensures n <= |s|
  {
    if s != [] && IsSegmentChar(s[0]) then 1 + SegmentRun(s[1..]) else 0
  }

  lemma {:induction false} SegmentRunSpec(s: string)
    ensures forall i :: 0 <= i < SegmentRun(s) ==> IsSegmentChar(s[i])
    ensures SegmentRun(s) < |s| ==> !IsSegmentChar(s[SegmentRun(s)])
  {
    if s != [] && IsSegmentChar(s[0]) {
      SegmentRunSpec(s[1..]);
      assert forall i :: 1 <= i < SegmentRun(s) ==> s[i] == s[1..][i - 1];
    }
  }

  predicate IsWord(s: string)
  {
    forall i :: 0 <= i < |s| ==> IsWordChar(s[i])
  }

  predicate IsSegment(s: string)
  {
    forall i :: 0 <= i < |s| ==> IsSegmentChar(s[i])
  }

  /**
   * The declarative reading of ^\w+\.([-\w]+)\.([-\w]+)$ : the topic is a
   * word, a dot, the namespace, a dot, the table, then an end `$` accepts.
   */
  predicate IsMatchWith(topic: string, prefix: string, namespace: string, table: string, end: string)
  {
    && topic == prefix + "." + (namespace + "." + (table + end))
    && prefix != [] && IsWord(prefix)
    && namespace != [] && IsSegment(namespace)
    && table != [] && IsSegment(table)
    && IsEnd(end)
  }

  /**
   * topicNameTableMatcher: the two groups of the pattern's match, read left
   * to right, or None when the topic does not match.
   */
  function TopicNameTableMatcher(topicName: string): (r: Option<(string, string)>)
    ensures r.Some? ==> r.value.0 != [] && IsSegment(r.value.0) && r.value.1 != [] && IsSegment(r.value.1)
  {
    var p := WordRun(topicName);
    if p == 0 || p == |topicName| || topicName[p] != '.' then None
    else
      var s := topicName[p + 1..];
      var n := SegmentRun(s);
      if n == 0 || n == |s| || s[n] != '.' then None
      else
        var u := s[n + 1..];
        var t := SegmentRun(u);
        if t == 0 || !IsEnd(u[t..]) then None
        else
          SegmentRunPrefix(s);
          SegmentRunPrefix(u);
          Some((s[..n], u[..t]))
  }

  /** A word run stops at the dot that follows the word. */
  lemma {:induction false} WordRunSplit(s: string, x: string, y: string)
    requires s == x + "." + y && IsWord(x)
    ensures WordRun(s) == |x|
  {
    if x != [] {
      assert s[1..] == x[1..] + "." + y;
      WordRunSplit(s[1..], x[1..], y);
    }
  }

  /** A segment run stops at the character that follows the segment, when it is outside [-\w]. */
  lemma {:induction false} SegmentRunSplit(s: string, x: string, y: string)
    requires s == x + y && IsSegment(x)
    requires y != [] ==> !IsSegmentChar(y[0])
    ensures SegmentRun(s) == |x|
  {
    if x != [] {
      assert s[1..] == x[1..] + y;
      SegmentRunSplit(s[1..], x[1..], y);
    } else {
      assert s == y;
    }
  }

  /** Whatever the matcher finds is a match of the pattern. */
  lemma MatcherSound(topicName: string)
    requires TopicNameTableMatcher(topicName).Some?
    ensures var (namespace, table) := TopicNameTableMatcher(topicName).value;
      exists prefix, end :: IsMatchWith(topicName, prefix, namespace, table, end)
  {
    var p := WordRun(topicName);
    var s := topicName[p + 1..];
    var n := SegmentRun(s);
    var u := s[n + 1..];
    var t := SegmentRun(u);
    var prefix, namespace, table, end := topicName[..p], s[..n], u[..t], u[t..];
    assert u == table + end;
    assert s == namespace + "." + u;
    assert topicName == prefix + "." + s;
    WordRunPrefix(topicName);
    SegmentRunPrefix(s);
    SegmentRunPrefix(u);
    assert IsMatchWith(topicName, prefix, namespace, table, end);
  }

  lemma WordRunPrefix(s: string)
    ensures IsWord(s[..WordRun(s)])
  {
    WordRunSpec(s);
    var w := s[..WordRun(s)];
    assert forall i :: 0 <= i < |w| ==> w[i] == s[i];
  }

  lemma SegmentRunPrefix(s: string)
    ensures IsSegment(s[..SegmentRun(s)])
  {
    SegmentRunSpec(s);
    var w := s[..SegmentRun(s)];
    assert forall i :: 0 <= i < |w| ==> w[i] == s[i];
  }

  /** Every match of the pattern is found, with its groups: the match is unique. */
  lemma MatcherComplete(topicName: string, prefix: string, namespace: string, table: string, end: string)
    requires IsMatchWith(topicName, prefix, namespace, table, end)
    ensures TopicNameTableMatcher(topicName) == Some((namespace, table))
  {
    var u := table + end;
    var s := namespace + "." + u;
    assert topicName == prefix + "." + s;
    WordRunSplit(topicName, prefix, s);
    assert topicName[|prefix| + 1..] == s;
    SegmentRunSplit(s, namespace, "." + u);
    assert s[|namespace| + 1..] == u && s[..|namespace|] == namespace;
    SegmentRunSplit(u, table, end);
    assert u[..|table|] == table && u[|table|..] == end;
  }

  /** String.replace("-", "_"). */
  function ReplaceHyphens(s: string): (r: string)
    ensures |r| == |s|
    ensures forall i :: 0 <= i < |s| ==> r[i] == if s[i] == '-' then '_' else s[i]
  {
    if s == [] then [] else [if s[0] == '-' then '_' else s[0]] + ReplaceHyphens(s[1..])
  }

  lemma ReplaceHyphensAppend(a: string, b: string)
    ensures ReplaceHyphens(a + b) == ReplaceHyphens(a) + ReplaceHyphens(b)
  {
    var l, r := ReplaceHyphens(a + b), ReplaceHyphens(a) + ReplaceHyphens(b);
    assert |l| == |r|;
    forall i | 0 <= i < |l| ensures l[i] == r[i] {
      if i < |a| {
        assert (a + b)[i] == a[i];
        assert r[i] == ReplaceHyphens(a)[i];
      } else {
        assert (a + b)[i] == b[i - |a|];
        assert r[i] == ReplaceHyphens(b)[i - |a|];
      }
    }
  }

  /**
   * getQualifiedTableName: namespace:table from a matching topic when tables
   * are per topic, the default data table otherwise.
   */
  function GetQualifiedTableName(topic: string, useTablePerTopic: bool, dataTable: string): (r: string)
    ensures r == dataTable || (useTablePerTopic && ':' in r && '-' !in r)
  {
    if useTablePerTopic then
      match TopicNameTableMatcher(topic)
      case Some((namespace, tableName)) =>
        var q := namespace + ":" + tableName;
        assert ReplaceHyphens(q)[|namespace|] == ':' by { assert q[|namespace|] == ':'; }
        ReplaceHyphens(q)
      case None => dataTable
    else
      dataTable
  }

  /**
   * A topic that matches names namespace:table, hyphens turned into
   * underscores: one colon, no hyphen, and both parts non-empty.
   */
  lemma QualifiedNameOfMatch(topic: string, prefix: string, namespace: string, table: string, end: string, dataTable: string)
    requires IsMatchWith(topic, prefix, namespace, table, end)
    ensures GetQualifiedTableName(topic, true, dataTable) == ReplaceHyphens(namespace) + ":" + ReplaceHyphens(table)
    ensures var r := GetQualifiedTableName(topic, true, dataTable);
      '-' !in r && ':' !in ReplaceHyphens(namespace) && ':' !in ReplaceHyphens(table)
      && ReplaceHyphens(namespace) != [] && ReplaceHyphens(table) != []
  {
    MatcherComplete(topic, prefix, namespace, table, end);
    ReplaceHyphensAppend(namespace + ":", table);
    ReplaceHyphensAppend(namespace, ":");
    var r := GetQualifiedTableName(topic, true, dataTable);
    assert r == ReplaceHyphens(namespace + ":" + table);
    NoColon(namespace);
    NoColon(table);
  }

  lemma NoColon(segment: string)
    requires IsSegment(segment)
    ensures ':' !in ReplaceHyphens(segment)
  {
    var r := ReplaceHyphens(segment);
    assert forall i :: 0 <= i < |r| ==> r[i] != ':' by {
      forall i | 0 <= i < |r| ensures r[i] != ':' {
        assert IsSegmentChar(segment[i]);
      }
    }
  }

  /** A topic that does not match, when tables are per topic, falls back to the default table. */
  lemma DefaultWhenNoMatch(topic: string, dataTable: string)
    requires forall prefix, namespace, table, end :: !IsMatchWith(topic, prefix, namespace, table, end)
    ensures GetQualifiedTableName(topic, true, dataTable) == dataTable
  {
    if TopicNameTableMatcher(topic).Some? {
      MatcherSound(topic);
    }
  }

  /** Without tables per topic, every topic uses the default table. */
  lemma DefaultWhenShared(topic: string, dataTable: string)
    ensures GetQualifiedTableName(topic, false, dataTable) == dataTable
  {
  }

  // The test example of getQualifiedTableName, in small steps (the split of
  // the topic, the match, each hyphen replaced) so each stays cheap for the
  // solver whatever its random seed.

  lemma ExampleTopicSplits()
    ensures "db.database-1.collection-1" == "db" + "." + ("database-1" + "." + ("collection-1" + ""))
  {
  }

  lemma ExampleTopicMatches()
    ensures IsMatchWith("db.database-1.collection-1", "db", "database-1", "collection-1", "")
  {
    ExampleTopicSplits();
    assert IsSegment("database-1");
    assert IsSegment("collection-1");
    assert IsWord("db");
  }

  lemma ReplaceLastHyphen(word: string)
    requires '-' !in word
    ensures ReplaceHyphens(word + "-1") == word + "_1"
  {
    ReplaceHyphensAppend(word, "-1");
    var r := ReplaceHyphens(word);
    forall i | 0 <= i < |word| ensures r[i] == word[i] {
      assert word[i] in word;
    }
  }

  /** The example of the tests: db.database-1.collection-1 names database_1:collection_1. */
  lemma TableNameExample(dataTable: string)
    ensures GetQualifiedTableName("db.database-1.collection-1", true, dataTable) == "database_1" + ":" + "collection_1"
  {
    ExampleTopicMatches();
    QualifiedNameOfMatch("db.database-1.collection-1", "db", "database-1", "collection-1", "", dataTable);
    ExampleReplace();
  }

  lemma ExampleReplace()
    ensures ReplaceHyphens("database-1") == "database_1"
    ensures ReplaceHyphens("collection-1") == "collection_1"
  {
    assert "database-1" == "database" + "-1" && "database_1" == "database" + "_1";
    ReplaceLastHyphen("database");
    assert "collection-1" == "collection" + "-1" && "collection_1" == "collection" + "_1";
    ReplaceLastHyphen("collection");
  }

  /**
   * A character outside [-\w] other than a dot right after the namespace
   * stops the match, a space for instance.
   */
  lemma BadCharAfterNamespace(prefix: string, namespace: string, c: char, rest: string)
    requires IsWord(prefix) && IsSegment(namespace)
    requires !IsSegmentChar(c) && c != '.'
    ensures TopicNameTableMatcher(prefix + "." + (namespace + ([c] + rest))).None?
  {
    var topic := prefix + "." + (namespace + ([c] + rest));
    WordRunSplit(topic, prefix, namespace + ([c] + rest));
    assert topic[|prefix| + 1..] == namespace + ([c] + rest);
    SegmentRunSplit(namespace + ([c] + rest), namespace, [c] + rest);
  }

  /**
   * ab.database_1 .<anything> does not match: the space after the namespace
   * rules it out, whatever follows, collection_1 and collection_1! included.
   */
  lemma SpaceInNamespaceExample(collection: string)
    ensures TopicNameTableMatcher("ab" + "." + ("database_1" + (" " + collection))).None?
  {
    BadCharAfterNamespace("ab", "database_1", ' ', collection);
  }

  /** A topic of two segments, such as database.collection, does not match. */
  lemma TwoSegmentsNoMatch(prefix: string, segment: string)
    requires IsWord(prefix) && IsSegment(segment)
    ensures TopicNameTableMatcher(prefix + "." + segment).None?
  {
    var topic := prefix + "." + segment;
    WordRunSplit(topic, prefix, segment);
    assert topic[|prefix| + 1..] == segment;
    SegmentRunSplit(segment, segment, []);
  }

  /**
   * A character outside [-\w] right after the table stops the match unless
   * what follows is the single line terminator `$` accepts; `!` for instance.
   */
  lemma BadCharAfterTable(prefix: string, namespace: string, table: string, c: char, rest: string)
    requires IsWord(prefix) && IsSegment(namespace) && IsSegment(table)
    requires !IsSegmentChar(c) && !IsEnd([c] + rest)
    ensures TopicNameTableMatcher(prefix + "." + (namespace + "." + (table + ([c] + rest)))).None?
  {
    var u := table + ([c] + rest);
    var s := namespace + "." + u;
    var topic := prefix + "." + s;
    WordRunSplit(topic, prefix, s);
    assert topic[|prefix| + 1..] == s;
    SegmentRunSplit(s, namespace, "." + u);
    assert s[|namespace| + 1..] == u;
    SegmentRunSplit(u, table, [c] + rest);
    assert u[|table|..] == [c] + rest;
  }

  /**
   * With a clean namespace, such as ab.database_1.collection_1!, a `!` right
   * after the table is enough on its own to rule out a match.
   */
  lemma BangAfterTableExample(prefix: string, namespace: string)
    requires IsWord(prefix) && IsSegment(namespace)
    ensures TopicNameTableMatcher(prefix + "." + (namespace + "." + ("collection_1" + "!"))).None?
  {
    assert IsSegment("collection_1");
    assert !IsEnd("!");
    BadCharAfterTable(prefix, namespace, "collection_1", '!', []);
    assert ['!'] + [] == "!";
  }
}
