/**
 * String handling around the analysis: the metric name derived from a
 * stream's description, and the cleanup of the title scraped from the
 * stream's web page.
 */
module Naming {

  /** The character class `[ \.,\(\)\-]`. */
  predicate IsSeparator(c: char)
  {
    c == ' ' || c == '.' || c == ',' || c == '(' || c == ')' || c == '-'
  }

  predicate IsUpperAscii(c: char)
  {
    'A' <= c <= 'Z'
  }

  /** `replace(/[ \.,\(\)\-]/g, '_')`: each separator becomes `_`, every other character stays in place. */
  function ReplaceSeparators(s: string): (r: string)
    ensures |r| == |s|
    ensures forall i :: 0 <= i < |s| ==> !IsSeparator(r[i])
    ensures forall i :: 0 <= i < |s| ==> r[i] == (if IsSeparator(s[i]) then '_' else s[i])
  {
    seq(|s|, i requires 0 <= i < |s| => if IsSeparator(s[i]) then '_' else s[i])
  }

  predicate HasDoubleUnderscore(s: string)
  {
    exists i :: 0 < i < |s| && s[i - 1] == '_' && s[i] == '_'
  }

  /** The string with every underscore taken out. */
  function NoUnders(s: string): string
  {
    if s == [] then [] else (if s[0] == '_' then [] else [s[0]]) + NoUnders(s[1..])
  }

  /** The number of underscores in s. */
  function Underscores(s: string): nat
  {
    if s == [] then 0 else (if s[0] == '_' then 1 else 0) + Underscores(s[1..])
  }

  /** The number of maximal runs of underscores in s, each counted at its last underscore. */
  function UnderscoreRuns(s: string): nat
  {
    if s == [] then 0
    else (if s[0] == '_' && (|s| == 1 || s[1] != '_') then 1 else 0) + UnderscoreRuns(s[1..])
  }

  /**
   * `replace(/_+/g, '_')`: every run of underscores becomes one underscore.
   * An underscore directly followed by another is dropped.
   */
  function CollapseUnderscores(s: string): (r: string)
    ensures |r| <= |s|
    ensures |s| > 0 ==> |r| > 0 && r[0] == s[0]
    ensures !HasDoubleUnderscore(r)
    ensures forall c :: c in r <==> c in s
  {
    if |s| <= 1 then s
    else if s[0] == '_' && s[1] == '_' then CollapseUnderscores(s[1..])
    else
      [s[0]] + CollapseUnderscores(s[1..])
  }

  /** Every character other than `_` survives collapsing, in order, and each run leaves exactly one underscore. */
  lemma {:induction false} CollapseKeepsContent(s: string)
    ensures NoUnders(CollapseUnderscores(s)) == NoUnders(s)
    ensures Underscores(CollapseUnderscores(s)) == UnderscoreRuns(s)
  {
    if |s| > 1 {
      var rest := CollapseUnderscores(s[1..]);
      CollapseKeepsContent(s[1..]);
      if !(s[0] == '_' && s[1] == '_') {
        assert ([s[0]] + rest)[1..] == rest;
      }
    }
  }

  /** A string without two adjacent underscores has no runs to collapse. */
  lemma {:induction false} CollapseWithoutRuns(s: string)
    requires !HasDoubleUnderscore(s)
    ensures CollapseUnderscores(s) == s
  {
    if |s| > 1 {
      CollapseWithoutRuns(s[1..]);
      assert !(s[0] == '_' && s[1] == '_');
      assert s == [s[0]] + s[1..];
    }
  }

  /**
   * Collapsing works piece by piece: a character other than `_` stays where it
   * is, and the parts on either side of it are collapsed on their own.
   */
  lemma {:induction false} CollapseSplits(x: string, c: char, y: string)
    requires c != '_'
    ensures CollapseUnderscores(x + [c] + y) == CollapseUnderscores(x) + [c] + CollapseUnderscores(y)
  {
    if x == [] {
      assert x + [c] + y == [c] + y;
      CollapseCons(c, y);
    } else {
      var t := x[1..] + [c] + y;
      assert x + [c] + y == [x[0]] + t;
      assert x == [x[0]] + x[1..];
      CollapseSplits(x[1..], c, y);
      assert t[0] == '_' <==> x[1..] != [] && x[1..][0] == '_';
      CollapseCons(x[0], t);
      CollapseCons(x[0], x[1..]);
    }
  }

  /** One step of collapsing: a leading underscore followed by another is dropped, any other first character kept. */
  lemma CollapseCons(h: char, t: string)
    ensures h == '_' && t != [] && t[0] == '_' ==> CollapseUnderscores([h] + t) == CollapseUnderscores(t)
    ensures !(h == '_' && t != [] && t[0] == '_') ==> CollapseUnderscores([h] + t) == [h] + CollapseUnderscores(t)
  {
    assert ([h] + t)[1..] == t;
    if t == [] {
      assert [h] + t == [h];
    }
  }

  /** A run of underscores, however long, becomes a single underscore. */
  lemma {:induction false} CollapseRun(k: nat)
    ensures CollapseUnderscores(seq(k + 1, _ => '_')) == "_"
  {
    if k > 0 {
      CollapseRun(k - 1);
      assert seq(k + 1, _ => '_')[1..] == seq(k, _ => '_');
    }
  }

  /** ASCII `toLowerCase` of one character. */
  function LowerAscii(c: char): char
  {
    if IsUpperAscii(c) then (c as int - 'A' as int + 'a' as int) as char else c
  }

  function ToLowerAscii(s: string): string
  {
    seq(|s|, i requires 0 <= i < |s| => LowerAscii(s[i]))
  }

  /** Lower-casing neither creates nor removes underscores, so it commutes with taking them out. */
  lemma {:induction false} LowerKeepsUnderscores(s: string)
    ensures NoUnders(ToLowerAscii(s)) == ToLowerAscii(NoUnders(s))
    ensures Underscores(ToLowerAscii(s)) == Underscores(s)
  {
    if s != [] {
      var lower := ToLowerAscii(s);
      var rest := s[1..];
      LowerKeepsUnderscores(rest);
      assert lower[1..] == ToLowerAscii(rest);
      assert lower[0] == '_' <==> s[0] == '_';
      var head := if s[0] == '_' then [] else [s[0]];
      assert NoUnders(s) == head + NoUnders(rest);
      assert NoUnders(lower) == ToLowerAscii(head) + NoUnders(ToLowerAscii(rest));
      assert ToLowerAscii(head + NoUnders(rest)) == ToLowerAscii(head) + ToLowerAscii(NoUnders(rest));
    }
  }

  /**
   * The metric-name slug: separators to `_`, runs of `_` collapsed, then lower
   * case. Apart from underscores it is the lower-cased description with its
   * separators taken out, and it holds one underscore per run of separators
   * and underscores in the description.
   */
  function Slug(description: string): (r: string)
    ensures NoUnders(r) == ToLowerAscii(NoUnders(ReplaceSeparators(description)))
    ensures Underscores(r) == UnderscoreRuns(ReplaceSeparators(description))
  {
    var collapsed := CollapseUnderscores(ReplaceSeparators(description));
    CollapseKeepsContent(ReplaceSeparators(description));
    LowerKeepsUnderscores(collapsed);
    ToLowerAscii(collapsed)
  }

  /**
   * The slug works piece by piece: a character that is neither a separator
   * nor `_` is lower-cased in place, and the parts on either side of it are
   * slugged on their own.
   */
  lemma SlugSplits(x: string, c: char, y: string)
    requires !IsSeparator(c) && c != '_'
    ensures Slug(x + [c] + y) == Slug(x) + [LowerAscii(c)] + Slug(y)
  {
    var rx, ry := ReplaceSeparators(x), ReplaceSeparators(y);
    ReplaceConcat(x + [c], y);
    ReplaceConcat(x, [c]);
    assert ReplaceSeparators([c]) == [c];
    var cx, cy := CollapseUnderscores(rx), CollapseUnderscores(ry);
    CollapseSplits(rx, c, ry);
    LowerConcat(cx + [c], cy);
    LowerConcat(cx, [c]);
    assert ToLowerAscii([c]) == [LowerAscii(c)];
  }

  lemma ReplaceConcat(a: string, b: string)
    ensures ReplaceSeparators(a + b) == ReplaceSeparators(a) + ReplaceSeparators(b)
  {
  }

  lemma LowerConcat(a: string, b: string)
    ensures ToLowerAscii(a + b) == ToLowerAscii(a) + ToLowerAscii(b)
  {
  }

  /** A non-empty run of separators and underscores becomes a single underscore. */
  lemma SlugRun(x: string)
    requires x != []
    requires forall i :: 0 <= i < |x| ==> IsSeparator(x[i]) || x[i] == '_'
    ensures Slug(x) == "_"
  {
    assert ReplaceSeparators(x) == seq(|x| - 1 + 1, _ => '_');
    CollapseRun(|x| - 1);
  }

  /** The key the active fraction is published under: the slug can be read back from between its fixed ends. */
  function MetricKey(description: string): (r: string)
    ensures |r| == |Slug(description)| + 19
    ensures r[..14] == "scanner-audio-" && r[|r| - 5..] == ".json"
    ensures r[14..|r| - 5] == Slug(description)
  {
    "scanner-audio-" + Slug(description) + ".json"
  }

  /**
   * The slug is no longer than the description, contains no separator, no
   * two adjacent underscores and no upper-case ASCII letter, and every other
   * character comes from the description.
   */
  lemma SlugProperties(description: string)
    ensures |Slug(description)| <= |description|
    ensures forall i :: 0 <= i < |Slug(description)| ==> !IsSeparator(Slug(description)[i])
    ensures !HasDoubleUnderscore(Slug(description))
    ensures forall i :: 0 <= i < |Slug(description)| ==> !IsUpperAscii(Slug(description)[i])
    ensures forall i :: 0 <= i < |Slug(description)| && Slug(description)[i] != '_' ==>
      exists j :: 0 <= j < |description| && Slug(description)[i] == LowerAscii(description[j])
  {
    var replaced := ReplaceSeparators(description);
    var collapsed := CollapseUnderscores(replaced);
    var slug := Slug(description);
    forall i | 0 <= i < |slug|
      ensures !IsSeparator(slug[i])
      ensures slug[i] != '_' ==> exists j :: 0 <= j < |description| && slug[i] == LowerAscii(description[j])
    {
      assert collapsed[i] in replaced;
      var j :| 0 <= j < |replaced| && replaced[j] == collapsed[i];
      assert slug[i] == LowerAscii(description[j]) || slug[i] == '_';
    }
  }

  /** Slugging a slug changes nothing. */
  lemma SlugIdempotent(description: string)
    ensures Slug(Slug(description)) == Slug(description)
  {
    var slug := Slug(description);
    SlugProperties(description);
    assert ReplaceSeparators(slug) == slug;
    CollapseWithoutRuns(slug);
    assert ToLowerAscii(slug) == slug;
  }

  /** Two descriptions are published under the same key exactly when their slugs agree. */
  lemma MetricKeySameSlug(a: string, b: string)
    ensures MetricKey(a) == MetricKey(b) <==> Slug(a) == Slug(b)
  {
  }

  /**
   * The characters String.prototype.trim removes: ECMAScript WhiteSpace
   * (tab, vertical tab, form feed, space, no-break space, byte order mark
   * and the space separators) and LineTerminator.
   */
  predicate IsJsWhitespace(c: char)
  {
    || c == '\t' || c == '\n' || c == 0x0B as char || c == 0x0C as char || c == '\r'
    || c == ' ' || c == 0xA0 as char || c == 0x1680 as char
    || (0x2000 as char <= c <= 0x200A as char)
    || c == 0x2028 as char || c == 0x2029 as char || c == 0x202F as char
    || c == 0x205F as char || c == 0x3000 as char || c == 0xFEFF as char
  }

  predicate AllWhitespace(s: string)
  {
    forall i :: 0 <= i < |s| ==> IsJsWhitespace(s[i])
  }

  /** Drops the longest whitespace prefix. */
  function TrimStart(s: string): (r: string)
    ensures |r| <= |s| && r == s[|s| - |r|..]
    ensures forall i :: 0 <= i < |s| - |r| ==> IsJsWhitespace(s[i])
    ensures r != [] ==> !IsJsWhitespace(r[0])
  {
    if s != [] && IsJsWhitespace(s[0]) then TrimStart(s[1..]) else s
  }

  /** Drops the longest whitespace suffix. */
  function TrimEnd(s: string): (r: string)
    ensures |r| <= |s| && r == s[..|r|]
    ensures forall i :: |r| <= i < |s| ==> IsJsWhitespace(s[i])
    ensures r != [] ==> !IsJsWhitespace(r[|r| - 1])
  {
    if s != [] && IsJsWhitespace(s[|s| - 1]) then TrimEnd(s[..|s| - 1]) else s
  }

  /** String.prototype.trim: empty exactly when the input is all whitespace. */
  function Trim(s: string): (r: string)
    ensures |r| <= |s|
    ensures r == [] <==> AllWhitespace(s)
  {
    TrimEmpty(s);
    TrimEnd(TrimStart(s))
  }

  lemma TrimEmpty(s: string)
    ensures TrimEnd(TrimStart(s)) == [] <==> AllWhitespace(s)
  {
    var front := TrimStart(s);
    var k := |s| - |front|;
    if TrimEnd(front) == [] {
      WhitespaceTail(s, k, front, 0);
    } else {
      assert front != [] && front[0] == s[k];
      assert !IsJsWhitespace(s[k]);
    }
  }

  lemma TrimSlice(s: string)
    ensures var i := |s| - |TrimStart(s)|; i + |Trim(s)| <= |s| && Trim(s) == s[i..i + |Trim(s)|]
  {
  }

  lemma TrimEnds(s: string)
    ensures Trim(s) != [] ==> !IsJsWhitespace(Trim(s)[0]) && !IsJsWhitespace(Trim(s)[|Trim(s)| - 1])
  {
    var front := TrimStart(s);
    var r := TrimEnd(front);
    assert Trim(s) == r;
    if r != [] {
      assert r[0] == front[0];
    }
  }

  lemma TrimDropsOnlyWhitespace(s: string)
    ensures forall k :: 0 <= k < |s| - |TrimStart(s)| ==> IsJsWhitespace(s[k])
    ensures forall k :: |s| - |TrimStart(s)| + |Trim(s)| <= k < |s| ==> IsJsWhitespace(s[k])
  {
    var front := TrimStart(s);
    WhitespaceTail(s, |s| - |front|, front, |Trim(s)|);
  }

  lemma WhitespaceTail(s: string, i: nat, front: string, keep: nat)
    requires i <= |s| && front == s[i..] && keep <= |front|
    requires forall m :: keep <= m < |front| ==> IsJsWhitespace(front[m])
    ensures forall k :: i + keep <= k < |s| ==> IsJsWhitespace(s[k])
  {
    forall k | i + keep <= k < |s|
      ensures IsJsWhitespace(s[k])
    {
      assert s[k] == front[k - i];
    }
  }

  /**
   * Trimming keeps one contiguous piece of the input, removes only
   * whitespace around it, and leaves no whitespace at either end.
   */
  lemma TrimProperties(s: string)
    ensures exists i, j ::
      && 0 <= i <= j <= |s| && Trim(s) == s[i..j]
      && (forall k :: 0 <= k < i ==> IsJsWhitespace(s[k]))
      && (forall k :: j <= k < |s| ==> IsJsWhitespace(s[k]))
    ensures Trim(s) != [] ==> !IsJsWhitespace(Trim(s)[0]) && !IsJsWhitespace(Trim(s)[|Trim(s)| - 1])
  {
    var i := |s| - |TrimStart(s)|;
    var j := i + |Trim(s)|;
    TrimSlice(s);
    TrimEnds(s);
    TrimDropsOnlyWhitespace(s);
    assert 0 <= i <= j <= |s| && Trim(s) == s[i..j];
    assert forall k :: 0 <= k < i ==> IsJsWhitespace(s[k]);
    assert forall k :: j <= k < |s| ==> IsJsWhitespace(s[k]);
  }

  /** Trimming a prefix of s keeps a contiguous piece of s. */
  lemma TrimOfPrefix(s: string, n: nat)
    requires n <= |s|
    ensures exists i, j :: 0 <= i <= j <= |s| && Trim(s[..n]) == s[i..j]
  {
    var p := s[..n];
    TrimSlice(p);
    var i := |p| - |TrimStart(p)|;
    var j := i + |Trim(p)|;
    SliceOfPrefix(s, n, i, j);
  }

  lemma SliceOfPrefix(s: string, n: nat, i: nat, j: nat)
    requires i <= j <= n <= |s|
    ensures s[..n][i..j] == s[i..j]
  {
  }

  /** Trimming twice is trimming once. */
  lemma TrimIdempotent(s: string)
    ensures Trim(Trim(s)) == Trim(s)
  {
    TrimProperties(s);
    var t := Trim(s);
    if t != [] {
      assert TrimStart(t) == t;
      assert TrimEnd(t) == t;
    }
  }

  const FeedSuffix: string := " Live Audio Feed"

  predicate EndsWith(s: string, suffix: string)
  {
    |suffix| <= |s| && s[|s| - |suffix|..] == suffix
  }

  /** `replace(/ Live Audio Feed$/, '')`: the anchored pattern can match only once, at the very end. */
  function StripFeedSuffix(title: string): (r: string)
    ensures EndsWith(title, FeedSuffix) ==> r + FeedSuffix == title
    ensures !EndsWith(title, FeedSuffix) ==> r == title
  {
    if EndsWith(title, FeedSuffix) then title[..|title| - |FeedSuffix|] else title
  }

  /** The stream title as used for its description: suffix stripped, then trimmed. */
  function CleanTitle(title: string): (r: string)
    ensures |r| <= |title|
    ensures r == [] <==> AllWhitespace(StripFeedSuffix(title))
  {
    Trim(StripFeedSuffix(title))
  }

  /** The cleaned title has no whitespace at either end and is a piece of the scraped title. */
  lemma CleanTitleProperties(title: string)
    ensures CleanTitle(title) != [] ==>
      !IsJsWhitespace(CleanTitle(title)[0]) && !IsJsWhitespace(CleanTitle(title)[|CleanTitle(title)| - 1])
    ensures exists i, j :: 0 <= i <= j <= |title| && CleanTitle(title) == title[i..j]
  {
    var stripped := StripFeedSuffix(title);
    assert CleanTitle(title) == Trim(stripped);
    TrimEnds(stripped);
    StrippedIsPrefix(title);
    TrimOfPrefix(title, |stripped|);
    assert stripped == title[..|stripped|];
  }

  lemma StrippedIsPrefix(title: string)
    ensures |StripFeedSuffix(title)| <= |title|
    ensures StripFeedSuffix(title) == title[..|StripFeedSuffix(title)|]
  {
  }


  /** A title without the suffix is only trimmed. */
  lemma CleanTitleWithoutSuffix(title: string)
    requires !EndsWith(title, FeedSuffix)
    ensures CleanTitle(title) == Trim(title)
  {
  }

  /** Exactly one trailing " Live Audio Feed" is removed: a second copy before it stays. */
  lemma CleanTitleStripsOnce(name: string)
    ensures CleanTitle(name + FeedSuffix) == Trim(name)
  {
    var title := name + FeedSuffix;
    assert title[|title| - |FeedSuffix|..] == FeedSuffix;
    assert title[..|title| - |FeedSuffix|] == name;
  }
}

/** Worked examples of the metric key. */
module NamingExamples {
  import opened Naming

  /**
   * Separators, case and underscore runs are all forgotten: differently
   * written descriptions can share one key.
   */
  lemma SharedMetricKey()
    ensures MetricKey("A.B") == MetricKey("a b") == "scanner-audio-a_b.json"
  {
    SlugOfDotted();
    SlugOfSpaced();
  }

  lemma SlugOfDotted()
    ensures Slug("A.B") == "a_b"
  {
    assert ReplaceSeparators("A.B") == "A_B";
    CollapseWithoutRuns("A_B");
  }

  lemma SlugOfSpaced()
    ensures Slug("a b") == "a_b"
  {
    assert ReplaceSeparators("a b") == "a_b";
    CollapseWithoutRuns("a_b");
  }
}
