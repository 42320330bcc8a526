/**
 * The message handler's pure and loop-based parts: the output-format hint
 * (`detect_output_format`), the analysis phrase, the keyboard choice, the
 * SQL-error fallback test and the packing of a long report into messages.
 */
module Handlers {
  import opened Wrappers
  import opened Utf8
  import opened Text
  import opened Api
  import opened Utils

  // ------------------------------------------------------- keyword tables

  const TableKeywords: seq<string> := [
    "таблица", "table", "таблицу", "таблицей",
    "в таблице", "как таблица", "покажи таблицу",
    "табличный", "табличный формат"
  ]

  /** The chart table lists "график" twice; the duplicate is kept. */
  const ChartKeywords: seq<string> := [
    "диаграмма", "chart", "график", "графиком",
    "диаграмму", "диаграммой", "в диаграмме",
    "как диаграмма", "покажи диаграмму", "визуализация",
    "визуализацию", "визуализацией", "визуализировать",
    "графически", "графический", "plot", "график",
    "нарисуй", "построй", "visualization"
  ]

  predicate NonEmptyAll(keywords: seq<string>)
  {
    forall k :: 0 <= k < |keywords| ==> keywords[k] != []
  }

  lemma KeywordTablesNonEmpty()
    ensures NonEmptyAll(TableKeywords) && NonEmptyAll(ChartKeywords)
  {
  }

  predicate HasAny(lower: string, keywords: seq<string>)
  {
    exists k :: 0 <= k < |keywords| && Contains(lower, keywords[k])
  }

  /** The requested kind of output, decided from the lowercased text: chart beats table beats json. */
  function Classify(lower: string): (kind: OutputType)
    ensures kind == Chart <==> HasAny(lower, ChartKeywords)
    ensures kind == Table <==> !HasAny(lower, ChartKeywords) && HasAny(lower, TableKeywords)
    ensures kind == Json <==> !HasAny(lower, ChartKeywords) && !HasAny(lower, TableKeywords) && Contains(lower, "json")
  {
    if HasAny(lower, ChartKeywords) then Chart
    else if HasAny(lower, TableKeywords) then Table
    else if Contains(lower, "json") then Json
    else Auto
  }

  // ------------------------------------------------------ keyword search

  /** A byte range `[start, end)` of the lowercased text, as pushed onto `to_remove`. */
  type Range = (nat, nat)

  /** The bytes searched for: the lowercased keyword, encoded. */
  function Needle(keyword: string): (n: seq<byte>)
    ensures |n| == ByteLen(keyword)
  {
    ToLowerByteLen(keyword);
    Encode(ToLower(keyword))
  }

  /**
   * The successive non-overlapping occurrences of `needle` in `hay` found by
   * repeated `find` from `from`, each resuming right after the previous one.
   */
  function Occurrences(hay: seq<byte>, needle: seq<byte>, from: nat): seq<Range>
    requires needle != []
    decreases |hay| - from
  {
    match IndexFrom(hay, needle, from)
    case None => []
    case Some(p) => [(p, p + |needle|)] + Occurrences(hay, needle, p + |needle|)
  }

  /** Every range is an occurrence of `needle` in `hay` at or after `from`. */
  predicate MatchesFrom(hay: seq<byte>, needle: seq<byte>, from: nat, rs: seq<Range>)
  {
    forall k :: 0 <= k < |rs| ==>
      from <= rs[k].0 && rs[k].1 == rs[k].0 + |needle| && MatchAt(hay, needle, rs[k].0)
  }

  /** The ranges are disjoint and in increasing order. */
  predicate Disjoint(rs: seq<Range>)
  {
    forall i, j :: 0 <= i < j < |rs| ==> rs[i].1 <= rs[j].0
  }

  /**
   * Every range found is an occurrence of the needle at or after `from`,
   * the ranges are disjoint and in increasing order, and none is found
   * exactly when the needle does not occur from `from` on.
   */
  lemma {:induction false} OccurrencesSound(hay: seq<byte>, needle: seq<byte>, from: nat)
    requires needle != []
    ensures MatchesFrom(hay, needle, from, Occurrences(hay, needle, from))
    ensures Disjoint(Occurrences(hay, needle, from))
    ensures Occurrences(hay, needle, from) == [] <==> forall j :: from <= j ==> !MatchAt(hay, needle, j)
    decreases |hay| - from
  {
    match IndexFrom(hay, needle, from)
    case None =>
      IndexFromFirst(hay, needle, from);
    case Some(p) =>
      IndexFromMatches(hay, needle, from, p);
      OccurrencesSound(hay, needle, p + |needle|);
      var rest := Occurrences(hay, needle, p + |needle|);
      OccurrencesUnfold(hay, needle, from, p);
      ConsFound(hay, needle, from, (p, p + |needle|), rest);
      DisjointCons(hay, needle, (p, p + |needle|), rest);
  }

  lemma OccurrencesUnfold(hay: seq<byte>, needle: seq<byte>, from: nat, p: nat)
    requires needle != [] && IndexFrom(hay, needle, from) == Some(p)
    ensures Occurrences(hay, needle, from) == [(p, p + |needle|)] + Occurrences(hay, needle, p + |needle|)
  {
  }

  lemma ConsFound(hay: seq<byte>, needle: seq<byte>, from: nat, r: Range, rest: seq<Range>)
    requires from <= r.0 && r.1 == r.0 + |needle| && MatchAt(hay, needle, r.0)
    requires MatchesFrom(hay, needle, r.1, rest)
    ensures MatchesFrom(hay, needle, from, [r] + rest)
  {
    var rs := [r] + rest;
    forall k | 0 <= k < |rs|
      ensures from <= rs[k].0 && rs[k].1 == rs[k].0 + |needle| && MatchAt(hay, needle, rs[k].0)
    {
      if k > 0 { assert rs[k] == rest[k - 1]; }
    }
  }

  lemma DisjointCons(hay: seq<byte>, needle: seq<byte>, r: Range, rest: seq<Range>)
    requires Disjoint(rest) && MatchesFrom(hay, needle, r.1, rest)
    ensures Disjoint([r] + rest)
  {
    var rs := [r] + rest;
    forall i, j | 0 <= i < j < |rs| ensures rs[i].1 <= rs[j].0 {
      if i > 0 {
        assert rs[i] == rest[i - 1] && rs[j] == rest[j - 1];
      } else {
        assert rs[j] == rest[j - 1];
      }
    }
  }

  /** All ranges for a keyword list, keyword by keyword, in table order. */
  function KeywordRanges(hay: seq<byte>, keywords: seq<string>): seq<Range>
    requires NonEmptyAll(keywords)
  {
    if keywords == [] then []
    else
      KeywordRanges(hay, keywords[..|keywords| - 1])
        + Occurrences(hay, Needle(keywords[|keywords| - 1]), 0)
  }

  /** One round of the search loop: the next occurrence moves from the pending list to the found list. */
  lemma OccurrencesStep(hay: seq<byte>, needle: seq<byte>, from: nat, p: nat, found: seq<Range>, all: seq<Range>)
    requires needle != [] && IndexFrom(hay, needle, from) == Some(p)
    requires found + Occurrences(hay, needle, from) == all
    ensures from <= p && p + |needle| <= |hay|
    ensures (found + [(p, p + |needle|)]) + Occurrences(hay, needle, p + |needle|) == all
  {
    OccurrencesUnfold(hay, needle, from, p);
    assert found + ([(p, p + |needle|)] + Occurrences(hay, needle, p + |needle|)) == all;
  }

  /** The `while let Some(pos) = text_lower[search_pos..].find(&keyword_lower)` loop for one keyword. */
  method FindOccurrences(hay: seq<byte>, keywordLower: seq<byte>) returns (found: seq<Range>)
    requires keywordLower != []
    ensures found == Occurrences(hay, keywordLower, 0)
  {
    found := [];
    var searchPos := 0;
    var pos := IndexFrom(hay, keywordLower, searchPos);
    while pos.Some?
      invariant pos == IndexFrom(hay, keywordLower, searchPos)
      invariant found + Occurrences(hay, keywordLower, searchPos) == Occurrences(hay, keywordLower, 0)
      decreases |hay| - searchPos
    {
      found, searchPos, pos := FoundOne(hay, keywordLower, searchPos, pos.value, found, Occurrences(hay, keywordLower, 0));
    }
    OccurrencesDone(hay, keywordLower, searchPos);
  }

  /** One round of the loop: record the occurrence at `actualPos` and search again right after it. */
  method FoundOne(hay: seq<byte>, keywordLower: seq<byte>, searchPos: nat, actualPos: nat, found: seq<Range>, ghost all: seq<Range>)
    returns (found': seq<Range>, searchPos': nat, pos': Option<nat>)
    requires keywordLower != [] && IndexFrom(hay, keywordLower, searchPos) == Some(actualPos)
    requires found + Occurrences(hay, keywordLower, searchPos) == all
    ensures searchPos < searchPos' <= |hay|
    ensures pos' == IndexFrom(hay, keywordLower, searchPos')
    ensures found' + Occurrences(hay, keywordLower, searchPos') == all
  {
    OccurrencesStep(hay, keywordLower, searchPos, actualPos, found, all);
    // `keyword.len()`: lowercasing keeps every character's width, so it is the needle's length.
    found' := found + [(actualPos, actualPos + |keywordLower|)];
    searchPos' := actualPos + |keywordLower|;
    pos' := IndexFrom(hay, keywordLower, searchPos');
  }

  lemma OccurrencesDone(hay: seq<byte>, needle: seq<byte>, from: nat)
    requires needle != [] && IndexFrom(hay, needle, from).None?
    ensures Occurrences(hay, needle, from) == []
  {
  }

  /** The `for keyword in &..._keywords` loop over one keyword table. */
  method FindRanges(hay: seq<byte>, keywords: seq<string>) returns (ranges: seq<Range>)
    requires NonEmptyAll(keywords)
    ensures ranges == KeywordRanges(hay, keywords)
  {
    ranges := [];
    for k := 0 to |keywords|
      invariant ranges == KeywordRanges(hay, keywords[..k])
    {
      var keywordLower := Needle(keywords[k]);
      var found := FindOccurrences(hay, keywordLower);
      ranges := ranges + found;
      assert keywords[..k + 1][..k] == keywords[..k];
    }
    assert keywords[..|keywords|] == keywords;
  }

  // --------------------------------------------------- sort by start, descending

  /** Insert `r` before the first range that does not start later; earlier ranges stay in front on ties. */
  function InsertByStart(r: Range, sorted: seq<Range>): (out: seq<Range>)
    ensures multiset(out) == multiset(sorted) + multiset{r}
    ensures |out| == |sorted| + 1
  {
    if sorted == [] || r.0 >= sorted[0].0 then [r] + sorted
    else
      assert sorted == [sorted[0]] + sorted[1..];
      [sorted[0]] + InsertByStart(r, sorted[1..])
  }

  /** `sort_by(|a, b| b.0.cmp(&a.0))`: a stable sort, latest start first. */
  function SortByStartDesc(rs: seq<Range>): seq<Range>
  {
    if rs == [] then [] else InsertByStart(rs[0], SortByStartDesc(rs[1..]))
  }

  predicate StartsDescending(rs: seq<Range>)
  {
    forall i, j :: 0 <= i < j < |rs| ==> rs[i].0 >= rs[j].0
  }

  /** Every range of `InsertByStart(r, sorted)` is `r` or a range of `sorted`. */
  lemma {:induction false} InsertMembers(r: Range, sorted: seq<Range>)
    ensures forall x :: x in InsertByStart(r, sorted) ==> x == r || x in sorted
  {
    var out := InsertByStart(r, sorted);
    forall x | x in out ensures x == r || x in sorted {
      assert x in multiset(out);
    }
  }

  lemma {:induction false} InsertKeepsDescending(r: Range, sorted: seq<Range>)
    requires StartsDescending(sorted)
    ensures StartsDescending(InsertByStart(r, sorted))
  {
    if sorted == [] || r.0 >= sorted[0].0 {
      DescendingCons(r, sorted);
    } else {
      var tail := InsertByStart(r, sorted[1..]);
      InsertKeepsDescending(r, sorted[1..]);
      InsertMembers(r, sorted[1..]);
      assert StartsDescending(sorted[1..]) by {
        forall i, j | 0 <= i < j < |sorted[1..]| ensures sorted[1..][i].0 >= sorted[1..][j].0 {
          assert sorted[1..][i] == sorted[i + 1] && sorted[1..][j] == sorted[j + 1];
        }
      }
      forall x | x in tail ensures sorted[0].0 >= x.0 {
        if x != r {
          var k :| 0 <= k < |sorted[1..]| && sorted[1..][k] == x;
          assert x == sorted[k + 1];
        }
      }
      DescendingCons(sorted[0], tail);
    }
  }

  /** A range that starts no earlier than every range of a descending list can go in front of it. */
  lemma DescendingCons(r: Range, rs: seq<Range>)
    requires StartsDescending(rs)
    requires forall x :: x in rs ==> r.0 >= x.0
    ensures StartsDescending([r] + rs)
  {
    var out := [r] + rs;
    forall i, j | 0 <= i < j < |out| ensures out[i].0 >= out[j].0 {
      assert out[j] == rs[j - 1] && rs[j - 1] in rs;
      if i > 0 {
        assert out[i] == rs[i - 1];
      }
    }
  }

  /** The sorted list is a permutation of the found ranges, latest start first. */
  lemma {:induction false} SortByStartDescCorrect(rs: seq<Range>)
    ensures StartsDescending(SortByStartDesc(rs))
    ensures multiset(SortByStartDesc(rs)) == multiset(rs)
  {
    if rs != [] {
      SortByStartDescCorrect(rs[1..]);
      InsertKeepsDescending(rs[0], SortByStartDesc(rs[1..]));
      SortKeepsRanges(rs);
    }
  }

  /** The ranges that start at `v`, in list order. */
  function WithStart(rs: seq<Range>, v: nat): seq<Range>
  {
    if rs == [] then [] else (if rs[0].0 == v then [rs[0]] else []) + WithStart(rs[1..], v)
  }

  /**
   * The sort is stable: ranges with the same start keep the order in which
   * they were found.
   */
  lemma {:induction false} SortByStartDescStable(rs: seq<Range>, v: nat)
    ensures WithStart(SortByStartDesc(rs), v) == WithStart(rs, v)
  {
    if rs != [] {
      SortByStartDescStable(rs[1..], v);
      InsertWithStart(rs[0], SortByStartDesc(rs[1..]), v);
    }
  }

  /** Inserting `r` puts it ahead of every range with the same start. */
  lemma {:induction false} InsertWithStart(r: Range, sorted: seq<Range>, v: nat)
    ensures WithStart(InsertByStart(r, sorted), v) == (if r.0 == v then [r] else []) + WithStart(sorted, v)
  {
    if sorted == [] || r.0 >= sorted[0].0 {
      assert ([r] + sorted)[1..] == sorted;
    } else {
      var out := [sorted[0]] + InsertByStart(r, sorted[1..]);
      assert out[1..] == InsertByStart(r, sorted[1..]);
      InsertWithStart(r, sorted[1..], v);
    }
  }

  lemma SortKeepsRanges(rs: seq<Range>)
    requires rs != [] && multiset(SortByStartDesc(rs[1..])) == multiset(rs[1..])
    ensures multiset(SortByStartDesc(rs)) == multiset(rs)
  {
    MultisetFront(rs);
  }

  lemma MultisetFront(rs: seq<Range>)
    requires rs != []
    ensures multiset(rs) == multiset(rs[1..]) + multiset{rs[0]}
  {
    assert rs == [rs[0]] + rs[1..];
  }

  // ------------------------------------------------------------- removal

  function Min(a: nat, b: nat): nat
  {
    if a < b then a else b
  }

  predicate Ordered(rs: seq<Range>)
  {
    forall k :: 0 <= k < |rs| ==> rs[k].0 <= rs[k].1
  }

  /** `clean_text.chars().take(offset).count()`: the offset is read as a number of characters. */
  function CharCountAsWritten(clean: string, offset: nat): (n: nat)
    ensures n <= |clean|
  {
    Min(offset, |clean|)
  }

  /** One round of the removal loop as written: byte offsets used as character counts. */
  function RemoveAsWritten(clean: string, r: Range): string
    requires r.0 <= r.1
  {
    if r.1 <= ByteLen(clean) then
      clean[..CharCountAsWritten(clean, r.0)] + clean[CharCountAsWritten(clean, r.1)..]
    else clean
  }

  /** The removal loop as written, applying the ranges in list order. */
  function RemoveAllAsWritten(clean: string, rs: seq<Range>): string
    requires Ordered(rs)
    decreases |rs|
  {
    if rs == [] then clean else RemoveAllAsWritten(RemoveAsWritten(clean, rs[0]), rs[1..])
  }

  /** The number of whole characters in the first `offset` bytes of `clean`. */
  function CharIndex(clean: string, offset: nat): (n: nat)
    ensures n <= |clean|
  {
    |FitPrefix(clean, offset)|
  }

  /** One round of the removal loop with byte offsets converted to character indices. */
  function RemoveFixed(clean: string, r: Range): string
    requires r.0 <= r.1
  {
    FitPrefixMonotone(clean, r.0, r.1);
    if r.1 <= ByteLen(clean) then clean[..CharIndex(clean, r.0)] + clean[CharIndex(clean, r.1)..]
    else clean
  }

  function RemoveAllFixed(clean: string, rs: seq<Range>): string
    requires Ordered(rs)
    decreases |rs|
  {
    if rs == [] then clean else RemoveAllFixed(RemoveFixed(clean, rs[0]), rs[1..])
  }

  /**
   * Character ranges that are disjoint, each within `n` and each lying
   * wholly before the one listed ahead of it (latest first).
   */
  predicate Spans(cs: seq<Range>, n: nat)
    decreases |cs|
  {
    cs == [] || (cs[0].0 <= cs[0].1 <= n && Spans(cs[1..], cs[0].0))
  }

  /** Reference result: the text with every listed character range cut out, the rest kept in order. */
  function Gaps(s: string, cs: seq<Range>): string
    requires Spans(cs, |s|)
    decreases |cs|
  {
    if cs == [] then s else Gaps(s[..cs[0].0], cs[1..]) + s[cs[0].1..]
  }

  /** The byte offset of character index `i` (clamped to the text). */
  function ByteOffset(s: string, i: nat): nat
  {
    ByteLen(s[..Min(i, |s|)])
  }

  /** Character ranges written as the byte ranges a search would report. */
  function ToBytes(s: string, cs: seq<Range>): (rs: seq<Range>)
    requires forall k :: 0 <= k < |cs| ==> cs[k].0 <= cs[k].1
    ensures |rs| == |cs| && Ordered(rs)
  {
    var rs := seq(|cs|, k requires 0 <= k < |cs| => (ByteOffset(s, cs[k].0), ByteOffset(s, cs[k].1)));
    assert Ordered(rs) by {
      forall k | 0 <= k < |cs| ensures rs[k].0 <= rs[k].1 {
        ByteLenPrefixMonotone(s, Min(cs[k].0, |s|), Min(cs[k].1, |s|));
      }
    }
    rs
  }

  /** Ranges that lie within a prefix have the same byte offsets in the prefix as in the whole. */
  lemma ToBytesPrefix(p: string, n: nat, cs: seq<Range>)
    requires n <= |p| && forall k :: 0 <= k < |cs| ==> cs[k].0 <= cs[k].1 <= n
    ensures ToBytes(p, cs) == ToBytes(p[..n], cs)
  {
    forall k | 0 <= k < |cs| ensures ToBytes(p, cs)[k] == ToBytes(p[..n], cs)[k] {
      assert p[..cs[k].0] == p[..n][..cs[k].0] && p[..cs[k].1] == p[..n][..cs[k].1];
    }
  }

  lemma {:induction false} SpansOrdered(cs: seq<Range>, n: nat)
    requires Spans(cs, n)
    ensures forall k :: 0 <= k < |cs| ==> cs[k].0 <= cs[k].1 <= n
    decreases |cs|
  {
    if cs != [] {
      SpansOrdered(cs[1..], cs[0].0);
      forall k | 1 <= k < |cs| ensures cs[k].0 <= cs[k].1 <= n {
        assert cs[k] == cs[1..][k - 1];
      }
    }
  }

  /** Removing a range whose ends are character boundaries cuts out exactly those characters. */
  lemma RemoveFixedAtBoundary(s: string, i: nat, j: nat)
    requires i <= j <= |s|
    ensures ByteLen(s[..i]) <= ByteLen(s[..j])
    ensures RemoveFixed(s, (ByteLen(s[..i]), ByteLen(s[..j]))) == s[..i] + s[j..]
  {
    ByteLenPrefixMonotone(s, i, j);
    ByteLenPrefixMonotone(s, j, |s|);
    assert s[..|s|] == s;
    FitPrefixAtBoundary(s, i);
    FitPrefixAtBoundary(s, j);
  }

  /**
   * The corrected loop removes every range, however wide the characters
   * before it: for disjoint ranges listed latest first (as the sort leaves
   * them), the result is the text with all ranges cut out. Text after the
   * ranges (`tail`) is untouched.
   */
  lemma {:induction false} RemoveAllFixedCutsAll(p: string, tail: string, cs: seq<Range>)
    requires Spans(cs, |p|)
    ensures forall k :: 0 <= k < |cs| ==> cs[k].0 <= cs[k].1
    ensures RemoveAllFixed(p + tail, ToBytes(p, cs)) == Gaps(p, cs) + tail
    decreases |cs|
  {
    SpansOrdered(cs, |p|);
    if cs != [] {
      var i, j := cs[0].0, cs[0].1;
      var rest := cs[1..];
      FirstCut(p, tail, cs);
      SpansOrdered(rest, i);
      ToBytesTail(p, cs);
      ToBytesPrefix(p, i, rest);
      RemoveAllFixedCutsAll(p[..i], p[j..] + tail, rest);
      GapsStep(p, tail, cs);
    }
  }

  /** The first listed range is cut out of the text at its character boundaries. */
  lemma FirstCut(p: string, tail: string, cs: seq<Range>)
    requires cs != [] && forall k :: 0 <= k < |cs| ==> cs[k].0 <= cs[k].1 <= |p|
    ensures RemoveFixed(p + tail, ToBytes(p, cs)[0]) == p[..cs[0].0] + (p[cs[0].1..] + tail)
  {
    var i, j := cs[0].0, cs[0].1;
    SliceAppend(p, tail, i, j);
    assert ToBytes(p, cs)[0] == (ByteOffset(p, i), ByteOffset(p, j));
    assert Min(i, |p|) == i && Min(j, |p|) == j;
    assert (p + tail)[..j] == p[..j];
    assert ToBytes(p, cs)[0] == (ByteLen((p + tail)[..i]), ByteLen((p + tail)[..j]));
    RemoveFixedAtBoundary(p + tail, i, j);
  }

  lemma ToBytesTail(p: string, cs: seq<Range>)
    requires cs != [] && forall k :: 0 <= k < |cs| ==> cs[k].0 <= cs[k].1
    ensures ToBytes(p, cs)[1..] == ToBytes(p, cs[1..])
  {
    forall k | 0 <= k < |cs| - 1 ensures ToBytes(p, cs)[1..][k] == ToBytes(p, cs[1..])[k] {
      assert cs[1..][k] == cs[k + 1];
    }
  }

  lemma GapsStep(p: string, tail: string, cs: seq<Range>)
    requires cs != [] && Spans(cs, |p|)
    ensures Gaps(p, cs) + tail == Gaps(p[..cs[0].0], cs[1..]) + (p[cs[0].1..] + tail)
  {
  }

  lemma {:induction false} AsciiSlices(s: string, i: nat, j: nat)
    requires IsAscii(s) && i <= j <= |s|
    ensures IsAscii(s[i..j]) && IsAscii(s[..i]) && IsAscii(s[j..])
  {
    assert forall k :: 0 <= k < j - i ==> s[i..j][k] == s[i + k];
    assert forall k :: 0 <= k < i ==> s[..i][k] == s[k];
    assert forall k :: 0 <= k < |s| - j ==> s[j..][k] == s[j + k];
  }

  /** On ASCII text the code as written and the corrected conversion agree, range by range. */
  lemma {:induction false} AsciiRemovalAgrees(s: string, rs: seq<Range>)
    requires IsAscii(s) && Ordered(rs)
    ensures RemoveAllAsWritten(s, rs) == RemoveAllFixed(s, rs)
    decreases |rs|
  {
    if rs != [] {
      AsciiStep(s, rs[0]);
      AsciiRemovalAgrees(RemoveAsWritten(s, rs[0]), rs[1..]);
    }
  }

  /** One range on ASCII text: both conversions cut the same characters, and the text stays ASCII. */
  lemma AsciiStep(s: string, r: Range)
    requires IsAscii(s) && r.0 <= r.1
    ensures RemoveAsWritten(s, r) == RemoveFixed(s, r)
    ensures IsAscii(RemoveAsWritten(s, r))
  {
    AsciiFitPrefix(s, r.0);
    AsciiFitPrefix(s, r.1);
    AsciiByteLen(s);
    if r.1 <= ByteLen(s) {
      var a, b := Min(r.0, |s|), Min(r.1, |s|);
      AsciiSlices(s, a, b);
      AsciiConcat(s[..a], s[b..]);
    }
  }

  lemma AsciiConcat(x: string, y: string)
    requires IsAscii(x) && IsAscii(y)
    ensures IsAscii(x + y)
  {
    forall k | 0 <= k < |x + y| ensures (x + y)[k] as int < 0x80 {
      if k >= |x| { assert (x + y)[k] == y[k - |x|]; }
    }
  }

  /** On ASCII text byte and character offsets coincide. */
  lemma AsciiToBytes(s: string, cs: seq<Range>)
    requires IsAscii(s) && Spans(cs, |s|)
    ensures forall k :: 0 <= k < |cs| ==> cs[k].0 <= cs[k].1
    ensures ToBytes(s, cs) == cs
  {
    SpansOrdered(cs, |s|);
    forall k | 0 <= k < |cs| ensures ToBytes(s, cs)[k] == cs[k] {
      AsciiSlices(s, 0, cs[k].0);
      AsciiSlices(s, 0, cs[k].1);
      assert s[0..cs[k].0] == s[..cs[k].0] && s[0..cs[k].1] == s[..cs[k].1];
      AsciiByteLen(s[..cs[k].0]);
      AsciiByteLen(s[..cs[k].1]);
    }
  }

  /** For ASCII text the loop as written deletes every keyword range (disjoint, latest first). */
  lemma AsciiRemovalCutsAll(s: string, cs: seq<Range>)
    requires IsAscii(s) && Spans(cs, |s|)
    ensures Ordered(cs)
    ensures RemoveAllAsWritten(s, cs) == Gaps(s, cs)
  {
    AsciiToBytes(s, cs);
    AsciiRemovalAgrees(s, cs);
    RemoveAllFixedCutsAll(s, [], cs);
    assert s + [] == s;
    assert Gaps(s, cs) + [] == Gaps(s, cs);
  }

  /** Each range is non-empty and ends within `n`. */
  predicate Within(rs: seq<Range>, n: nat)
  {
    forall k :: 0 <= k < |rs| ==> rs[k].0 < rs[k].1 <= n
  }

  /** No two listed ranges overlap; a range listed twice overlaps itself. */
  predicate NoOverlap(rs: seq<Range>)
  {
    forall i, j :: 0 <= i < j < |rs| ==> rs[i].1 <= rs[j].0 || rs[j].1 <= rs[i].0
  }

  /** Non-overlapping non-empty ranges sorted latest first are cut from the back: they span the text. */
  lemma {:induction false} DescendingSpans(cs: seq<Range>, n: nat)
    requires StartsDescending(cs) && NoOverlap(cs) && Within(cs, n)
    ensures Spans(cs, n)
    decreases |cs|
  {
    if cs != [] {
      var rest := cs[1..];
      forall i, j | 0 <= i < j < |rest| ensures rest[i].0 >= rest[j].0 && (rest[i].1 <= rest[j].0 || rest[j].1 <= rest[i].0) {
        assert rest[i] == cs[i + 1] && rest[j] == cs[j + 1];
      }
      forall k | 0 <= k < |rest| ensures rest[k].0 < rest[k].1 <= cs[0].0 {
        assert rest[k] == cs[k + 1];
      }
      DescendingSpans(rest, cs[0].0);
    }
  }

  /** Listing a range twice counts it twice. */
  lemma TwiceCounted(rs: seq<Range>, i: nat, j: nat)
    requires i < j < |rs| && rs[i] == rs[j]
    ensures multiset(rs)[rs[i]] >= 2
  {
    assert rs == rs[..j] + rs[j..];
    assert rs[..j][i] == rs[i];
    assert rs[j..][0] == rs[j];
  }

  /** A range counted twice is listed at two places. */
  lemma TwiceListed(rs: seq<Range>, x: Range) returns (i: nat, j: nat)
    requires multiset(rs)[x] >= 2
    ensures i < j < |rs| && rs[i] == x && rs[j] == x
  {
    assert x in multiset(rs);
    i :| 0 <= i < |rs| && rs[i] == x;
    assert rs == rs[..i] + [x] + rs[i + 1..];
    assert multiset(rs) == multiset(rs[..i]) + multiset{x} + multiset(rs[i + 1..]);
    if x in rs[i + 1..] {
      var k :| 0 <= k < |rs[i + 1..]| && rs[i + 1..][k] == x;
      j := i + 1 + k;
    } else {
      assert x in multiset(rs[..i]);
      var k :| 0 <= k < |rs[..i]| && rs[..i][k] == x;
      i, j := k, i;
    }
  }

  /** Whether ranges overlap does not depend on the order they are listed in. */
  lemma NoOverlapPermutation(rs: seq<Range>, ts: seq<Range>)
    requires NoOverlap(rs) && multiset(rs) == multiset(ts)
    ensures NoOverlap(ts)
  {
    forall i, j | 0 <= i < j < |ts| ensures ts[i].1 <= ts[j].0 || ts[j].1 <= ts[i].0 {
      if ts[i] == ts[j] {
        TwiceCounted(ts, i, j);
        var a, b := TwiceListed(rs, ts[i]);
      } else {
        assert ts[i] in multiset(rs) && ts[j] in multiset(rs);
        var a :| 0 <= a < |rs| && rs[a] == ts[i];
        var b :| 0 <= b < |rs| && rs[b] == ts[j];
        if a > b {
          assert rs[b].1 <= rs[a].0 || rs[a].1 <= rs[b].0;
        }
      }
    }
  }

  lemma WithinPermutation(rs: seq<Range>, ts: seq<Range>, n: nat)
    requires Within(rs, n) && multiset(rs) == multiset(ts)
    ensures Within(ts, n)
  {
    forall k | 0 <= k < |ts| ensures ts[k].0 < ts[k].1 <= n {
      assert ts[k] in multiset(rs);
    }
  }

  /**
   * For ASCII text whose keyword occurrences do not overlap, the cleaned
   * text is the text with every occurrence cut out, then normalised.
   */
  lemma AsciiCleanText(text: string)
    requires IsAscii(text) && NoOverlap(FoundRanges(text))
    ensures Spans(RemovalOrder(text), |text|)
    ensures CleanText(text) == Normalize(Gaps(text, RemovalOrder(text)))
  {
    FoundRangesWithin(text);
    AsciiByteLen(text);
    AsciiCuts(text, FoundRanges(text), RemovalOrder(text));
  }

  /** The loop as written, on ASCII text, given the ranges in removal order. */
  lemma AsciiCuts(text: string, found: seq<Range>, order: seq<Range>)
    requires IsAscii(text) && NoOverlap(found) && Within(found, |text|)
    requires StartsDescending(order) && multiset(order) == multiset(found)
    ensures Spans(order, |text|) && Ordered(order)
    ensures RemoveAllAsWritten(text, order) == Gaps(text, order)
  {
    NoOverlapPermutation(found, order);
    WithinPermutation(found, order, |text|);
    DescendingSpans(order, |text|);
    AsciiRemovalCutsAll(text, order);
  }

  /**
   * Overlapping ranges are not all cut, by the loop as written nor by the
   * corrected one: once the later range is gone the text is shorter than the
   * wider range's end, so that range is skipped and its front part stays.
   */
  lemma OverlapKeepsFront(s: string, h: nat, i: nat)
    requires IsAscii(s) && h < i < |s|
    ensures RemoveAllAsWritten(s, [(i, |s|), (h, |s|)]) == s[..i]
    ensures RemoveAllFixed(s, [(i, |s|), (h, |s|)]) == s[..i]
  {
    OverlapAsWritten(s, h, i);
    AsciiRemovalAgrees(s, [(i, |s|), (h, |s|)]);
  }

  /** The loop as written, on the two overlapping ranges of `OverlapKeepsFront`. */
  lemma OverlapAsWritten(s: string, h: nat, i: nat)
    requires IsAscii(s) && h < i < |s|
    ensures RemoveAllAsWritten(s, [(i, |s|), (h, |s|)]) == s[..i]
  {
    AsciiByteLen(s);
    assert RemoveAsWritten(s, (i, |s|)) == s[..i] by {
      assert s[..i] + s[|s|..] == s[..i];
    }
    AsciiSlices(s, 0, i);
    assert s[0..i] == s[..i];
    AsciiByteLen(s[..i]);
    assert RemoveAsWritten(s[..i], (h, |s|)) == s[..i];
    RemoveTwo(s, (i, |s|), (h, |s|));
  }

  lemma RemoveTwo(s: string, r1: Range, r2: Range)
    requires r1.0 <= r1.1 && r2.0 <= r2.1
    ensures RemoveAllAsWritten(s, [r1, r2]) == RemoveAsWritten(RemoveAsWritten(s, r1), r2)
  {
    var rs: seq<Range> := [r1, r2];
    var tail: seq<Range> := rs[1..];
    assert tail == [r2];
    var none: seq<Range> := tail[1..];
    assert none == [];
    var t1 := RemoveAsWritten(s, r1);
    assert RemoveAllAsWritten(s, rs) == RemoveAllAsWritten(t1, tail);
    assert RemoveAllAsWritten(t1, tail) == RemoveAllAsWritten(RemoveAsWritten(t1, r2), none);
  }

  /**
   * The code as written removes nothing when the range's start, read as a
   * character count, already reaches the end of the text: this happens for
   * any keyword in the second half of a text of two-byte letters.
   */
  lemma AsWrittenMissesLateRange(s: string, r: Range)
    requires r.0 <= r.1 <= ByteLen(s) && r.0 >= |s|
    ensures RemoveAsWritten(s, r) == s
  {
    assert s[..|s|] + s[|s|..] == s;
  }

  /** Letters between U+0080 and U+07FF take two bytes each. */
  lemma {:induction false} TwoByteLetters(s: string)
    requires forall k :: 0 <= k < |s| ==> 0x80 <= s[k] as int < 0x800
    ensures ByteLen(s) == 2 * |s|
  {
    if s != [] {
      assert forall k :: 0 <= k < |s[1..]| ==> s[1..][k] == s[k + 1];
      TwoByteLetters(s[1..]);
    }
  }

  /** The words before the keyword in the sample query "покажи топ городов таблица". */
  const QueryFront: string := "покажи" + " " + "топ" + " " + "городов" + " "
  const CyrillicQuery: string := QueryFront + "таблица"

  /** Three words, each followed by a space. */
  lemma SpacedBytes(a: string, b: string, c: string)
    ensures |a + " " + b + " " + c + " "| == |a| + |b| + |c| + 3
    ensures ByteLen(a + " " + b + " " + c + " ") == ByteLen(a) + ByteLen(b) + ByteLen(c) + 3
  {
    ByteLenAppend(a, " ");
    ByteLenAppend(a + " ", b);
    ByteLenAppend(a + " " + b, " ");
    ByteLenAppend(a + " " + b + " ", c);
    ByteLenAppend(a + " " + b + " " + c, " ");
  }

  lemma QueryFrontBytes()
    ensures |QueryFront| == 19 && ByteLen(QueryFront) == 35
  {
    FrontWordBytes();
    SpacedBytes("покажи", "топ", "городов");
  }

  lemma FrontWordBytes()
    ensures ByteLen("покажи") == 12 && ByteLen("топ") == 6 && ByteLen("городов") == 14
  {
    WordBytes("покажи");
    WordBytes("топ");
    WordBytes("городов");
  }

  /** A word of Cyrillic letters (U+0430..U+044F) takes two bytes per letter. */
  lemma WordBytes(w: string)
    requires forall k :: 0 <= k < |w| ==> 'а' <= w[k] <= 'я'
    ensures ByteLen(w) == 2 * |w|
  {
    TwoByteLetters(w);
  }

  lemma ToLowerAppend(a: string, b: string)
    ensures ToLower(a + b) == ToLower(a) + ToLower(b)
  {
  }

  lemma LowercaseFixed(s: string)
    requires forall k :: 0 <= k < |s| ==> s[k] == ' ' || 0x430 <= s[k] as int <= 0x44F
    ensures ToLower(s) == s
  {
  }

  lemma QueryIsLowercase()
    ensures ToLower(CyrillicQuery) == CyrillicQuery
  {
    LowercaseFixed("покажи");
    LowercaseFixed(" ");
    LowercaseFixed("топ");
    LowercaseFixed("городов");
    LowercaseFixed("таблица");
    ToLowerAppend("покажи", " ");
    ToLowerAppend("покажи" + " ", "топ");
    ToLowerAppend("покажи" + " " + "топ", " ");
    ToLowerAppend("покажи" + " " + "топ" + " ", "городов");
    ToLowerAppend("покажи" + " " + "топ" + " " + "городов", " ");
    ToLowerAppend(QueryFront, "таблица");
  }

  /** The keyword "таблица" occurs in the lowercased sample at bytes 35..49. */
  lemma CyrillicKeywordAt()
    ensures MatchAt(Encode(ToLower(CyrillicQuery)), Needle("таблица"), 35)
  {
    QueryIsLowercase();
    KeywordNeedle();
    KeywordBytesAt();
  }

  lemma KeywordNeedle()
    ensures Needle("таблица") == Encode("таблица")
  {
    LowercaseFixed("таблица");
  }

  lemma KeywordBytesAt()
    ensures MatchAt(Encode(CyrillicQuery), Encode("таблица"), 35)
  {
    QueryFrontBytes();
    EncodeAppend(QueryFront, "таблица");
    MatchAfter(Encode(QueryFront), Encode("таблица"));
  }

  lemma CyrillicQueryBytes()
    ensures |CyrillicQuery| == 26 && ByteLen(CyrillicQuery) == 49
  {
    QueryFrontBytes();
    WordBytes("таблица");
    ByteLenAppend(QueryFront, "таблица");
  }

  /**
   * In "покажи топ городов таблица" the keyword "таблица" occurs in the
   * lowercased text at bytes 35..49. The code as written cuts characters
   * 26..26 and leaves the text unchanged; the corrected conversion cuts
   * exactly the keyword.
   */
  lemma CyrillicKeywordKept()
    ensures MatchAt(Encode(ToLower(CyrillicQuery)), Needle("таблица"), 35)
    ensures RemoveAsWritten(CyrillicQuery, (35, 49)) == CyrillicQuery
    ensures RemoveFixed(CyrillicQuery, (35, 49)) == QueryFront
  {
    var s := CyrillicQuery;
    CyrillicKeywordAt();
    CyrillicQueryBytes();
    QueryFrontBytes();
    AsWrittenMissesLateRange(s, (35, 49));
    SliceAppend(QueryFront, "таблица", 19, 19);
    assert QueryFront[..19] == QueryFront && s[..26] == s;
    RemoveFixedAtBoundary(s, 19, 26);
  }

  // --------------------------------------------------------- normalisation

  /** `split_whitespace().join(" ").trim().trim_matches(',').trim()`. */
  function Normalize(s: string): string
  {
    Trim(TrimMatches(Trim(Join(Words(s), " ")), ','))
  }

  lemma TrimSingleSpaced(t: string)
    requires SingleSpaced(t)
    ensures SingleSpaced(Trim(t))
  {
    var a, b :| 0 <= a <= b <= |t| && Trim(t) == t[a..b];
    SingleSpacedSlice(t, a, b);
  }

  lemma TrimCommasSingleSpaced(t: string)
    requires SingleSpaced(t)
    ensures SingleSpaced(TrimMatches(t, ','))
  {
    var a, b := TrimMatchesSlice(t, ',');
    SingleSpacedSlice(t, a, b);
  }

  /** The cleaned text has no whitespace at either end and its words are separated by single spaces. */
  lemma NormalizeShape(s: string)
    ensures var r := Normalize(s);
      (r == [] || (!IsWhitespace(r[0]) && !IsWhitespace(r[|r| - 1]))) && SingleSpaced(r)
  {
    var j := Join(Words(s), " ");
    JoinSingleSpaced(Words(s));
    TrimSingleSpaced(j);
    TrimCommasSingleSpaced(Trim(j));
    TrimSingleSpaced(TrimMatches(Trim(j), ','));
  }

  /**
   * Commas are cut only as the runs at both ends of the single-spaced text:
   * the cleaned text is the trim of a slice of it that neither starts nor
   * ends with a comma, with nothing but commas outside the slice.
   */
  lemma NormalizeCommas(s: string) returns (a: nat, b: nat)
    ensures var t := Trim(Join(Words(s), " ")); a <= b <= |t| && Normalize(s) == Trim(t[a..b])
    ensures var t := Trim(Join(Words(s), " ")); a <= b <= |t| && (t[a..b] == [] || (t[a] != ',' && t[b - 1] != ','))
    ensures var t := Trim(Join(Words(s), " ")); a <= b <= |t| && AllAre(t[..a], ',') && AllAre(t[b..], ',')
  {
    var t := Trim(Join(Words(s), " "));
    a, b := TrimMatchesSlice(t, ',');
    SliceEnds(t, a, b, TrimMatches(t, ','), ',');
  }

  /** A slice that neither starts nor ends with `c` has no `c` at its first or last index. */
  lemma SliceEnds(t: string, a: nat, b: nat, r: string, c: char)
    requires a <= b <= |t| && r == t[a..b] && (r == [] || (r[0] != c && r[|r| - 1] != c))
    ensures t[a..b] == [] || (t[a] != c && t[b - 1] != c)
  {
  }


  /** The sample ", , a" joins back from its words unchanged. */
  lemma CommaSampleWords()
    ensures Join(Words(", , a"), " ") == ", , a"
  {
    CommaSampleSplit();
    assert Join(["a"], " ") == "a";
    assert Join([",", "a"], " ") == ", a";
  }

  /** The words of the sample ", , a": two lone commas and a letter. */
  lemma CommaSampleSplit()
    ensures Words(", , a") == [",", ",", "a"]
  {
    CommaSampleTail();
    assert NoWhitespace(",");
    WordsCons(",", " , a");
    assert "," + " , a" == ", , a";
  }

  /** The words of the tail " , a". */
  lemma CommaSampleTail()
    ensures Words(" , a") == [",", "a"]
  {
    assert NoWhitespace(",") && NoWhitespace("a") && IsWhitespace(' ');
    WordsCons("a", "");
    assert "a" + "" == "a";
    WordsSkipSpace(' ', "a");
    assert [' '] + "a" == " a";
    WordsCons(",", " a");
    assert "," + " a" == ", a";
    WordsSkipSpace(' ', ", a");
    assert [' '] + ", a" == " , a";
  }

  /**
   * Commas are cut only from the ends of the single-spaced text: a comma
   * behind a space survives, and the final trim brings it to the front.
   */
  lemma NormalizeKeepsInnerComma()
    ensures Normalize(", , a") == ", a"
  {
    CommaSampleWords();
    TrimUntouched(", , a");
    CommaSampleCut();
    CommaSampleTrim();
  }

  /** The comma step on the sample cuts only its first character. */
  lemma CommaSampleCut()
    ensures TrimMatches(", , a", ',') == " , a"
  {
    CommaStep(", , a", " , a");
    assert " , a"[0] != ',' && " , a"[3] != ',';
  }

  /** One step of the comma trim: a comma in front goes. */
  lemma CommaStep(t: string, rest: string)
    requires t != [] && t[0] == ',' && rest == t[1..]
    ensures TrimMatches(t, ',') == TrimMatches(rest, ',')
  {
  }

  /** The final trim brings the surviving comma to the front. */
  lemma CommaSampleTrim()
    ensures Trim(" , a") == ", a"
  {
    TrimStartStep(" , a", ", a");
    TrimSidesStop(", a");
  }

  /** A character the corrected clean-up cuts from the ends: a comma or whitespace. */
  predicate IsEdgeJunk(c: char)
  {
    c == ',' || IsWhitespace(c)
  }

  function TrimJunkStart(t: string): (r: string)
    ensures r == [] || !IsEdgeJunk(r[0])
    ensures |r| <= |t| && r == t[|t| - |r|..]
    decreases |t|
  {
    if t != [] && IsEdgeJunk(t[0]) then TrimJunkStart(t[1..]) else t
  }

  function TrimJunkEnd(t: string): (r: string)
    ensures r == [] || !IsEdgeJunk(r[|r| - 1])
    ensures r <= t
    decreases |t|
  {
    if t != [] && IsEdgeJunk(t[|t| - 1]) then TrimJunkEnd(t[..|t| - 1]) else t
  }

  /** The leading cut removes nothing but commas and whitespace. */
  lemma {:induction false} JunkStartCutsJunk(t: string)
    ensures forall i :: 0 <= i < |t| - |TrimJunkStart(t)| ==> IsEdgeJunk(t[i])
    decreases |t|
  {
    if t != [] && IsEdgeJunk(t[0]) {
      JunkStartCutsJunk(t[1..]);
      forall i | 0 < i < |t| - |TrimJunkStart(t)| ensures IsEdgeJunk(t[i]) {
        assert t[i] == t[1..][i - 1];
      }
    }
  }

  /** The trailing cut removes nothing but commas and whitespace. */
  lemma {:induction false} JunkEndCutsJunk(t: string)
    ensures forall i :: |TrimJunkEnd(t)| <= i < |t| ==> IsEdgeJunk(t[i])
    decreases |t|
  {
    if t != [] && IsEdgeJunk(t[|t| - 1]) {
      JunkEndCutsJunk(t[..|t| - 1]);
      forall i | |TrimJunkEnd(t)| <= i < |t| - 1 ensures IsEdgeJunk(t[i]) {
        assert t[i] == t[..|t| - 1][i];
      }
    }
  }

  /** The clean-up with every comma and space at either end cut, however they alternate. */
  function NormalizeFixed(s: string): string
  {
    TrimJunkEnd(TrimJunkStart(Join(Words(s), " ")))
  }

  /**
   * The corrected clean-up cuts nothing but commas and whitespace: it is the
   * slice `a..b` of the single-spaced text with only those outside it.
   */
  lemma NormalizeFixedCuts(s: string) returns (a: nat, b: nat)
    ensures var j := Join(Words(s), " "); a <= b <= |j| && NormalizeFixed(s) == j[a..b]
    ensures var j := Join(Words(s), " "); a <= |j| && forall i :: 0 <= i < a ==> IsEdgeJunk(j[i])
    ensures var j := Join(Words(s), " "); b <= |j| && forall i :: b <= i < |j| ==> IsEdgeJunk(j[i])
  {
    var j := Join(Words(s), " ");
    var t := TrimJunkStart(j);
    var r := TrimJunkEnd(t);
    JunkStartCutsJunk(j);
    JunkEndCutsJunk(t);
    a, b := JunkBetween(j, t, r);
  }

  /**
   * The corrected clean-up leaves neither a comma nor whitespace at either
   * end and keeps single spacing.
   */
  lemma NormalizeFixedShape(s: string)
    ensures var r := NormalizeFixed(s); r == [] || (!IsEdgeJunk(r[0]) && !IsEdgeJunk(r[|r| - 1]))
    ensures SingleSpaced(NormalizeFixed(s))
  {
    var j := Join(Words(s), " ");
    JoinSingleSpaced(Words(s));
    var t := TrimJunkStart(j);
    var a, b := PrefixBounds(j, t, TrimJunkEnd(t));
    SingleSpacedSlice(j, a, b);
  }

  /** A prefix `r` of a suffix `t` of `j` is the slice `a..b` of `j`. */
  lemma PrefixBounds(j: string, t: string, r: string) returns (a: nat, b: nat)
    requires |t| <= |j| && t == j[|j| - |t|..] && r <= t
    ensures a == |j| - |t| && b == a + |r| && b <= |j| && r == j[a..b]
  {
    a, b := |j| - |t|, |j| - |t| + |r|;
    PrefixOfSuffix(j, a, r);
  }

  /**
   * A prefix `r` of a suffix `t` of `j`, with only junk before `t` and only
   * junk after `r` in `t`, is the slice `a..b` of `j` with only junk outside it.
   */
  lemma JunkBetween(j: string, t: string, r: string) returns (a: nat, b: nat)
    requires |t| <= |j| && t == j[|j| - |t|..] && r <= t
    requires forall i :: 0 <= i < |j| - |t| ==> IsEdgeJunk(j[i])
    requires forall i :: |r| <= i < |t| ==> IsEdgeJunk(t[i])
    ensures a <= b <= |j| && r == j[a..b]
    ensures forall i :: 0 <= i < a ==> IsEdgeJunk(j[i])
    ensures forall i :: b <= i < |j| ==> IsEdgeJunk(j[i])
  {
    a, b := PrefixBounds(j, t, r);
    forall i | b <= i < |j| ensures IsEdgeJunk(j[i]) {
      assert j[i] == t[i - a];
    }
  }

  lemma NormalizeFixedDropsComma()
    ensures NormalizeFixed(", , a") == "a"
  {
    CommaSampleWords();
    JunkSampleStart();
  }

  /** The corrected leading cut takes both commas and both spaces of the sample. */
  lemma JunkSampleStart()
    ensures TrimJunkStart(", , a") == "a"
  {
    JunkStep(", , a", " , a");
    JunkStep(" , a", ", a");
    JunkStep(", a", " a");
    JunkStep(" a", "a");
    JunkStop("a");
  }

  /** The leading cut stops at a character that is neither a comma nor whitespace. */
  lemma JunkStop(t: string)
    requires t != [] && t[0] != ',' && !IsWhitespace(t[0])
    ensures TrimJunkStart(t) == t
  {
  }

  /** One step of the leading cut: a comma or whitespace in front goes. */
  lemma JunkStep(t: string, rest: string)
    requires t != [] && IsEdgeJunk(t[0]) && rest == t[1..]
    ensures TrimJunkStart(t) == TrimJunkStart(rest)
  {
  }

  // ------------------------------------------------------- detect_output_format

  /** Every range `to_remove` collects, table keywords first, then chart keywords. */
  function FoundRanges(text: string): seq<Range>
  {
    var hay := Encode(ToLower(text));
    KeywordTablesNonEmpty();
    KeywordRanges(hay, TableKeywords) + KeywordRanges(hay, ChartKeywords)
  }

  lemma {:induction false} KeywordRangesOrdered(hay: seq<byte>, keywords: seq<string>)
    requires NonEmptyAll(keywords)
    ensures Ordered(KeywordRanges(hay, keywords))
    decreases |keywords|
  {
    if keywords != [] {
      var front := keywords[..|keywords| - 1];
      KeywordRangesOrdered(hay, front);
      OccurrencesSound(hay, Needle(keywords[|keywords| - 1]), 0);
    }
  }

  lemma SortKeepsOrdered(rs: seq<Range>)
    requires Ordered(rs)
    ensures Ordered(SortByStartDesc(rs))
  {
    SortByStartDescCorrect(rs);
    var sorted := SortByStartDesc(rs);
    forall k | 0 <= k < |sorted| ensures sorted[k].0 <= sorted[k].1 {
      assert sorted[k] in multiset(rs);
    }
  }

  lemma OrderedAppend(a: seq<Range>, b: seq<Range>)
    requires Ordered(a) && Ordered(b)
    ensures Ordered(a + b)
  {
    forall k | 0 <= k < |a + b| ensures (a + b)[k].0 <= (a + b)[k].1 {
      if k >= |a| { assert (a + b)[k] == b[k - |a|]; }
    }
  }

  lemma FoundRangesOrdered(text: string)
    ensures Ordered(FoundRanges(text))
  {
    var hay := Encode(ToLower(text));
    KeywordTablesNonEmpty();
    KeywordRangesOrdered(hay, TableKeywords);
    KeywordRangesOrdered(hay, ChartKeywords);
    OrderedAppend(KeywordRanges(hay, TableKeywords), KeywordRanges(hay, ChartKeywords));
  }

  /** Every occurrence lies within the lowercased text's bytes, which are as many as the text's. */
  lemma FoundRangesWithin(text: string)
    ensures Within(FoundRanges(text), ByteLen(text))
  {
    var hay := Encode(ToLower(text));
    ToLowerByteLen(text);
    KeywordTablesNonEmpty();
    KeywordRangesWithin(hay, TableKeywords);
    KeywordRangesWithin(hay, ChartKeywords);
    WithinAppend(KeywordRanges(hay, TableKeywords), KeywordRanges(hay, ChartKeywords), |hay|);
  }

  lemma WithinAppend(a: seq<Range>, b: seq<Range>, n: nat)
    requires Within(a, n) && Within(b, n)
    ensures Within(a + b, n)
  {
    forall k | 0 <= k < |a + b| ensures (a + b)[k].0 < (a + b)[k].1 <= n {
      if k >= |a| { assert (a + b)[k] == b[k - |a|]; }
    }
  }

  lemma {:induction false} KeywordRangesWithin(hay: seq<byte>, keywords: seq<string>)
    requires NonEmptyAll(keywords)
    ensures Within(KeywordRanges(hay, keywords), |hay|)
    decreases |keywords|
  {
    if keywords != [] {
      var front := keywords[..|keywords| - 1];
      KeywordRangesWithin(hay, front);
      var needle := Needle(keywords[|keywords| - 1]);
      OccurrencesSound(hay, needle, 0);
      WithinAppend(KeywordRanges(hay, front), Occurrences(hay, needle, 0), |hay|);
    }
  }

  /** The ranges in the order the removal loop visits them: latest start first. */
  function RemovalOrder(text: string): (rs: seq<Range>)
    ensures Ordered(rs) && StartsDescending(rs)
    ensures multiset(rs) == multiset(FoundRanges(text))
  {
    var found := FoundRanges(text);
    FoundRangesOrdered(text);
    SortKeepsOrdered(found);
    SortByStartDescCorrect(found);
    SortByStartDesc(found)
  }

  /** The cleaned question `detect_output_format` returns. */
  function CleanText(text: string): string
  {
    Normalize(RemoveAllAsWritten(text, RemovalOrder(text)))
  }

  /** The `for (start, end) in to_remove` loop, applying each range to the text as it stands. */
  method RemoveRanges(text: string, toRemove: seq<Range>) returns (cleanText: string)
    requires Ordered(toRemove)
    ensures cleanText == RemoveAllAsWritten(text, toRemove)
  {
    cleanText := text;
    for k := 0 to |toRemove|
      invariant RemoveAllAsWritten(cleanText, toRemove[k..]) == RemoveAllAsWritten(text, toRemove)
    {
      var (start, end) := toRemove[k];
      assert toRemove[k..][1..] == toRemove[k + 1..];
      if end <= ByteLen(cleanText) {
        var chars := cleanText;
        var startChar := CharCountAsWritten(cleanText, start);
        var endChar := CharCountAsWritten(cleanText, end);
        if endChar <= |chars| {
          cleanText := chars[..startChar] + chars[endChar..];
        }
      }
    }
    assert toRemove[|toRemove|..] == [];
  }

  /** `detect_output_format`: the kind, decided from the whole input, and the text without keywords. */
  method DetectOutputFormat(text: string) returns (cleanText: string, outputType: OutputType)
    ensures outputType == Classify(ToLower(text))
    ensures cleanText == CleanText(text)
  {
    var textLower := ToLower(text);
    outputType := Classify(textLower);
    var toRemove := CollectRanges(text);
    cleanText := RemoveRanges(text, toRemove);
    cleanText := Normalize(cleanText);
  }

  /** The search loops over both keyword tables, then the sort: the ranges in removal order. */
  method CollectRanges(text: string) returns (toRemove: seq<Range>)
    ensures toRemove == RemovalOrder(text)
    ensures Ordered(toRemove)
  {
    KeywordTablesNonEmpty();
    var hay := Encode(ToLower(text));
    var tableRanges := FindRanges(hay, TableKeywords);
    var chartRanges := FindRanges(hay, ChartKeywords);
    toRemove := SortByStartDesc(tableRanges + chartRanges);
  }

  // ------------------------------------------------------- analysis phrase

  /** `include_analysis`: the lowercased cleaned text mentions "с анализом" or "анализ". */
  function IncludeAnalysis(clean: string): bool
  {
    Contains(ToLower(clean), "с анализом") || Contains(ToLower(clean), "анализ")
  }

  /** The question sent: both phrases removed case-sensitively, then trimmed. */
  function AnalysisQuestion(clean: string): string
  {
    Trim(ReplaceAll(ReplaceAll(clean, "с анализом", ""), "анализ", ""))
  }

  /** "с анализом" contains "анализ", so the first test adds nothing to the second. */
  lemma IncludeAnalysisIff(clean: string)
    ensures IncludeAnalysis(clean) <==> Contains(ToLower(clean), "анализ")
  {
    var t := ToLower(clean);
    if Contains(t, "с анализом") {
      AnalysisWordPieces();
      ContainsWider(t, "с анализом", "анализ", 2);
    }
  }

  /** An occurrence of `wide` holds one of every piece of it. */
  lemma ContainsWider(s: string, wide: string, narrow: string, offset: nat)
    requires offset + |narrow| <= |wide| && wide[offset..offset + |narrow|] == narrow
    requires Contains(s, wide)
    ensures Contains(s, narrow)
  {
    var i: nat :| MatchAt(s, wide, i);
    var j := i + offset;
    forall t | 0 <= t < |narrow| ensures s[j + t] == narrow[t] {
      assert s[j + t] == s[i..i + |wide|][offset + t];
    }
    assert s[j..j + |narrow|] == narrow;
    assert MatchAt(s, narrow, j);
  }

  /** Lowercasing keeps the lowercase Cyrillic letters, so an occurrence in the text survives it. */
  lemma ContainsLowered(s: string, p: string)
    requires ToLower(p) == p && Contains(s, p)
    ensures Contains(ToLower(s), p)
  {
    var i: nat :| MatchAt(s, p, i);
    assert ToLower(s)[i..i + |p|] == ToLower(s[i..i + |p|]);
    assert MatchAt(ToLower(s), p, i);
  }

  lemma AnalysisWordPieces()
    ensures ToLower("анализ") == "анализ"
    ensures "с анализом"[2..8] == "анализ"
  {
  }

  /** Without "анализ" in any case, no analysis is asked for and the question is the trimmed text. */
  lemma NoAnalysisWord(clean: string)
    requires !Contains(ToLower(clean), "анализ")
    ensures !IncludeAnalysis(clean)
    ensures AnalysisQuestion(clean) == Trim(clean)
  {
    IncludeAnalysisIff(clean);
    AnalysisWordPieces();
    if Contains(clean, "анализ") {
      ContainsLowered(clean, "анализ");
    }
    if Contains(clean, "с анализом") {
      ContainsWider(clean, "с анализом", "анализ", 2);
    }
    ReplaceAbsent(clean, "с анализом", "");
    ReplaceAbsent(clean, "анализ", "");
  }

  /** A capitalised "Анализ" asks for analysis yet stays in the question: detection ignores case, removal does not. */
  lemma CapitalisedWordStays()
    ensures IncludeAnalysis("Анализ")
    ensures AnalysisQuestion("Анализ") == "Анализ"
  {
    var w := "Анализ";
    CapitalisedLowers();
    assert MatchAt(ToLower(w), "анализ", 0);
    CapitalisedHasNoPhrase();
    ReplaceAbsent(w, "с анализом", "");
    CapitalisedHasNoWord();
    ReplaceAbsent(w, "анализ", "");
    TrimUntouched(w);
  }

  lemma CapitalisedLowers()
    ensures ToLower("Анализ") == "анализ"
  {
  }

  lemma CapitalisedHasNoPhrase()
    ensures !Contains("Анализ", "с анализом")
  {
    forall i: nat ensures !MatchAt("Анализ", "с анализом", i) { }
  }

  lemma CapitalisedHasNoWord()
    ensures !Contains("Анализ", "анализ")
  {
    var w := "Анализ";
    forall i: nat ensures !MatchAt(w, "анализ", i) {
      if i == 0 { assert w[0] != "анализ"[0]; }
    }
  }

  /** The request a typed message produces; the caller has trimmed it and dropped it when empty. */
  method TextQueryRequest(text: string, userId: string) returns (request: QueryRequest)
    requires text != [] && Trim(text) == text
    ensures request.question == AnalysisQuestion(CleanText(text))
    ensures request.includeAnalysis == IncludeAnalysis(CleanText(text))
    ensures request.useCache && !request.includeSql
    ensures request.userId == Some(userId)
    ensures request.outputType == Classify(ToLower(text))
  {
    var cleanText, outputType := DetectOutputFormat(text);
    var includeAnalysis := Contains(ToLower(cleanText), "с анализом") || Contains(ToLower(cleanText), "анализ");
    var question := Trim(ReplaceAll(ReplaceAll(cleanText, "с анализом", ""), "анализ", ""));
    request := QueryRequest(question, includeAnalysis, true, false, Some(userId), outputType);
  }

  const HelpButton: string := "❓ Помощь"
  const ClearButton: string := "🔄 Очистить контекст"

  /**
   * Where a text message goes: nowhere when it is blank, to the help or
   * clear-context handlers for their two buttons, to the backend as the
   * query a menu button stands for, and to the backend as typed text
   * otherwise.
   */
  datatype TextRoute =
    | Silent
    | ShowHelp
    | ClearHistory
    | MenuQuery(query: string)
    | TypedText(text: string)

  /**
   * The routing of `handle_message`. `buttonQuery` stands for the menu's
   * `button_to_query`, which is not part of this model. Typed text is passed
   * on trimmed and non-empty, as `TextQueryRequest` requires.
   */
  method RouteText(raw: string, buttonQuery: string -> Option<string>) returns (route: TextRoute)
    ensures route.Silent? <==> Trim(raw) == []
    ensures route.ShowHelp? <==> Trim(raw) == HelpButton
    ensures route.ClearHistory? <==> Trim(raw) == ClearButton
    ensures route.MenuQuery? <==> Trim(raw) !in {[], HelpButton, ClearButton} && buttonQuery(Trim(raw)).Some?
    ensures route.MenuQuery? ==> route.query == buttonQuery(Trim(raw)).value
    ensures route.TypedText? ==> route.text == Trim(raw) && route.text != [] && Trim(route.text) == route.text
  {
    var text := Trim(raw);
    TrimTwice(raw);
    if text == [] {
      return Silent;
    }
    if text == HelpButton {
      return ShowHelp;
    }
    if text == ClearButton {
      return ClearHistory;
    }
    match buttonQuery(text)
    case Some(query) =>
      route := MenuQuery(query);
    case None =>
      route := TypedText(text);
  }

  /**
   * The request for a menu button's query: cleaned and classified like typed
   * text, but with analysis always on and no analysis-phrase handling.
   */
  method MenuQueryRequest(query: string, userId: string) returns (request: QueryRequest)
    ensures request.question == CleanText(query)
    ensures request.includeAnalysis && request.useCache && !request.includeSql
    ensures request.userId == Some(userId)
    ensures request.outputType == Classify(ToLower(query))
  {
    var cleanQuery, outputType := DetectOutputFormat(query);
    request := QueryRequest(cleanQuery, true, true, false, Some(userId), outputType);
  }

  // ---------------------------------------------------------- keyboard choice

  const DefaultSuggestions: seq<string> := ["📊 Показать больше данных", "📈 С анализом"]

  /**
   * The questions behind the reply keyboard of a text message: the analysis
   * suggestions when there are any, else the two defaults when rows came
   * back, else no keyboard.
   */
  function KeyboardQuestions(r: QueryResponse): (q: Option<seq<string>>)
    ensures q.Some? ==> q.value != []
    ensures (r.analysis.Some? && r.analysis.value.suggestedQuestions != []) ==> q == Some(r.analysis.value.suggestedQuestions)
    ensures q.None? <==> (r.analysis.None? || r.analysis.value.suggestedQuestions == []) && (r.data == [] || r.rowCount == 0)
  {
    var fromAnalysis :=
      if r.analysis.Some? && r.analysis.value.suggestedQuestions != [] then Some(r.analysis.value.suggestedQuestions)
      else None;
    if fromAnalysis.Some? then fromAnalysis
    else if r.data != [] && r.rowCount > 0 then Some(DefaultSuggestions)
    else None
  }

  // -------------------------------------------------------- SQL-error fallback

  /** The chat API is tried instead when the error text mentions SQL (matched case-sensitively). */
  function IsSqlError(error: string): bool
  {
    Contains(error, "syntax error") || Contains(error, "SQL") || Contains(error, "database")
  }

  const NotAboutDataHint: string := "🤔 Похоже, ваш вопрос не связан с базой данных. Я могу помочь с анализом платежных транзакций.\n\nПопробуйте задать вопрос, например:\n• Сколько транзакций было сегодня?\n• Топ 10 городов по объему транзакций"
  const RetryAdvice: string := "Не удалось обработать запрос. Попробуйте переформулировать вопрос или используйте /help для примеров."

  /**
   * The reply to a failed query: for an SQL-looking error the chat answer
   * (`chatAnswer`, the chat API's result) or a hint, otherwise a formatted
   * error.
   */
  function ErrorReply(error: string, chatAnswer: Option<string>): (reply: string)
    ensures !IsSqlError(error) ==> ErrorHeading <= reply && UnescapeHtml(reply[|ErrorHeading|..]) == RetryAdvice
    ensures IsSqlError(error) ==> reply == (if chatAnswer.Some? then chatAnswer.value else NotAboutDataHint)
  {
    if IsSqlError(error) then
      match chatAnswer
      case Some(message) => message
      case None => NotAboutDataHint
    else FormatError(RetryAdvice)
  }

  /** The test is case-sensitive: a lowercase "sql" alone does not trigger the fallback. */
  lemma LowercaseSqlNotMatched()
    ensures !IsSqlError("sql")
  {
    var e := "sql";
    forall i: nat ensures !MatchAt(e, "SQL", i) {
      if i == 0 { assert e[0] != "SQL"[0]; }
    }
    forall i: nat ensures !MatchAt(e, "syntax error", i) && !MatchAt(e, "database", i) { }
  }

  // ---------------------------------------------------------------- chunking

  const MessageLimit: nat := 4096
  const ChunkLimit: nat := 4000

  /** `ls` with some empty lines left out and nothing else changed. */
  predicate DropsOnlyEmpty(ls: seq<string>, kept: seq<string>)
    decreases |ls|
  {
    if ls == [] then kept == []
    else
      var last := ls[|ls| - 1];
      (last == [] && DropsOnlyEmpty(ls[..|ls| - 1], kept))
      || (kept != [] && kept[|kept| - 1] == last && DropsOnlyEmpty(ls[..|ls| - 1], kept[..|kept| - 1]))
  }

  function Flatten(groups: seq<seq<string>>): seq<string>
  {
    if groups == [] then [] else Flatten(groups[..|groups| - 1]) + groups[|groups| - 1]
  }

  /** The non-empty lines, in order. */
  function NonEmptyLines(ls: seq<string>): seq<string>
  {
    if ls == [] then []
    else NonEmptyLines(ls[..|ls| - 1]) + (if ls[|ls| - 1] == [] then [] else [ls[|ls| - 1]])
  }

  lemma NonEmptyLinesHas(ls: seq<string>, x: string)
    requires x in ls && x != []
    ensures x in NonEmptyLines(ls)
    decreases |ls|
  {
    if ls[|ls| - 1] != x {
      assert x in ls[..|ls| - 1];
      NonEmptyLinesHas(ls[..|ls| - 1], x);
    }
  }

  /** Dropping only empty lines keeps every non-empty line, in order. */
  lemma {:induction false} DropsOnlyEmptyKeepsText(ls: seq<string>, kept: seq<string>)
    requires DropsOnlyEmpty(ls, kept)
    ensures NonEmptyLines(ls) == NonEmptyLines(kept)
    decreases |ls|
  {
    if ls != [] {
      var last := ls[|ls| - 1];
      if last == [] && DropsOnlyEmpty(ls[..|ls| - 1], kept) {
        DropsOnlyEmptyKeepsText(ls[..|ls| - 1], kept);
      } else {
        DropsOnlyEmptyKeepsText(ls[..|ls| - 1], kept[..|kept| - 1]);
      }
    }
  }

  /** A chunk is the '\n'-join of its lines, starts with a non-empty line, and is within 4000 bytes unless it holds a single line. */
  predicate ChunkOf(chunk: string, group: seq<string>)
  {
    chunk != [] && group != [] && group[0] != [] && chunk == Join(group, "\n")
    && (ByteLen(chunk) <= ChunkLimit || |group| == 1)
  }

  predicate ChunksOf(chunks: seq<string>, groups: seq<seq<string>>)
  {
    |groups| == |chunks| && forall k :: 0 <= k < |chunks| ==> ChunkOf(chunks[k], groups[k])
  }

  lemma ChunksOfSnoc(chunks: seq<string>, groups: seq<seq<string>>, chunk: string, group: seq<string>)
    requires ChunksOf(chunks, groups) && ChunkOf(chunk, group)
    ensures ChunksOf(chunks + [chunk], groups + [group])
    ensures Flatten(groups + [group]) == Flatten(groups) + group
  {
    assert (groups + [group])[..|groups|] == groups;
  }

  lemma DropsOnlyEmptySnoc(ls: seq<string>, kept: seq<string>, line: string)
    requires DropsOnlyEmpty(ls, kept)
    ensures DropsOnlyEmpty(ls + [line], kept + [line])
    ensures line == [] ==> DropsOnlyEmpty(ls + [line], kept)
  {
    assert (ls + [line])[..|ls|] == ls;
    assert (kept + [line])[..|kept|] == kept;
  }

  /** Appending '\n' and a line to a chunk grows it by the line's bytes plus one. */
  lemma JoinLine(current: string, group: seq<string>, line: string)
    requires group != [] && current == Join(group, "\n")
    ensures current + "\n" + line == Join(group + [line], "\n")
    ensures ByteLen(current + "\n" + line) == ByteLen(current) + ByteLen(line) + 1
  {
    JoinSnoc(group, line, "\n");
    ByteLenAppend(current, "\n");
    ByteLenAppend(current + "\n", line);
  }

  /** Line `i` lies in one of the runs. */
  ghost predicate Covered(bounds: seq<Range>, i: nat)
  {
    bounds != []
    && (bounds[|bounds| - 1].0 <= i < bounds[|bounds| - 1].1 || Covered(bounds[..|bounds| - 1], i))
  }

  /**
   * Chunk `k` holds the consecutive lines `lines[bounds[k].0..bounds[k].1]`;
   * the runs follow one another in order, and every line outside them is
   * empty.
   */
  ghost predicate Runs(lines: seq<string>, groups: seq<seq<string>>, bounds: seq<Range>)
  {
    Slices(lines, groups, bounds) && InOrder(bounds) && CoversNonEmpty(lines, bounds)
  }

  /** Group `k` is the non-empty slice `bounds[k]` of `lines`. */
  ghost predicate Slices(lines: seq<string>, groups: seq<seq<string>>, bounds: seq<Range>)
  {
    |bounds| == |groups|
    && forall k :: 0 <= k < |bounds| ==>
         bounds[k].0 < bounds[k].1 <= |lines| && groups[k] == lines[bounds[k].0..bounds[k].1]
  }

  /** Each run ends before the next one starts. */
  ghost predicate InOrder(bounds: seq<Range>)
  {
    forall j, k :: 0 <= j < k < |bounds| ==> bounds[j].1 <= bounds[k].0
  }

  /** Every non-empty line lies in a run. */
  ghost predicate CoversNonEmpty(lines: seq<string>, bounds: seq<Range>)
  {
    forall i :: 0 <= i < |lines| && lines[i] != [] ==> Covered(bounds, i)
  }

  /** A chunk followed by a line is closed only because that line did not fit. */
  ghost predicate ClosesGreedily(chunks: seq<string>, bounds: seq<Range>, lines: seq<string>)
  {
    |chunks| <= |bounds|
    && forall k :: 0 <= k < |chunks| && bounds[k].1 < |lines| ==>
         Overflows(chunks[k], lines[bounds[k].1])
  }

  /**
   * What the packing loop produces from `lines`: chunks of consecutive
   * lines, each grown until the next line would not fit, with only empty
   * lines left between them.
   */
  ghost predicate GreedyPacking(lines: seq<string>, chunks: seq<string>, groups: seq<seq<string>>, bounds: seq<Range>)
  {
    ChunksOf(chunks, groups) && Runs(lines, groups, bounds) && ClosesGreedily(chunks, bounds, lines)
  }

  /**
   * The packing loop: lines are joined with '\n' while the chunk stays
   * within 4000 bytes; a line that does not fit starts a new chunk. An empty
   * line met while the chunk is empty adds nothing. `groups` records which
   * lines each chunk holds and `bounds` where they stand in `lines`.
   */
  method PackLines(lines: seq<string>) returns (chunks: seq<string>, ghost groups: seq<seq<string>>, ghost bounds: seq<Range>)
    ensures GreedyPacking(lines, chunks, groups, bounds)
    ensures DropsOnlyEmpty(lines, Flatten(groups))
  {
    chunks := [];
    groups := [];
    bounds := [];
    var current: string := "";
    ghost var group: seq<string> := [];
    PackEmpty(lines);
    for i := 0 to |lines|
      invariant Packing(chunks, groups, bounds, current, group, lines[..i])
    {
      PrefixSnoc(lines, i);
      chunks, groups, bounds, current, group := PackLine(chunks, groups, bounds, current, group, lines[i], lines[..i]);
    }
    PrefixAll(lines);
    PackDone(chunks, groups, bounds, current, group, lines);
    if current != [] {
      chunks := chunks + [current];
      groups := groups + [group];
    }
  }

  lemma PrefixSnoc(lines: seq<string>, i: nat)
    requires i < |lines|
    ensures lines[..i + 1] == lines[..i] + [lines[i]]
  {
  }

  lemma PrefixAll(lines: seq<string>)
    ensures lines[..|lines|] == lines
  {
  }

  /** Before the first line there is nothing to pack. */
  lemma PackEmpty(lines: seq<string>)
    ensures Packing([], [], [], "", [], lines[..0])
  {
    assert lines[..0] == [];
    assert Flatten([]) + [] == [];
  }

  /** After the last line, the chunk being built (if any) is the last chunk. */
  lemma PackDone(chunks: seq<string>, groups: seq<seq<string>>, bounds: seq<Range>,
                 current: string, group: seq<string>, lines: seq<string>)
    requires Packing(chunks, groups, bounds, current, group, lines)
    ensures current == [] ==> GreedyPacking(lines, chunks, groups, bounds) && DropsOnlyEmpty(lines, Flatten(groups))
    ensures current != [] ==>
              GreedyPacking(lines, chunks + [current], groups + [group], bounds)
              && DropsOnlyEmpty(lines, Flatten(groups + [group]))
  {
    if current == [] {
      assert Flatten(groups) + group == Flatten(groups);
      assert Open(groups, group) == groups;
      ClosedGreedily(chunks, bounds, lines);
    } else {
      ChunksOfSnoc(chunks, groups, current, group);
      assert Open(groups, group) == groups + [group];
      ClosedGreedily(chunks, bounds, lines);
      LastGreedily(chunks, current, bounds, lines);
    }
  }

  lemma ClosedGreedily(chunks: seq<string>, bounds: seq<Range>, lines: seq<string>)
    requires Closed(chunks, bounds, lines)
    ensures ClosesGreedily(chunks, bounds, lines)
  {
  }

  /** The last chunk ends with the last line, so nothing follows it. */
  lemma LastGreedily(chunks: seq<string>, current: string, bounds: seq<Range>, lines: seq<string>)
    requires ClosesGreedily(chunks, bounds, lines) && |chunks| < |bounds| && bounds[|chunks|].1 == |lines|
    ensures ClosesGreedily(chunks + [current], bounds, lines)
  {
    assert forall k :: 0 <= k < |chunks| ==> (chunks + [current])[k] == chunks[k];
  }

  /** The chunks so far, with the one being built (if any) as the last. */
  ghost function Open(groups: seq<seq<string>>, group: seq<string>): seq<seq<string>>
  {
    if group == [] then groups else groups + [group]
  }

  /** Every finished chunk was closed by a line of `done` that did not fit. */
  ghost predicate Closed(chunks: seq<string>, bounds: seq<Range>, done: seq<string>)
  {
    |chunks| <= |bounds|
    && forall k :: 0 <= k < |chunks| ==>
         bounds[k].1 < |done| && Overflows(chunks[k], done[bounds[k].1])
  }

  /** `line` does not fit after `chunk`: the test that closes a chunk. */
  predicate Overflows(chunk: string, line: string)
  {
    ByteLen(chunk) + ByteLen(line) + 1 > ChunkLimit
  }

  /**
   * The loop's state after the lines `done`: finished chunks, and the chunk
   * being built (empty, or a chunk of `group` ending at the last line);
   * together they are runs of `done` and keep every line but some empty ones.
   */
  ghost predicate Packing(chunks: seq<string>, groups: seq<seq<string>>, bounds: seq<Range>,
                          current: string, group: seq<string>, done: seq<string>)
  {
    ChunksOf(chunks, groups)
    && (current == [] ==> group == [] && |bounds| == |groups|)
    && (current != [] ==> ChunkOf(current, group) && |bounds| == |groups| + 1 && bounds[|groups|].1 == |done|)
    && Runs(done, Open(groups, group), bounds)
    && Closed(chunks, bounds, done)
    && DropsOnlyEmpty(done, Flatten(groups) + group)
  }

  /** One round of the packing loop: close the chunk if the line does not fit, then add the line. */
  method PackLine(chunks: seq<string>, ghost groups: seq<seq<string>>, ghost bounds: seq<Range>,
                  current: string, ghost group: seq<string>, line: string, ghost done: seq<string>)
    returns (chunks': seq<string>, ghost groups': seq<seq<string>>, ghost bounds': seq<Range>,
             current': string, ghost group': seq<string>)
    requires Packing(chunks, groups, bounds, current, group, done)
    ensures Packing(chunks', groups', bounds', current', group', done + [line])
  {
    if current != [] && !Overflows(current, line) {
      chunks', groups', current', group' := chunks, groups, current + "\n" + line, group + [line];
      bounds' := PackGrow(chunks, groups, bounds, current, group, done, line);
    } else {
      if current != [] {
        PackClose(chunks, groups, bounds, current, group, done, line);
        chunks', groups' := chunks + [current], groups + [group];
      } else {
        PackIdle(chunks, groups, bounds, group, done, line);
        chunks', groups' := chunks, groups;
      }
      if line != [] {
        current', group' := line, [line];
        bounds' := PackStart(chunks', groups', bounds, done, line);
      } else {
        current', group', bounds' := "", [], bounds;
        PackDrop(chunks', groups', bounds, done);
      }
    }
  }

  /** The loop's state with no chunk being built, before the line `line` is added. */
  ghost predicate Settled(chunks: seq<string>, groups: seq<seq<string>>, bounds: seq<Range>, done: seq<string>, line: string)
  {
    ChunksOf(chunks, groups) && |bounds| == |groups| && Runs(done, groups, bounds)
    && Closed(chunks, bounds, done + [line]) && DropsOnlyEmpty(done, Flatten(groups))
  }

  /** Closing the chunk being built because `line` does not fit after it. */
  lemma PackClose(chunks: seq<string>, groups: seq<seq<string>>, bounds: seq<Range>,
                  current: string, group: seq<string>, done: seq<string>, line: string)
    requires Packing(chunks, groups, bounds, current, group, done)
    requires current != [] && Overflows(current, line)
    ensures Settled(chunks + [current], groups + [group], bounds, done, line)
  {
    ChunksOfSnoc(chunks, groups, current, group);
    ClosedClose(chunks, bounds, done, current, line);
  }

  /** With no chunk being built, the loop's state is settled. */
  lemma PackIdle(chunks: seq<string>, groups: seq<seq<string>>, bounds: seq<Range>, group: seq<string>,
                 done: seq<string>, line: string)
    requires Packing(chunks, groups, bounds, "", group, done)
    ensures Settled(chunks, groups, bounds, done, line)
  {
    assert Open(groups, group) == groups;
    assert Flatten(groups) + group == Flatten(groups);
    ClosedExtend(chunks, bounds, done, line);
  }

  /** A line that fits is appended to the chunk being built. */
  lemma PackGrow(chunks: seq<string>, groups: seq<seq<string>>, bounds: seq<Range>,
                 current: string, group: seq<string>, done: seq<string>, line: string)
    returns (b: seq<Range>)
    requires Packing(chunks, groups, bounds, current, group, done)
    requires current != [] && !Overflows(current, line)
    ensures b == bounds[..|bounds| - 1] + [(bounds[|bounds| - 1].0, |done| + 1)]
    ensures Packing(chunks, groups, b, current + "\n" + line, group + [line], done + [line])
  {
    b := bounds[..|bounds| - 1] + [(bounds[|bounds| - 1].0, |done| + 1)];
    OpenSome(groups, group);
    ClosedExtend(chunks, bounds, done, line);
    ChunkGrow(current, group, line);
    RunsGrow(done, groups, group, bounds, line);
    OpenSome(groups, group + [line]);
    ClosedReplaceLast(chunks, bounds, done + [line], |done| + 1);
    DropsGrow(done, Flatten(groups), group, line);
  }

  lemma ChunkGrow(current: string, group: seq<string>, line: string)
    requires ChunkOf(current, group) && !Overflows(current, line)
    ensures ChunkOf(current + "\n" + line, group + [line])
  {
    JoinLine(current, group, line);
  }

  lemma DropsGrow(done: seq<string>, kept: seq<string>, group: seq<string>, line: string)
    requires DropsOnlyEmpty(done, kept + group)
    ensures DropsOnlyEmpty(done + [line], kept + (group + [line]))
  {
    DropsOnlyEmptySnoc(done, kept + group, line);
    assert kept + (group + [line]) == kept + group + [line];
  }

  /** A non-empty line met with no chunk being built starts a chunk. */
  lemma PackStart(chunks: seq<string>, groups: seq<seq<string>>, bounds: seq<Range>, done: seq<string>, line: string)
    returns (b: seq<Range>)
    requires Settled(chunks, groups, bounds, done, line) && line != []
    ensures b == bounds + [(|done|, |done| + 1)]
    ensures Packing(chunks, groups, b, line, [line], done + [line])
  {
    b := bounds + [(|done|, |done| + 1)];
    assert Join([line], "\n") == line;
    RunsStart(done, groups, bounds, line);
    OpenSome(groups, [line]);
    ClosedAppend(chunks, bounds, done + [line], (|done|, |done| + 1));
    DropsOnlyEmptySnoc(done, Flatten(groups), line);
  }

  /** An empty line met with no chunk being built adds nothing. */
  lemma PackDrop(chunks: seq<string>, groups: seq<seq<string>>, bounds: seq<Range>, done: seq<string>)
    requires Settled(chunks, groups, bounds, done, [])
    ensures Packing(chunks, groups, bounds, "", [], done + [[]])
  {
    RunsDrop(done, groups, bounds);
    DropsOnlyEmptySnoc(done, Flatten(groups), []);
    assert Open(groups, []) == groups;
    assert Flatten(groups) + [] == Flatten(groups);
  }

  /** A closed chunk: its run ends at the line that did not fit. */
  lemma ClosedClose(chunks: seq<string>, bounds: seq<Range>, done: seq<string>, current: string, line: string)
    requires Closed(chunks, bounds, done) && |chunks| < |bounds| && bounds[|chunks|].1 == |done|
    requires Overflows(current, line)
    ensures Closed(chunks + [current], bounds, done + [line])
  {
    var d := done + [line];
    forall k | 0 <= k < |chunks| + 1
      ensures bounds[k].1 < |d| && Overflows((chunks + [current])[k], d[bounds[k].1])
    {
      if k < |chunks| {
        assert (chunks + [current])[k] == chunks[k];
        assert d[bounds[k].1] == done[bounds[k].1];
      }
    }
  }

  lemma ClosedExtend(chunks: seq<string>, bounds: seq<Range>, done: seq<string>, line: string)
    requires Closed(chunks, bounds, done)
    ensures Closed(chunks, bounds, done + [line])
  {
    forall k | 0 <= k < |chunks|
      ensures (done + [line])[bounds[k].1] == done[bounds[k].1]
    {
    }
  }

  /** Changing the run of the unfinished chunk keeps the finished ones closed. */
  lemma ClosedReplaceLast(chunks: seq<string>, bounds: seq<Range>, done: seq<string>, end: nat)
    requires Closed(chunks, bounds, done) && |chunks| < |bounds|
    ensures Closed(chunks, bounds[..|bounds| - 1] + [(bounds[|bounds| - 1].0, end)], done)
  {
    var b := bounds[..|bounds| - 1] + [(bounds[|bounds| - 1].0, end)];
    forall k | 0 <= k < |chunks| ensures b[k] == bounds[k] {
    }
  }

  /** Opening a run after the last one keeps the finished chunks closed. */
  lemma ClosedAppend(chunks: seq<string>, bounds: seq<Range>, done: seq<string>, r: Range)
    requires Closed(chunks, bounds, done)
    ensures Closed(chunks, bounds + [r], done)
  {
    forall k | 0 <= k < |chunks| ensures (bounds + [r])[k] == bounds[k] {
    }
  }

  lemma OpenSome(groups: seq<seq<string>>, group: seq<string>)
    requires group != []
    ensures Open(groups, group) == groups + [group]
  {
  }

  /** A line outside every run extends `lines` without touching the runs. */
  lemma RunsDrop(done: seq<string>, groups: seq<seq<string>>, bounds: seq<Range>)
    requires Runs(done, groups, bounds)
    ensures Runs(done + [[]], groups, bounds)
  {
    var d := done + [[]];
    forall k | 0 <= k < |bounds|
      ensures groups[k] == d[bounds[k].0..bounds[k].1]
    {
      assert d[bounds[k].0..bounds[k].1] == done[bounds[k].0..bounds[k].1];
    }
    forall i | 0 <= i < |d| && d[i] != [] ensures Covered(bounds, i) {
      assert d[i] == done[i];
    }
  }

  /** A line that opens a new run of its own. */
  lemma RunsStart(done: seq<string>, groups: seq<seq<string>>, bounds: seq<Range>, line: string)
    requires Runs(done, groups, bounds)
    ensures Runs(done + [line], groups + [[line]], bounds + [(|done|, |done| + 1)])
  {
    SlicesStart(done, groups, bounds, line);
    InOrderStart(done, bounds);
    CoversStart(done, bounds, line);
  }

  lemma SlicesStart(done: seq<string>, groups: seq<seq<string>>, bounds: seq<Range>, line: string)
    requires Slices(done, groups, bounds) && InOrder(bounds)
    ensures Slices(done + [line], groups + [[line]], bounds + [(|done|, |done| + 1)])
  {
    var d := done + [line];
    var b := bounds + [(|done|, |done| + 1)];
    var g := groups + [[line]];
    forall k | 0 <= k < |b|
      ensures b[k].0 < b[k].1 <= |d| && g[k] == d[b[k].0..b[k].1]
    {
      if k < |bounds| {
        assert b[k] == bounds[k] && g[k] == groups[k];
        assert d[bounds[k].0..bounds[k].1] == done[bounds[k].0..bounds[k].1];
      } else {
        assert d[|done|..|done| + 1] == [line];
      }
    }
  }

  lemma InOrderStart(done: seq<string>, bounds: seq<Range>)
    requires InOrder(bounds) && forall k :: 0 <= k < |bounds| ==> bounds[k].1 <= |done|
    ensures InOrder(bounds + [(|done|, |done| + 1)])
  {
    var b := bounds + [(|done|, |done| + 1)];
    forall j, k | 0 <= j < k < |b| ensures b[j].1 <= b[k].0 {
      assert b[j] == bounds[j];
      if k < |bounds| {
        assert b[k] == bounds[k];
      }
    }
  }

  lemma CoversStart(done: seq<string>, bounds: seq<Range>, line: string)
    requires CoversNonEmpty(done, bounds)
    ensures CoversNonEmpty(done + [line], bounds + [(|done|, |done| + 1)])
  {
    var d := done + [line];
    var b := bounds + [(|done|, |done| + 1)];
    assert b[..|bounds|] == bounds;
    forall i | 0 <= i < |d| && d[i] != [] ensures Covered(b, i) {
      if i < |done| {
        assert d[i] == done[i];
      }
    }
  }

  /** A line that extends the run ending at the last line. */
  lemma RunsGrow(done: seq<string>, groups: seq<seq<string>>, group: seq<string>, bounds: seq<Range>, line: string)
    requires Runs(done, groups + [group], bounds)
    requires bounds[|bounds| - 1].1 == |done|
    ensures Runs(done + [line], groups + [group + [line]], bounds[..|bounds| - 1] + [(bounds[|bounds| - 1].0, |done| + 1)])
  {
    SlicesGrow(done, groups, group, bounds, line);
    InOrderGrow(done, bounds);
    CoversGrow(done, bounds, line);
  }

  lemma SlicesGrow(done: seq<string>, groups: seq<seq<string>>, group: seq<string>, bounds: seq<Range>, line: string)
    requires Slices(done, groups + [group], bounds)
    requires bounds[|bounds| - 1].1 == |done|
    ensures Slices(done + [line], groups + [group + [line]], bounds[..|bounds| - 1] + [(bounds[|bounds| - 1].0, |done| + 1)])
  {
    var d := done + [line];
    var n := |bounds| - 1;
    var b := bounds[..n] + [(bounds[n].0, |done| + 1)];
    var g := groups + [group + [line]];
    forall k | 0 <= k < |b|
      ensures b[k].0 < b[k].1 <= |d| && g[k] == d[b[k].0..b[k].1]
    {
      if k < n {
        assert b[k] == bounds[k] && g[k] == groups[k] == (groups + [group])[k];
        assert d[bounds[k].0..bounds[k].1] == done[bounds[k].0..bounds[k].1];
      } else {
        assert (groups + [group])[n] == group;
        assert d[bounds[n].0..|done| + 1] == done[bounds[n].0..|done|] + [line];
      }
    }
  }

  lemma InOrderGrow(done: seq<string>, bounds: seq<Range>)
    requires InOrder(bounds) && bounds != [] && bounds[|bounds| - 1].1 == |done|
    ensures InOrder(bounds[..|bounds| - 1] + [(bounds[|bounds| - 1].0, |done| + 1)])
  {
    var n := |bounds| - 1;
    var b := bounds[..n] + [(bounds[n].0, |done| + 1)];
    forall j, k | 0 <= j < k < |b| ensures b[j].1 <= b[k].0 {
      assert b[j] == bounds[j] && b[k].0 == bounds[k].0;
    }
  }

  lemma CoversGrow(done: seq<string>, bounds: seq<Range>, line: string)
    requires CoversNonEmpty(done, bounds) && bounds != [] && bounds[|bounds| - 1].0 < bounds[|bounds| - 1].1 == |done|
    ensures CoversNonEmpty(done + [line], bounds[..|bounds| - 1] + [(bounds[|bounds| - 1].0, |done| + 1)])
  {
    var d := done + [line];
    var n := |bounds| - 1;
    var b := bounds[..n] + [(bounds[n].0, |done| + 1)];
    assert b[..n] == bounds[..n];
    forall i | 0 <= i < |d| && d[i] != [] ensures Covered(b, i) {
      if i < |done| {
        assert d[i] == done[i];
        assert Covered(bounds, i);
      }
    }
  }

  /** Every line of a chunk is one of the packed lines. */
  lemma FlattenHolds(groups: seq<seq<string>>, k: nat, j: nat)
    requires k < |groups| && j < |groups[k]|
    ensures groups[k][j] in Flatten(groups)
  {
    if k < |groups| - 1 {
      assert groups[..|groups| - 1][k] == groups[k];
      FlattenHolds(groups[..|groups| - 1], k, j);
    }
  }

  /** Packing keeps every line, and a chunk over 4000 bytes is one of the lines. */
  lemma DropsOnlyEmptyMembers(ls: seq<string>, kept: seq<string>, x: string)
    requires DropsOnlyEmpty(ls, kept) && x in kept
    ensures x in ls
    decreases |ls|
  {
    if ls != [] {
      var last := ls[|ls| - 1];
      if last == [] && DropsOnlyEmpty(ls[..|ls| - 1], kept) {
        DropsOnlyEmptyMembers(ls[..|ls| - 1], kept, x);
      } else if x != last {
        assert x in kept[..|kept| - 1];
        DropsOnlyEmptyMembers(ls[..|ls| - 1], kept[..|kept| - 1], x);
      }
    }
  }

  /**
   * The messages a report is sent as: the report itself up to 4096 bytes,
   * otherwise the packed chunks of its lines (the report itself when no
   * chunk comes out). The keyboard goes with the last one.
   */
  method SplitReport(formatted: string) returns (messages: seq<string>, ghost groups: seq<seq<string>>, ghost bounds: seq<Range>)
    ensures messages != []
    ensures ByteLen(formatted) <= MessageLimit ==> messages == [formatted]
    ensures ByteLen(formatted) > MessageLimit && NonEmptyLines(Lines(formatted)) == [] ==> messages == [formatted]
    ensures ByteLen(formatted) > MessageLimit && NonEmptyLines(Lines(formatted)) != [] ==>
      forall k :: 0 <= k < |messages| ==> messages[k] != [] && (ByteLen(messages[k]) <= ChunkLimit || '\n' !in messages[k])
    ensures ByteLen(formatted) > MessageLimit && NonEmptyLines(Lines(formatted)) != [] ==>
      GreedyPacking(Lines(formatted), messages, groups, bounds) && DropsOnlyEmpty(Lines(formatted), Flatten(groups))
  {
    groups, bounds := [], [];
    if ByteLen(formatted) > MessageLimit {
      var lines := Lines(formatted);
      var chunks;
      chunks, groups, bounds := PackLines(lines);
      DropsOnlyEmptyKeepsText(lines, Flatten(groups));
      if chunks == [] {
        messages := [formatted];
        assert Flatten(groups) == [];
      } else {
        assert ChunkOf(chunks[0], groups[0]);
        FlattenHolds(groups, 0, 0);
        DropsOnlyEmptyMembers(lines, Flatten(groups), groups[0][0]);
        NonEmptyLinesHas(lines, groups[0][0]);
        messages := chunks;
        forall k | 0 <= k < |messages|
          ensures messages[k] != [] && (ByteLen(messages[k]) <= ChunkLimit || '\n' !in messages[k])
        {
          assert ChunkOf(chunks[k], groups[k]);
          if ByteLen(messages[k]) > ChunkLimit {
            assert messages[k] == groups[k][0];
            FlattenHolds(groups, k, 0);
            DropsOnlyEmptyMembers(lines, Flatten(groups), groups[k][0]);
          }
        }
      }
    } else {
      messages := [formatted];
    }
  }

  /**
   * What a successful query sends: a narrative answer alone, as it came and
   * without a keyboard; otherwise the report, split when it is long, with
   * the chosen keyboard on the last message.
   */
  method ReplyMessages(r: QueryResponse)
    returns (messages: seq<string>, keyboard: Option<seq<string>>, ghost groups: seq<seq<string>>, ghost bounds: seq<Range>)
    ensures messages != []
    ensures r.textResponse.Some? ==> messages == [r.textResponse.value] && keyboard.None?
    ensures r.textResponse.None? ==> keyboard == KeyboardQuestions(r)
    ensures r.textResponse.None? && ByteLen(Render(r)) <= MessageLimit ==> messages == [Render(r)]
    ensures r.textResponse.None? && ByteLen(Render(r)) > MessageLimit && NonEmptyLines(Lines(Render(r))) == [] ==>
      messages == [Render(r)]
    ensures r.textResponse.None? && ByteLen(Render(r)) > MessageLimit && NonEmptyLines(Lines(Render(r))) != [] ==>
      forall k :: 0 <= k < |messages| ==> messages[k] != [] && (ByteLen(messages[k]) <= ChunkLimit || '\n' !in messages[k])
    ensures r.textResponse.None? && ByteLen(Render(r)) > MessageLimit && NonEmptyLines(Lines(Render(r))) != [] ==>
      GreedyPacking(Lines(Render(r)), messages, groups, bounds) && DropsOnlyEmpty(Lines(Render(r)), Flatten(groups))
  {
    if r.textResponse.Some? {
      messages := [r.textResponse.value];
      keyboard := None;
      groups, bounds := [], [];
      return;
    }
    var formatted := FormatQueryResponse(r);
    keyboard := KeyboardQuestions(r);
    messages, groups, bounds := SplitReport(formatted);
  }
}
