/**
 * The pieces of Rust's `str` API that the bot relies on, over strings as
 * sequences of Unicode scalar values. Byte-level questions live in Utf8.
 */
module Text {
  import opened Wrappers
  import opened Utf8

  /** `p` occurs in `s` starting at index `i` (characters or bytes). */
  predicate MatchAt<T(==)>(s: seq<T>, p: seq<T>, i: nat)
  {
    i + |p| <= |s| && s[i..i + |p|] == p
  }

  lemma MatchAfter<T>(x: seq<T>, y: seq<T>)
    ensures MatchAt(x + y, y, |x|)
  {
    assert (x + y)[|x|..|x| + |y|] == y;
  }

  lemma SliceAppend<T>(p: seq<T>, tail: seq<T>, i: nat, j: nat)
    requires i <= j <= |p|
    ensures (p + tail)[..i] == p[..i] && (p + tail)[j..] == p[j..] + tail
  {
  }

  /** `str::ends_with`. */
  predicate EndsWith(s: string, suffix: string)
  {
    |suffix| <= |s| && s[|s| - |suffix|..] == suffix
  }

  /** Whether a text ends with a piece is decided by its last part, if that part is long enough. */
  lemma EndsWithAppend(pre: string, t: string, x: string)
    requires |x| <= |t|
    ensures EndsWith(pre + t, x) <==> EndsWith(t, x)
  {
    assert (pre + t)[|pre + t| - |x|..] == t[|t| - |x|..];
  }

  /** `str::contains`. */
  predicate Contains<T(==)>(s: seq<T>, p: seq<T>)
    ensures Contains(s, p) <==> exists i: nat :: MatchAt(s, p, i)
  {
    if p <= s then
      assert MatchAt(s, p, 0);
      true
    else if s == [] then
      assert forall i: nat :: !MatchAt(s, p, i);
      false
    else
      var r := Contains(s[1..], p);
      assert forall i: nat :: MatchAt(s[1..], p, i) <==> MatchAt(s, p, i + 1) by {
        forall i: nat ensures MatchAt(s[1..], p, i) <==> MatchAt(s, p, i + 1) {
          if i + |p| <= |s[1..]| { assert s[1..][i..i + |p|] == s[i + 1..i + 1 + |p|]; }
        }
      }
      assert !MatchAt(s, p, 0);
      assert (exists i: nat :: MatchAt(s, p, i)) ==> exists i: nat :: MatchAt(s[1..], p, i) by {
        if exists i: nat :: MatchAt(s, p, i) {
          var i: nat :| MatchAt(s, p, i);
          assert i > 0 && MatchAt(s[1..], p, i - 1);
        }
      }
      r
  }

  /** `s[from..].find(p)` shifted back by `from`: the first occurrence at or after `from`. */
  function IndexFrom<T(==)>(s: seq<T>, p: seq<T>, from: nat): (r: Option<nat>)
    ensures r.Some? ==> from <= r.value && r.value + |p| <= |s|
    decreases |s| - from
  {
    if from + |p| > |s| then None
    else if MatchAt(s, p, from) then Some(from)
    else IndexFrom(s, p, from + 1)
  }

  /** `IndexFrom` finds the first occurrence at or after `from`, and `None` means there is none. */
  lemma {:induction false} IndexFromFirst<T>(s: seq<T>, p: seq<T>, from: nat)
    ensures var r := IndexFrom(s, p, from);
      (r.Some? ==> MatchAt(s, p, r.value))
      && (r.Some? ==> forall j :: from <= j < r.value ==> !MatchAt(s, p, j))
      && (r.None? ==> forall j :: from <= j ==> !MatchAt(s, p, j))
    decreases |s| - from
  {
    if from + |p| <= |s| && !MatchAt(s, p, from) {
      IndexFromFirst(s, p, from + 1);
    }
  }

  lemma IndexFromMatches<T>(s: seq<T>, p: seq<T>, from: nat, i: nat)
    requires IndexFrom(s, p, from) == Some(i)
    ensures MatchAt(s, p, i)
  {
    IndexFromFirst(s, p, from);
  }

  /** `str::replace(pat, rep)`: left-to-right, non-overlapping. */
  function ReplaceAll(s: string, pat: string, rep: string): string
    requires pat != []
    decreases |s|
  {
    if |s| < |pat| then s
    else if pat <= s then rep + ReplaceAll(s[|pat|..], pat, rep)
    else [s[0]] + ReplaceAll(s[1..], pat, rep)
  }

  /** A text that does not contain the pattern is left as it is by `replace`. */
  lemma {:induction false} ReplaceAbsent(s: string, pat: string, rep: string)
    requires pat != [] && !Contains(s, pat)
    ensures ReplaceAll(s, pat, rep) == s
  {
    if |s| >= |pat| {
      assert !MatchAt(s, pat, 0);
      assert !Contains(s[1..], pat);
      ReplaceAbsent(s[1..], pat, rep);
    }
  }

  /** `char::is_whitespace`: the Unicode White_Space property. */
  predicate IsWhitespace(c: char)
  {
    || ('\t' <= c <= '\r') || c == ' ' || c == '\U{0085}' || c == '\U{00A0}'
    || c == '\U{1680}' || ('\U{2000}' <= c <= '\U{200A}') || c == '\U{2028}'
    || c == '\U{2029}' || c == '\U{202F}' || c == '\U{205F}' || c == '\U{3000}'
  }

  predicate NoWhitespace(s: string)
  {
    forall i :: 0 <= i < |s| ==> !IsWhitespace(s[i])
  }

  /** Length of the run of non-whitespace characters at the front of `s`. */
  function WordLen(s: string): (n: nat)
    ensures n <= |s|
    ensures forall i :: 0 <= i < n ==> !IsWhitespace(s[i])
    ensures n < |s| ==> IsWhitespace(s[n])
  {
    if s == [] || IsWhitespace(s[0]) then 0 else 1 + WordLen(s[1..])
  }

  /** `str::split_whitespace`: the maximal runs of non-whitespace characters, in order. */
  function Words(s: string): (ws: seq<string>)
    ensures forall i :: 0 <= i < |ws| ==> ws[i] != [] && NoWhitespace(ws[i])
    decreases |s|
  {
    if s == [] then []
    else if IsWhitespace(s[0]) then Words(s[1..])
    else
      var n := WordLen(s);
      [s[..n]] + Words(s[n..])
  }

  lemma {:induction false} WordLenOfWord(w: string, rest: string)
    requires NoWhitespace(w) && (rest == [] || IsWhitespace(rest[0]))
    ensures WordLen(w + rest) == |w|
    decreases |w|
  {
    if w != [] {
      assert (w + rest)[1..] == w[1..] + rest;
      WordLenOfWord(w[1..], rest);
    }
  }

  /** A word followed by whitespace or nothing is the first word. */
  lemma FirstWordOf(w: string, rest: string)
    requires w != [] && NoWhitespace(w) && (rest == [] || IsWhitespace(rest[0]))
    ensures Words(w + rest) != [] && Words(w + rest)[0] == w
  {
    WordLenOfWord(w, rest);
    assert (w + rest)[..|w|] == w;
  }

  /** Leading whitespace does not change the words. */
  lemma WordsSkipSpace(c: char, s: string)
    requires IsWhitespace(c)
    ensures Words([c] + s) == Words(s)
  {
    assert ([c] + s)[1..] == s;
  }

  /** A prefix of a suffix is a slice. */
  lemma PrefixOfSuffix(s: string, k: nat, r: string)
    requires k <= |s| && r <= s[k..]
    ensures k + |r| <= |s| && r == s[k..k + |r|]
  {
  }

  /** A word followed by whitespace or nothing is split off as it is. */
  lemma WordsCons(w: string, rest: string)
    requires w != [] && NoWhitespace(w) && (rest == [] || IsWhitespace(rest[0]))
    ensures Words(w + rest) == [w] + Words(rest)
  {
    WordLenOfWord(w, rest);
    assert (w + rest)[..|w|] == w && (w + rest)[|w|..] == rest;
  }

  /** `slice.join(sep)`. */
  function Join(ws: seq<string>, sep: string): string
  {
    if ws == [] then []
    else if |ws| == 1 then ws[0]
    else ws[0] + sep + Join(ws[1..], sep)
  }

  /** Appending one more part adds the separator and the part. */
  lemma {:induction false} JoinSnoc(ws: seq<string>, x: string, sep: string)
    requires ws != []
    ensures Join(ws + [x], sep) == Join(ws, sep) + sep + x
    decreases |ws|
  {
    var all := ws + [x];
    assert all[0] == ws[0] && all[1..] == ws[1..] + [x];
    if |ws| > 1 {
      JoinSnoc(ws[1..], x, sep);
    }
  }

  /** Whitespace occurs only as single ' ' characters, each followed by a non-whitespace one. */
  predicate SingleSpaced(t: string)
  {
    forall i :: 0 <= i < |t| && IsWhitespace(t[i]) ==> t[i] == ' ' && (i + 1 < |t| ==> !IsWhitespace(t[i + 1]))
  }

  lemma SingleSpacedSlice(t: string, a: nat, b: nat)
    requires SingleSpaced(t) && a <= b <= |t|
    ensures SingleSpaced(t[a..b])
  {
    var u := t[a..b];
    forall i | 0 <= i < |u| && IsWhitespace(u[i]) ensures u[i] == ' ' && (i + 1 < |u| ==> !IsWhitespace(u[i + 1])) {
      assert u[i] == t[a + i];
      if i + 1 < |u| { assert u[i + 1] == t[a + i + 1]; }
    }
  }

  /** Words joined by one space: every gap is exactly one ' '. */
  lemma {:induction false} JoinSingleSpaced(ws: seq<string>)
    requires forall k :: 0 <= k < |ws| ==> ws[k] != [] && NoWhitespace(ws[k])
    ensures SingleSpaced(Join(ws, " "))
    ensures ws != [] ==> Join(ws, " ") != [] && Join(ws, " ")[0] == ws[0][0]
    decreases |ws|
  {
    if |ws| > 1 {
      var rest := Join(ws[1..], " ");
      JoinSingleSpaced(ws[1..]);
      var t := Join(ws, " ");
      var w := ws[0];
      assert t == w + " " + rest;
      assert rest[0] == ws[1][0];
      forall i | 0 <= i < |t| && IsWhitespace(t[i]) ensures t[i] == ' ' && (i + 1 < |t| ==> !IsWhitespace(t[i + 1])) {
        if i < |w| {
          assert false;
        } else if i == |w| {
          assert t[i + 1] == rest[0];
        } else {
          assert t[i] == rest[i - |w| - 1];
          if i + 1 < |t| { assert t[i + 1] == rest[i - |w|]; }
        }
      }
    } else if |ws| == 1 {
      assert Join(ws, " ") == ws[0];
    }
  }

  function TrimStart(s: string): (r: string)
    ensures r == [] || !IsWhitespace(r[0])
    ensures exists k :: 0 <= k <= |s| && r == s[k..]
  {
    if s != [] && IsWhitespace(s[0]) then
      var r := TrimStart(s[1..]);
      var k :| 0 <= k <= |s[1..]| && r == s[1..][k..];
      assert r == s[k + 1..];
      r
    else
      assert s == s[0..];
      s
  }

  function TrimEnd(s: string): (r: string)
    ensures r == [] || !IsWhitespace(r[|r| - 1])
    ensures r <= s
  {
    if s != [] && IsWhitespace(s[|s| - 1]) then TrimEnd(s[..|s| - 1]) else s
  }

  /** One step of the leading trim: whitespace in front goes. */
  lemma TrimStartStep(s: string, rest: string)
    requires s != [] && IsWhitespace(s[0]) && rest == s[1..]
    ensures TrimStart(s) == TrimStart(rest)
  {
  }

  /** Text with no whitespace at either end is left alone by both one-sided trims. */
  lemma TrimSidesStop(s: string)
    requires s != [] && !IsWhitespace(s[0]) && !IsWhitespace(s[|s| - 1])
    ensures TrimStart(s) == s && TrimEnd(s) == s
  {
  }

  /** `str::trim`. */
  function Trim(s: string): (r: string)
    ensures r == [] || (!IsWhitespace(r[0]) && !IsWhitespace(r[|r| - 1]))
    ensures exists a, b :: 0 <= a <= b <= |s| && r == s[a..b]
  {
    var t := TrimStart(s);
    var k :| 0 <= k <= |s| && t == s[k..];
    var r := TrimEnd(t);
    assert r == s[k..k + |r|];
    r
  }

  /** A text with no whitespace at either end is its own trim. */
  lemma TrimUntouched(s: string)
    requires s == [] || (!IsWhitespace(s[0]) && !IsWhitespace(s[|s| - 1]))
    ensures Trim(s) == s
  {
  }

  /** Trimming is idempotent. */
  lemma TrimTwice(s: string)
    ensures Trim(Trim(s)) == Trim(s)
  {
    TrimUntouched(Trim(s));
  }

  lemma SliceOfSlice<T>(s: seq<T>, i: nat, j: nat, a: nat, b: nat)
    requires i <= j <= |s| && a <= b <= j - i
    ensures s[i..j][a..b] == s[i + a..i + b]
    ensures i == 0 ==> s[..j][a..b] == s[a..b]
    ensures j == |s| ==> s[i..][a..b] == s[i + a..i + b]
  {
    forall k | 0 <= k < b - a ensures s[i..j][a..b][k] == s[i + a..i + b][k] {
      assert s[i..j][a..b][k] == s[i..j][a + k] == s[i + a + k];
    }
    assert s[i..j][a..b] == s[i + a..i + b];
    if i == 0 { assert s[..j] == s[0..j]; }
    if j == |s| { assert s[i..] == s[i..j]; }
  }

  /** Every character of `t` is `c`. */
  predicate AllAre(t: string, c: char)
  {
    forall k :: 0 <= k < |t| ==> t[k] == c
  }

  /**
   * `str::trim_matches(c)` for a single character: the text with the runs
   * of `c` at both ends cut off.
   */
  function TrimMatches(s: string, c: char): (r: string)
    ensures r == [] || (r[0] != c && r[|r| - 1] != c)
    decreases |s|
  {
    if s == [] then []
    else if s[0] == c then TrimMatches(s[1..], c)
    else if s[|s| - 1] == c then TrimMatches(s[..|s| - 1], c)
    else s
  }

  /** `trim_matches` cuts only the runs of `c` at both ends: it leaves a slice with nothing but `c` outside it. */
  lemma {:induction false} TrimMatchesSlice(s: string, c: char) returns (a: nat, b: nat)
    ensures a <= b <= |s| && TrimMatches(s, c) == s[a..b]
    ensures AllAre(s[..a], c) && AllAre(s[b..], c)
    decreases |s|
  {
    if s == [] {
      a, b := 0, 0;
    } else if s[0] == c {
      var a', b' := TrimMatchesSlice(s[1..], c);
      SliceOfSlice(s, 1, |s|, a', b');
      CutFront(s, c, a', b');
      a, b := a' + 1, b' + 1;
    } else if s[|s| - 1] == c {
      var a', b' := TrimMatchesSlice(s[..|s| - 1], c);
      SliceOfSlice(s, 0, |s| - 1, a', b');
      CutBack(s, c, a', b');
      a, b := a', b';
    } else {
      a, b := 0, |s|;
      assert s == s[0..|s|] && s[..0] == [] && s[|s|..] == [];
    }
  }

  lemma CutFront(s: string, c: char, a: nat, b: nat)
    requires s != [] && s[0] == c && a <= b <= |s| - 1
    requires AllAre(s[1..][..a], c) && AllAre(s[1..][b..], c)
    ensures AllAre(s[..a + 1], c) && AllAre(s[b + 1..], c)
  {
    var front := s[..a + 1];
    forall k | 0 <= k < |front| ensures front[k] == c {
      if k > 0 { assert front[k] == s[1..][..a][k - 1]; }
    }
    assert s[b + 1..] == s[1..][b..];
  }

  lemma CutBack(s: string, c: char, a: nat, b: nat)
    requires s != [] && s[|s| - 1] == c && a <= b <= |s| - 1
    requires AllAre(s[..|s| - 1][..a], c) && AllAre(s[..|s| - 1][b..], c)
    ensures AllAre(s[..a], c) && AllAre(s[b..], c)
  {
    assert s[..a] == s[..|s| - 1][..a];
    forall k | 0 <= k < |s| - b ensures s[b..][k] == c {
      if b + k < |s| - 1 { assert s[b..][k] == s[..|s| - 1][b..][k]; }
    }
  }

  /**
   * Lower case of one character: ASCII letters and the Cyrillic capitals
   * U+0400..U+042F. Every other character is its own lower case here.
   */
  function LowerChar(c: char): (l: char)
    ensures Width(l) == Width(c)
  {
    if 'A' <= c <= 'Z' then (c as int + 0x20) as char
    else if 'А' <= c <= 'Я' then (c as int + 0x20) as char
    else if 'Ѐ' <= c <= 'Џ' then (c as int + 0x50) as char
    else c
  }

  /** `str::to_lowercase`, restricted to the letters LowerChar knows. */
  function ToLower(s: string): (r: string)
    ensures |r| == |s|
    ensures forall i :: 0 <= i < |s| ==> r[i] == LowerChar(s[i])
  {
    seq(|s|, i requires 0 <= i < |s| => LowerChar(s[i]))
  }

  /** Lower-casing keeps every character's byte width, so byte offsets carry over. */
  lemma {:induction false} ToLowerByteLen(s: string)
    ensures ByteLen(ToLower(s)) == ByteLen(s)
  {
    if s != [] {
      assert ToLower(s)[1..] == ToLower(s[1..]);
      ToLowerByteLen(s[1..]);
    }
  }

  function DigitChar(d: nat): char
    requires d < 10
  {
    ['0', '1', '2', '3', '4', '5', '6', '7', '8', '9'][d]
  }

  /** `format!("{}", n)` for an unsigned integer. */
  function NatToString(n: nat): (r: string)
    ensures r != []
    ensures forall i :: 0 <= i < |r| ==> '0' <= r[i] <= '9'
  {
    if n < 10 then [DigitChar(n)] else NatToString(n / 10) + [DigitChar(n % 10)]
  }

  /** Index of the first '\n' in `s`, or |s|. */
  function LineLen(s: string): (n: nat)
    ensures n <= |s|
    ensures forall i :: 0 <= i < n ==> s[i] != '\n'
    ensures n < |s| ==> s[n] == '\n'
  {
    if s == [] || s[0] == '\n' then 0 else 1 + LineLen(s[1..])
  }

  function StripCarriageReturn(l: string): string
  {
    if l != [] && l[|l| - 1] == '\r' then l[..|l| - 1] else l
  }

  /**
   * `str::lines`: split at '\n', dropping one '\r' before each '\n'; a final
   * line ending is optional and a final unterminated line is kept verbatim.
   */
  function Lines(s: string): (ls: seq<string>)
    ensures forall i :: 0 <= i < |ls| ==> '\n' !in ls[i]
    decreases |s|
  {
    if s == [] then []
    else
      var n := LineLen(s);
      if n == |s| then [s]
      else [StripCarriageReturn(s[..n])] + Lines(s[n + 1..])
  }

  /** Lines joined again with '\n' hold one '\n' fewer than there are lines. */
  lemma {:induction false} JoinedLineBreaks(ls: seq<string>)
    requires ls != [] && forall i :: 0 <= i < |ls| ==> '\n' !in ls[i]
    ensures multiset(Join(ls, "\n"))['\n'] == |ls| - 1
    decreases |ls|
  {
    if |ls| > 1 {
      JoinedLineBreaks(ls[1..]);
      assert multiset(ls[0])['\n'] == 0;
      assert Join(ls, "\n") == ls[0] + "\n" + Join(ls[1..], "\n");
    } else {
      assert multiset(ls[0])['\n'] == 0;
    }
  }

  /**
   * The first `n` lines of a text without '\r', joined again with '\n', are
   * the text up to a line break (or the whole text).
   */
  lemma {:induction false} FirstLinesPrefix(s: string, n: nat)
    requires '\r' !in s && n > 0
    ensures Join(Take(Lines(s), n), "\n") <= s
    ensures |Join(Take(Lines(s), n), "\n")| < |s| ==> s[|Join(Take(Lines(s), n), "\n")|] == '\n'
    decreases |s|
  {
    if s != [] {
      var m := LineLen(s);
      if m == |s| {
        assert Lines(s) == [s];
      } else if n == 1 {
        FirstLine(s);
        assert Take(Lines(s), n) == [s[..m]];
      } else {
        var rest := s[m + 1..];
        FirstLine(s);
        FirstLinesPrefix(rest, n - 1);
        FirstLinesCons(s[..m], Lines(rest), n);
        LinePrefixCons(s[..m], rest, Join(Take(Lines(rest), n - 1), "\n"));
      }
    }
  }

  /** The first line of a text without '\r' that holds a '\n'. */
  lemma FirstLine(s: string)
    requires '\r' !in s && LineLen(s) < |s|
    ensures Lines(s) == [s[..LineLen(s)]] + Lines(s[LineLen(s) + 1..])
    ensures '\r' !in s[LineLen(s) + 1..]
    ensures s == s[..LineLen(s)] + "\n" + s[LineLen(s) + 1..]
  {
    var m := LineLen(s);
    assert '\r' !in s[..m] by {
      forall i | 0 <= i < m ensures s[..m][i] != '\r' {
        assert s[..m][i] == s[i];
      }
    }
    assert StripCarriageReturn(s[..m]) == s[..m];
    var rest := s[m + 1..];
    forall i | 0 <= i < |rest| ensures rest[i] != '\r' {
      assert rest[i] == s[m + 1 + i];
    }
    SplitAtBreak(s, m);
  }

  lemma SplitAtBreak(s: string, m: nat)
    requires m < |s| && s[m] == '\n'
    ensures s == s[..m] + "\n" + s[m + 1..]
  {
    assert s == s[..m] + [s[m]] + s[m + 1..];
  }

  lemma FirstLinesCons(line: string, rest: seq<string>, n: nat)
    requires n > 1
    ensures Take([line] + rest, n) == [line] + Take(rest, n - 1)
    ensures Join(Take([line] + rest, n), "\n")
            == if Take(rest, n - 1) == [] then line else line + "\n" + Join(Take(rest, n - 1), "\n")
  {
    var t := [line] + Take(rest, n - 1);
    assert Take([line] + rest, n) == t;
    assert t[0] == line && t[1..] == Take(rest, n - 1);
  }

  lemma LinePrefixCons(line: string, rest: string, j: string)
    requires j <= rest && (|j| < |rest| ==> rest[|j|] == '\n')
    ensures line <= line + "\n" + rest && (|line| < |line + "\n" + rest| ==> (line + "\n" + rest)[|line|] == '\n')
    ensures line + "\n" + j <= line + "\n" + rest
    ensures |line + "\n" + j| < |line + "\n" + rest| ==> (line + "\n" + rest)[|line + "\n" + j|] == '\n'
  {
    var whole := line + "\n" + rest;
    assert whole[|line| + 1..] == rest;
  }

  /** At most `n` lines, so fewer than `n` line breaks. */
  lemma FirstLinesBreaks(s: string, n: nat)
    requires n > 0
    ensures multiset(Join(Take(Lines(s), n), "\n"))['\n'] < n
  {
    var t := Take(Lines(s), n);
    if t != [] {
      forall i | 0 <= i < |t| ensures '\n' !in t[i] {
        assert t[i] == Lines(s)[i];
      }
      JoinedLineBreaks(t);
    }
  }

  /** The parts one after another, as a loop that appends each part in turn builds them. */
  function Concat(parts: seq<string>): string
  {
    if parts == [] then [] else Concat(parts[..|parts| - 1]) + parts[|parts| - 1]
  }

  /** The first `j` parts come first: their concatenation is a prefix of the whole. */
  lemma {:induction false} ConcatPrefix(parts: seq<string>, j: nat)
    requires j <= |parts|
    ensures Concat(parts[..j]) <= Concat(parts)
    decreases |parts|
  {
    if j < |parts| {
      var front := parts[..|parts| - 1];
      ConcatPrefix(front, j);
      assert front[..j] == parts[..j];
    } else {
      assert parts[..j] == parts;
    }
  }

  /** The first `n` elements, as `iter().take(n)`. */
  function Take<T>(xs: seq<T>, n: nat): (r: seq<T>)
    ensures |r| == if n < |xs| then n else |xs|
    ensures r <= xs
  {
    if n < |xs| then xs[..n] else xs
  }
}
