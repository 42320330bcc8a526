/**
 * Rendering of backend answers (src/utils.rs): HTML escaping, the error
 * banner, the textual report, the CSV export, the chart's x-axis labels and
 * the suggestion keyboard with its byte-bounded action tokens.
 */
module Utils {
  import opened Wrappers
  import opened Utf8
  import opened Text
  import opened Api

  // ------------------------------------------------------------ HTML escaping

  /** How one character is written out by `escape_html`. */
  function EscapeChar(c: char): string
  {
    if c == '&' then "&amp;" else if c == '<' then "&lt;" else if c == '>' then "&gt;" else [c]
  }

  /** Reference definition of escaping: every character on its own. */
  function EscapeEach(s: string): (r: string)
    ensures '<' !in r && '>' !in r
  {
    if s == [] then [] else EscapeChar(s[0]) + EscapeEach(s[1..])
  }

  /** `str::replace` of one character, written character by character. */
  function ReplaceEach(s: string, c: char, rep: string): string
  {
    if s == [] then [] else (if s[0] == c then rep else [s[0]]) + ReplaceEach(s[1..], c, rep)
  }

  /** `escape_html`: three `replace` passes, `&` first so that no entity is escaped twice. */
  function EscapeHtml(s: string): (r: string)
    ensures r == EscapeEach(s)
    ensures '<' !in r && '>' !in r
  {
    EscapeHtmlIsPerChar(s);
    ReplaceAll(ReplaceAll(ReplaceAll(s, "&", "&amp;"), "<", "&lt;"), ">", "&gt;")
  }

  lemma {:induction false} ReplaceSingleChar(s: string, c: char, rep: string)
    ensures ReplaceAll(s, [c], rep) == ReplaceEach(s, c, rep)
  {
    if s != [] {
      ReplaceSingleChar(s[1..], c, rep);
      assert [c] <= s <==> s[0] == c;
    }
  }

  lemma {:induction false} ReplaceEachAppend(a: string, b: string, c: char, rep: string)
    ensures ReplaceEach(a + b, c, rep) == ReplaceEach(a, c, rep) + ReplaceEach(b, c, rep)
  {
    if a == [] {
      assert a + b == b;
    } else {
      assert (a + b)[1..] == a[1..] + b;
      ReplaceEachAppend(a[1..], b, c, rep);
    }
  }

  /** The three passes compose to escaping each character independently. */
  lemma {:induction false} EscapeHtmlIsPerChar(s: string)
    ensures ReplaceAll(ReplaceAll(ReplaceAll(s, "&", "&amp;"), "<", "&lt;"), ">", "&gt;") == EscapeEach(s)
  {
    ReplaceSingleChar(s, '&', "&amp;");
    var a := ReplaceEach(s, '&', "&amp;");
    ReplaceSingleChar(a, '<', "&lt;");
    var l := ReplaceEach(a, '<', "&lt;");
    ReplaceSingleChar(l, '>', "&gt;");
    EscapePasses(s);
  }

  lemma {:induction false} EscapePasses(s: string)
    ensures ReplaceEach(ReplaceEach(ReplaceEach(s, '&', "&amp;"), '<', "&lt;"), '>', "&gt;") == EscapeEach(s)
  {
    if s != [] {
      var head := if s[0] == '&' then "&amp;" else [s[0]];
      var a := ReplaceEach(s[1..], '&', "&amp;");
      ReplaceEachAppend(head, a, '<', "&lt;");
      var headL := ReplaceEach(head, '<', "&lt;");
      var l := ReplaceEach(a, '<', "&lt;");
      ReplaceEachAppend(headL, l, '>', "&gt;");
      EscapeCharPasses(s[0]);
      EscapePasses(s[1..]);
    }
  }

  lemma {:induction false} ReplaceEachAbsent(s: string, c: char, rep: string)
    requires c !in s
    ensures ReplaceEach(s, c, rep) == s
  {
    if s != [] {
      assert c !in s[1..];
      ReplaceEachAbsent(s[1..], c, rep);
    }
  }

  lemma EscapeCharPasses(c: char)
    ensures var head := if c == '&' then "&amp;" else [c];
      ReplaceEach(ReplaceEach(head, '<', "&lt;"), '>', "&gt;") == EscapeChar(c)
  {
    if c == '&' {
      ReplaceEachAbsent("&amp;", '<', "&lt;");
      ReplaceEachAbsent("&amp;", '>', "&gt;");
    } else if c == '<' {
      assert ReplaceEach([c], '<', "&lt;") == "&lt;" + ReplaceEach([], '<', "&lt;");
      assert ReplaceEach([c], '<', "&lt;") == "&lt;";
      ReplaceEachAbsent("&lt;", '>', "&gt;");
      assert EscapeChar(c) == "&lt;";
    } else if c == '>' {
      assert ReplaceEach([c], '<', "&lt;") == [c] + ReplaceEach([], '<', "&lt;");
      assert ReplaceEach([c], '>', "&gt;") == "&gt;" + ReplaceEach([], '>', "&gt;");
    } else {
      assert ReplaceEach([c], '<', "&lt;") == [c] + ReplaceEach([], '<', "&lt;");
      assert ReplaceEach([c], '>', "&gt;") == [c] + ReplaceEach([], '>', "&gt;");
    }
  }

  /** Reading an escaped text back: the three entities become their characters. */
  function UnescapeHtml(t: string): string
    decreases |t|
  {
    if t == [] then []
    else if "&amp;" <= t then ['&'] + UnescapeHtml(t[5..])
    else if "&lt;" <= t then ['<'] + UnescapeHtml(t[4..])
    else if "&gt;" <= t then ['>'] + UnescapeHtml(t[4..])
    else [t[0]] + UnescapeHtml(t[1..])
  }

  /** Escaping loses nothing: unescaping gives the original text back. */
  lemma {:induction false} UnescapeEscape(s: string)
    ensures UnescapeHtml(EscapeHtml(s)) == s
  {
    UnescapeEscapeEach(s);
  }

  lemma {:induction false} UnescapeEscapeEach(s: string)
    ensures UnescapeHtml(EscapeEach(s)) == s
  {
    if s != [] {
      var rest := EscapeEach(s[1..]);
      var e := EscapeChar(s[0]);
      assert EscapeEach(s) == e + rest;
      if s[0] == '&' {
        assert (e + rest)[5..] == rest;
      } else if s[0] == '<' {
        assert "&amp;"[1] != (e + rest)[1];
        assert (e + rest)[4..] == rest;
      } else if s[0] == '>' {
        assert "&amp;"[1] != (e + rest)[1] && "&lt;"[1] != (e + rest)[1];
        assert (e + rest)[4..] == rest;
      } else {
        assert (e + rest)[0] == s[0] && (e + rest)[1..] == rest;
      }
      UnescapeEscapeEach(s[1..]);
    }
  }

  // ---------------------------------------------------------------- errors

  const ErrorHeading: string := "❌ <b>Ошибка:</b>\n"

  /** `format_error`: a fixed heading, then the message escaped. */
  function FormatError(message: string): (r: string)
    ensures ErrorHeading <= r
    ensures '<' !in r[|ErrorHeading|..] && '>' !in r[|ErrorHeading|..]
    ensures UnescapeHtml(r[|ErrorHeading|..]) == message
  {
    UnescapeEscape(message);
    var r := ErrorHeading + EscapeHtml(message);
    assert r[|ErrorHeading|..] == EscapeHtml(message);
    r
  }

  // ------------------------------------------------------------ the report

  /** The marker in front of an insight, chosen by its significance. */
  function Glyph(significance: string): string
  {
    if significance == "High" then "🔴" else if significance == "Medium" then "🟡" else "🟢"
  }

  function InsightEntry(i: Insight): string
  {
    Glyph(i.significance) + " <b>" + EscapeHtml(i.title) + "</b>\n" + EscapeHtml(i.description) + "\n\n"
  }

  /** The insight entries, as the loop appends them (the last one last). */
  function InsightsText(insights: seq<Insight>): string
  {
    if insights == [] then []
    else InsightsText(insights[..|insights| - 1]) + InsightEntry(insights[|insights| - 1])
  }

  function SuggestionEntry(number: nat, question: string): string
  {
    NatToString(number) + ". " + EscapeHtml(question) + "\n"
  }

  /** The entries of the numbered suggestion list: question `i` gets the number `i + 1`. */
  function SuggestionEntries(questions: seq<string>): seq<string>
  {
    seq(|questions|, i requires 0 <= i < |questions| => SuggestionEntry(i + 1, questions[i]))
  }

  function SuggestionsText(questions: seq<string>): string
  {
    Concat(SuggestionEntries(questions))
  }

  const HeadlineOpen: string := "📊 <b>"
  const InsightsHeading: string := "💡 <b>Основные выводы:</b>\n"
  const ExplanationHeading: string := "📝 <b>Объяснение:</b>\n"
  const SuggestionsHeading: string := "💭 <b>Рекомендуемые вопросы:</b>\n<i>Нажмите на кнопку ниже, чтобы выполнить запрос</i>\n\n"
  const NoDataNotice: string := "📭 Нет данных для отображения\n"
  const CachedMark: string := " (из кэша)"

  function InsightsSection(insights: seq<Insight>): string
  {
    if insights == [] then [] else InsightsHeading + InsightsText(insights)
  }

  function SuggestionsSection(questions: seq<string>): string
  {
    if questions == [] then [] else SuggestionsHeading + SuggestionsText(questions) + "\n"
  }

  function AnalysisSection(a: AnalysisResult): string
  {
    HeadlineOpen + EscapeHtml(a.headline) + "</b>\n\n"
    + InsightsSection(a.insights)
    + ExplanationHeading + EscapeHtml(a.explanation) + "\n\n"
    + SuggestionsSection(a.suggestedQuestions)
  }

  function TruncationNotice(rowCount: nat): string
    requires rowCount >= 5
  {
    "\n... и еще " + NatToString(rowCount - 5) + " строк(и)\n"
  }

  /** The table as shown: whole up to ten rows, otherwise its first ten lines and a notice. */
  function TableBody(table: string, rowCount: nat): string
  {
    if rowCount <= 10 then table
    else Join(Take(Lines(table), 10), "\n") + TruncationNotice(rowCount)
  }

  function TableHeading(rowCount: nat): string
  {
    "📋 <b>Результаты (" + NatToString(rowCount) + ")</b>:\n\n"
  }

  function CountLine(rowCount: nat): string
  {
    "📊 <b>Найдено результатов:</b> " + NatToString(rowCount) + "\n\n"
  }

  /** What stands between the analysis and the timing line. */
  function DataSection(r: QueryResponse): string
  {
    match r.table
    case Some(t) =>
      if t == [] then [] else TableHeading(r.rowCount) + TableBody(t, r.rowCount) + "\n"
    case None =>
      if r.data != [] && r.rowCount > 1 then CountLine(r.rowCount)
      else if r.data == [] then NoDataNotice
      else []
  }

  function TimingLine(r: QueryResponse): string
  {
    "\n⏱ <b>Время выполнения:</b> " + NatToString(r.executionTimeMs) + "ms" + (if r.cached then CachedMark else [])
  }

  /** The whole report `format_query_response` builds. */
  function Render(r: QueryResponse): string
  {
    match r.textResponse
    case Some(t) => EscapeHtml(t)
    case None =>
      (if r.analysis.Some? then AnalysisSection(r.analysis.value) else []) + DataSection(r) + TimingLine(r)
  }

  /** The insight entries, one per insight, in order. */
  method WriteInsights(insights: seq<Insight>) returns (text: string)
    ensures text == InsightsText(insights)
  {
    text := "";
    for k := 0 to |insights|
      invariant text == InsightsText(insights[..k])
    {
      var insight := insights[k];
      var emoji := Glyph(insight.significance);
      text := text + (emoji + " <b>" + EscapeHtml(insight.title) + "</b>\n"
        + EscapeHtml(insight.description) + "\n\n");
      assert insights[..k + 1][..k] == insights[..k];
    }
    assert insights[..|insights|] == insights;
  }

  /** The numbered suggestions, counting from one. */
  method WriteSuggestions(questions: seq<string>) returns (text: string)
    ensures text == SuggestionsText(questions)
  {
    text := "";
    ghost var entries := SuggestionEntries(questions);
    for idx := 0 to |questions|
      invariant text == Concat(entries[..idx])
    {
      text := text + (NatToString(idx + 1) + ". " + EscapeHtml(questions[idx]) + "\n");
      assert entries[..idx + 1][..idx] == entries[..idx];
    }
    assert entries[..|questions|] == entries;
  }

  /** The analysis block: headline, insights, explanation and numbered suggestions. */
  method WriteAnalysis(analysis: AnalysisResult) returns (text: string)
    ensures text == AnalysisSection(analysis)
  {
    text := HeadlineOpen + EscapeHtml(analysis.headline) + "</b>\n\n";
    var insightsPart := "";
    if analysis.insights != [] {
      var entries := WriteInsights(analysis.insights);
      insightsPart := InsightsHeading + entries;
    }
    text := text + insightsPart;
    text := text + ExplanationHeading + EscapeHtml(analysis.explanation) + "\n\n";
    var suggestionsPart := "";
    if analysis.suggestedQuestions != [] {
      var entries := WriteSuggestions(analysis.suggestedQuestions);
      suggestionsPart := SuggestionsHeading + entries + "\n";
    }
    text := text + suggestionsPart;
  }

  /**
   * The table preview, the row count line or the "no data" notice. An
   * empty table text adds nothing; with no table, the notice is written
   * exactly when there are no rows, and the count line exactly when there
   * are two rows or more.
   */
  method WriteData(response: QueryResponse) returns (text: string)
    ensures text == DataSection(response)
    ensures response.table == Some([]) ==> text == []
    ensures response.table.Some? && response.table.value != [] ==>
              text == TableHeading(response.rowCount) + TableBody(response.table.value, response.rowCount) + "\n"
    ensures response.table.None? ==> (text == NoDataNotice <==> response.data == [])
    ensures response.table.None? && response.data != [] ==>
              (text == CountLine(response.rowCount) <==> response.rowCount > 1)
              && (text == [] <==> response.rowCount <= 1)
  {
    if response.table.Some? {
      var table := response.table.value;
      if table == [] {
        text := "";
      } else {
        var body := WriteTableBody(table, response.rowCount);
        text := TableHeading(response.rowCount) + body + "\n";
      }
    } else if response.data != [] && response.rowCount > 1 {
      text := CountLine(response.rowCount);
      assert text[0] != NoDataNotice[0];
    } else if response.data == [] {
      text := NoDataNotice;
    } else {
      text := "";
    }
  }

  /**
   * The table itself up to ten rows; beyond that a preview of at most ten
   * lines (the table up to a line break, when it has no '\r') followed by
   * the truncation notice.
   */
  method WriteTableBody(table: string, rowCount: nat) returns (body: string)
    ensures body == TableBody(table, rowCount)
    ensures rowCount <= 10 ==> body == table
    ensures rowCount > 10 ==> EndsWith(body, TruncationNotice(rowCount))
    ensures rowCount > 10 ==>
              var preview := body[..|body| - |TruncationNotice(rowCount)|];
              multiset(preview)['\n'] < 10
              && ('\r' !in table ==> preview <= table && (|preview| < |table| ==> table[|preview|] == '\n'))
  {
    if rowCount <= 10 {
      body := table;
    } else {
      var lines := Lines(table);
      var preview := Join(Take(lines, 10), "\n");
      body := preview + TruncationNotice(rowCount);
      assert body[..|preview|] == preview;
      FirstLinesBreaks(table, 10);
      if '\r' !in table {
        FirstLinesPrefix(table, 10);
      }
    }
  }

  /** `format_query_response`: the narrative alone, or the sections followed by the timing line. */
  method FormatQueryResponse(response: QueryResponse) returns (result: string)
    ensures result == Render(response)
    ensures response.textResponse.Some? ==> result == EscapeHtml(response.textResponse.value)
    ensures response.textResponse.None? ==> EndsWith(result, TimingLine(response))
  {
    if response.textResponse.Some? {
      result := EscapeHtml(response.textResponse.value);
      return;
    }
    var analysisText := "";
    if response.analysis.Some? {
      analysisText := WriteAnalysis(response.analysis.value);
    }
    var dataText := WriteData(response);
    var timing := "\n⏱ <b>Время выполнения:</b> " + NatToString(response.executionTimeMs) + "ms";
    if response.cached {
      timing := timing + CachedMark;
    }
    assert timing == TimingLine(response);
    result := analysisText + dataText + timing;
    assert result[|result| - |timing|..] == timing;
  }

  // --------------------------------------------------------- report lemmas

  /**
   * The list keeps the questions' order and numbers them from one: the entry
   * of question `k`, numbered `k + 1`, comes right after the entries of the
   * questions before it.
   */
  lemma SuggestionsInOrder(questions: seq<string>, k: nat)
    requires k < |questions|
    ensures SuggestionsText(questions[..k]) + SuggestionEntry(k + 1, questions[k]) <= SuggestionsText(questions)
  {
    var entries := SuggestionEntries(questions);
    ConcatPrefix(entries, k + 1);
    var front := entries[..k + 1];
    assert front[..k] == entries[..k];
    assert Concat(front) == Concat(entries[..k]) + entries[k];
    assert SuggestionEntries(questions[..k]) == entries[..k] by {
      forall i | 0 <= i < k ensures SuggestionEntries(questions[..k])[i] == entries[i] {
        assert questions[..k][i] == questions[i];
      }
    }
  }

  /** A narrative answer is the whole report. */
  lemma NarrativeShortCircuit(r: QueryResponse)
    requires r.textResponse.Some?
    ensures Render(r) == EscapeHtml(r.textResponse.value)
    ensures UnescapeHtml(Render(r)) == r.textResponse.value
  {
    UnescapeEscape(r.textResponse.value);
  }

  /** The timing line ends with the cached mark iff the answer came from the cache, and with "ms" otherwise. */
  lemma TimingLineEnd(r: QueryResponse)
    ensures |CachedMark| <= |TimingLine(r)|
    ensures EndsWith(TimingLine(r), CachedMark) <==> r.cached
    ensures EndsWith(TimingLine(r), "ms") <==> !r.cached
  {
    var base := "\n⏱ <b>Время выполнения:</b> " + NatToString(r.executionTimeMs) + "ms";
    var t := TimingLine(r);
    assert base[|base| - 2..] == "ms";
    if r.cached {
      assert t == base + CachedMark;
      assert t[|t| - |CachedMark|..] == CachedMark;
      assert t[|t| - 1] == ')';
    } else {
      assert t == base;
      assert t[|t| - 1] == 's';
    }
  }

  /** Without a narrative the report always ends with the timing line, marked iff cached. */
  lemma TimingLast(r: QueryResponse)
    requires r.textResponse.None?
    ensures EndsWith(Render(r), TimingLine(r))
    ensures EndsWith(Render(r), CachedMark) <==> r.cached
    ensures EndsWith(Render(r), "ms") <==> !r.cached
  {
    var pre := (if r.analysis.Some? then AnalysisSection(r.analysis.value) else []) + DataSection(r);
    var t := TimingLine(r);
    assert Render(r) == pre + t;
    TimingLineEnd(r);
    EndsWithAppend(pre, t, t);
    EndsWithAppend(pre, t, CachedMark);
    EndsWithAppend(pre, t, "ms");
  }

  /** With no table, the "no data" notice stands right before the timing line iff there are no rows. */
  lemma NoDataNoticeIffEmpty(r: QueryResponse)
    requires r.textResponse.None? && r.table.None?
    ensures r.data == [] ==> EndsWith(Render(r), NoDataNotice + TimingLine(r))
    ensures r.data != [] ==> DataSection(r) == (if r.rowCount > 1 then CountLine(r.rowCount) else [])
  {
    if r.data == [] {
      var pre := if r.analysis.Some? then AnalysisSection(r.analysis.value) else [];
      assert Render(r) == pre + (NoDataNotice + TimingLine(r));
    }
  }

  /** An empty table text adds nothing, neither a table nor the "no data" notice. */
  lemma EmptyTableAddsNothing(r: QueryResponse)
    requires r.textResponse.None? && r.table == Some([])
    ensures Render(r) == (if r.analysis.Some? then AnalysisSection(r.analysis.value) else []) + TimingLine(r)
  {
  }

  /** The lines of the table the preview leaves out. */
  function HiddenLines(table: string): nat
  {
    |Lines(table)| - |Take(Lines(table), 10)|
  }

  /**
   * A long table is cut to its first ten lines, and the notice counts
   * `row_count - 5` further rows, five more than the lines left out when
   * the table has one line per row.
   */
  lemma LongTableNotice(table: string, rowCount: nat)
    requires rowCount > 10
    ensures EndsWith(TableBody(table, rowCount), TruncationNotice(rowCount))
    ensures |Lines(table)| == rowCount ==>
              TruncationNotice(rowCount)
              == "\n... и еще " + NatToString(HiddenLines(table) + 5) + " строк(и)\n"
  {
    var b := TableBody(table, rowCount);
    var n := TruncationNotice(rowCount);
    assert b[|b| - |n|..] == n;
  }

  // -------------------------------------------------------------- CSV export

  /** A string cell: quoted, with every quote doubled. */
  function QuoteCell(s: string): string
  {
    "\"" + ReplaceAll(s, "\"", "\"\"") + "\""
  }

  /** The text of one cell; `showNumber` is Rust's `Display` of the value as `f64`. */
  function CsvCell(v: Option<JsonValue>, showNumber: real -> string): string
  {
    match v
    case Some(JNumber(x)) => showNumber(x)
    case Some(JString(s)) => QuoteCell(s)
    case _ => []
  }

  function Lookup(fields: map<string, JsonValue>, key: string): Option<JsonValue>
  {
    if key in fields then Some(fields[key]) else None
  }

  function CsvCells(keys: seq<string>, fields: map<string, JsonValue>, showNumber: real -> string): (cells: seq<string>)
    ensures |cells| == |keys|
  {
    seq(|keys|, i requires 0 <= i < |keys| => CsvCell(Lookup(fields, keys[i]), showNumber))
  }

  /** The line of one row: its cells in header order, joined by commas. */
  function CsvLine(row: JsonValue, keys: seq<string>, showNumber: real -> string): string
  {
    match row
    case JObject(_, fields) => Join(CsvCells(keys, fields, showNumber), ",") + "\n"
    case _ => []
  }

  /** The data lines, as the loop appends them; rows that are not objects add nothing. */
  function CsvBody(rows: seq<JsonValue>, keys: seq<string>, showNumber: real -> string): string
  {
    if rows == [] then []
    else CsvBody(rows[..|rows| - 1], keys, showNumber) + CsvLine(rows[|rows| - 1], keys, showNumber)
  }

  /** The whole export `format_as_csv` builds. */
  function Csv(data: seq<JsonValue>, showNumber: real -> string): string
  {
    if data == [] then []
    else match data[0]
      case JObject(keys, _) => Join(keys, ",") + "\n" + CsvBody(data, keys, showNumber)
      case _ => []
  }

  /** `format_as_csv`. */
  method FormatAsCsv(data: seq<JsonValue>, showNumber: real -> string) returns (result: string)
    ensures result == Csv(data, showNumber)
    ensures data == [] || !data[0].JObject? ==> result == []
    ensures data != [] && data[0].JObject? ==> Join(data[0].keys, ",") + "\n" <= result
  {
    if data == [] {
      return "";
    }
    result := "";
    if data[0].JObject? {
      var keys := data[0].keys;
      result := result + Join(keys, ",");
      result := result + "\n";
      var body := "";
      for k := 0 to |data|
        invariant body == CsvBody(data[..k], keys, showNumber)
      {
        var row := data[k];
        var line := "";
        if row.JObject? {
          var values := CsvCells(keys, row.fields, showNumber);
          line := Join(values, ",") + "\n";
        }
        body := body + line;
        assert data[..k + 1][..k] == data[..k];
      }
      assert data[..|data|] == data;
      result := result + body;
    }
  }

  /** Reading a quoted cell back: strip the quotes and undouble the inner ones. */
  function UnquoteCell(t: string): Option<string>
  {
    if |t| >= 2 && t[0] == '"' && t[|t| - 1] == '"' then Undouble(t[1..|t| - 1]) else None
  }

  function Undouble(u: string): Option<string>
    decreases |u|
  {
    if u == [] then Some([])
    else if u[0] != '"' then
      match Undouble(u[1..])
      case Some(rest) => Some([u[0]] + rest)
      case None => None
    else if |u| >= 2 && u[1] == '"' then
      match Undouble(u[2..])
      case Some(rest) => Some(['"'] + rest)
      case None => None
    else None
  }

  /** A quoted cell reads back as exactly the original string. */
  lemma CsvQuoteRoundTrip(s: string)
    ensures UnquoteCell(QuoteCell(s)) == Some(s)
  {
    ReplaceSingleChar(s, '"', "\"\"");
    var inner := ReplaceEach(s, '"', "\"\"");
    var t := QuoteCell(s);
    assert t[1..|t| - 1] == inner;
    UndoubleDoubled(s);
  }

  lemma {:induction false} UndoubleDoubled(s: string)
    ensures Undouble(ReplaceEach(s, '"', "\"\"")) == Some(s)
  {
    if s != [] {
      var rest := ReplaceEach(s[1..], '"', "\"\"");
      UndoubleDoubled(s[1..]);
      if s[0] == '"' {
        var u := ReplaceEach(s, '"', "\"\"");
        assert u == "\"\"" + rest;
        assert u[2..] == rest;
        assert s == ['"'] + s[1..];
      } else {
        var u := ReplaceEach(s, '"', "\"\"");
        assert u == [s[0]] + rest;
        assert u[1..] == rest;
        assert s == [s[0]] + s[1..];
      }
    }
  }

  // ------------------------------------------------------------ chart labels

  /** An x-axis label: more than ten characters become the first eight and "..". */
  function AxisLabel(name: string): (r: string)
    ensures |r| <= 10
    ensures |name| <= 10 ==> r == name
    ensures |name| > 10 ==> |r| == 10 && r[..8] == name[..8] && r[8..] == ".."
  {
    if |name| > 10 then name[..8] + ".." else name
  }

  // ----------------------------------------------------- suggestion keyboard

  /** One inline button: its visible text and its action token. */
  datatype Button = Button(text: string, callbackData: string)

  const MaxButtons: nat := 6
  const MaxLabelChars: nat := 40
  const CallbackPrefix: string := "query:"
  const MaxCallbackBytes: nat := 64

  /** The visible text: the question, or its first 37 characters and "..." beyond 40. */
  function ButtonLabel(question: string): (shown: string)
    ensures |shown| <= MaxLabelChars
    ensures |question| <= MaxLabelChars ==> shown == question
    ensures |question| > MaxLabelChars ==> |shown| == MaxLabelChars && shown[..37] == question[..37] && shown[37..] == "..."
  {
    if |question| > MaxLabelChars then question[..37] + "..." else question
  }

  /** The byte budget left for the question once the prefix is written. */
  function QuestionBudget(): (n: nat)
    ensures n == 58
  {
    assert ByteLen(CallbackPrefix) == 6;
    MaxCallbackBytes - ByteLen(CallbackPrefix)
  }

  /** The action token: the prefix and the longest prefix of the question that fits in 58 bytes. */
  function CallbackToken(question: string): (token: string)
    ensures CallbackPrefix <= token && ByteLen(token) <= MaxCallbackBytes
    ensures token[|CallbackPrefix|..] <= question
  {
    var fragment := FitPrefix(question, QuestionBudget());
    ByteLenAppend(CallbackPrefix, fragment);
    assert (CallbackPrefix + fragment)[|CallbackPrefix|..] == fragment;
    CallbackPrefix + fragment
  }

  /** A question of at most 58 bytes travels whole; a longer one is cut at a character boundary. */
  lemma CallbackTokenWhole(question: string)
    ensures ByteLen(question) <= QuestionBudget() <==> CallbackToken(question) == CallbackPrefix + question
  {
    if ByteLen(question) <= QuestionBudget() {
      FitPrefixWhole(question, QuestionBudget());
    } else {
      ByteLenAppend(CallbackPrefix, question);
    }
  }

  /** The `while` loop that shrinks `len` until `bytes[..len]` is valid UTF-8. */
  method ShrinkToValid(bytes: seq<byte>, max: nat) returns (len: nat)
    requires max <= |bytes|
    ensures len <= max && Valid(bytes[..len])
    ensures forall l :: len < l <= max ==> !Valid(bytes[..l])
  {
    len := max;
    while len > 0 && !Valid(bytes[..len])
      invariant len <= max
      invariant forall l :: len < l <= max ==> !Valid(bytes[..l])
    {
      len := len - 1;
    }
  }

  /** The longest valid byte prefix within the budget decodes to the longest fitting character prefix. */
  lemma LongestValidIsFitPrefix(q: string, budget: nat, len: nat)
    requires budget <= ByteLen(q) && len <= budget
    requires Valid(Encode(q)[..len])
    requires forall l :: len < l <= budget ==> !Valid(Encode(q)[..l])
    ensures Decode(Encode(q)[..len]) == Some(FitPrefix(q, budget))
  {
    var bytes := Encode(q);
    var p := FitPrefix(q, budget);
    var k := |p|;
    assert p == q[..k];
    EncodePrefix(q, k);
    DecodeEncode(p);
    assert bytes[..ByteLen(p)] == Encode(p);
    assert ByteLen(p) <= len;
    ValidPrefixIsBoundary(q, len);
    var j :| 0 <= j <= |q| && ByteLen(q[..j]) == len && bytes[..len] == Encode(q[..j]);
    if j > k {
      ByteLenPrefixMonotone(q, k + 1, j);
    } else if j < k {
      ByteLenPrefixMonotone(q, j, k);
    }
    assert j == k;
    DecodeEncode(q[..j]);
  }

  /** The action token for one question, computed as the source does: encode, shrink, decode. */
  method CallbackDataFor(question: string) returns (callbackData: string)
    ensures callbackData == CallbackToken(question)
  {
    var maxQuestionLen := MaxCallbackBytes - ByteLen(CallbackPrefix);
    var truncated: string;
    var bytes := Encode(question);
    if |bytes| > maxQuestionLen {
      var len := ShrinkToValid(bytes, maxQuestionLen);
      LongestValidIsFitPrefix(question, maxQuestionLen, len);
      var decoded := Decode(bytes[..len]);
      truncated := if decoded.Some? then decoded.value else "";
    } else {
      FitPrefixWhole(question, maxQuestionLen);
      truncated := question;
    }
    callbackData := CallbackPrefix + truncated;
  }

  /** The button shown for a question: its shortened label and its action token. */
  predicate ButtonFor(button: Button, question: string)
  {
    button == Button(ButtonLabel(question), CallbackToken(question))
  }

  /** Button `k` is the button for question `k`, for every button. */
  predicate ButtonsFor(keyboard: seq<Button>, questions: seq<string>)
  {
    |keyboard| <= |questions| && forall k :: 0 <= k < |keyboard| ==> ButtonFor(keyboard[k], questions[k])
  }

  lemma ButtonsForSnoc(keyboard: seq<Button>, questions: seq<string>, button: Button)
    requires ButtonsFor(keyboard, questions) && |keyboard| < |questions|
    requires ButtonFor(button, questions[|keyboard|])
    ensures ButtonsFor(keyboard + [button], questions)
  {
    var next := keyboard + [button];
    forall k | 0 <= k < |next| ensures ButtonFor(next[k], questions[k]) {
      if k < |keyboard| { assert next[k] == keyboard[k]; }
    }
  }

  /** `create_suggestions_keyboard`: at most six buttons, one per row, in order. */
  method CreateSuggestionsKeyboard(questions: seq<string>) returns (keyboard: seq<Button>)
    ensures |keyboard| == if |questions| < MaxButtons then |questions| else MaxButtons
    ensures ButtonsFor(keyboard, questions)
  {
    keyboard := [];
    var count := if |questions| < MaxButtons then |questions| else MaxButtons;
    for k := 0 to count
      invariant |keyboard| == k
      invariant ButtonsFor(keyboard, questions)
    {
      var button := MakeButton(questions[k]);
      ButtonsForSnoc(keyboard, questions, button);
      keyboard := keyboard + [button];
    }
  }

  /** The button for one question: its shortened label and its callback data. */
  method MakeButton(question: string) returns (button: Button)
    ensures ButtonFor(button, question)
  {
    var buttonText := ButtonLabel(question);
    var callbackData := CallbackDataFor(question);
    if ByteLen(callbackData) > MaxCallbackBytes {
      // The second shrink of utils.rs:385-394 is unreachable.
      assert false;
    }
    button := Button(buttonText, callbackData);
  }
}
