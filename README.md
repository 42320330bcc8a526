# Payment analytics Telegram bot: response rendering, in Dafny

This project models the part of the payment-analytics Telegram bot that turns
text into requests and backend answers into messages.

- **Routing.** A text message is trimmed and dropped when blank. The help
  and clear-context buttons go to their handlers, a menu button's query and
  any other text go to the backend.
- **Typed questions.** A question typed by a user is cleaned of its output-format
  keywords. Those keywords also decide the requested output kind (chart,
  table, json or auto). The words "с анализом" / "анализ" switch on the
  analysis and are then removed.
- **Answers.** The backend's answer is rendered as an HTML report by
  `format_query_response`. The narrative and the analysis texts are
  escaped; the table text is inserted as the backend sent it. A report
  longer than 4096 bytes is packed line by line into chunks of at most
  4000 bytes; a single line longer than that is sent as one chunk.
- **Keyboard.** A keyboard of suggested questions goes with the last message.
  Each button carries a callback token `query:` + the question, cut to 64
  bytes at a character boundary.
- **Pressed buttons.** Pressing a button decodes that token back into an
  SQL-marked question.
- **Commands.** Messages starting with `/` are routed to the command handler,
  which matches the first whitespace-separated token exactly.
- **Also modelled:** the CSV export, the x-axis label rule of the chart and
  the SQL-error fallback to the chat API.

Modules:

- `Utf8`:
  - UTF-8 as in RFC 3629: the width of a scalar value, encoding, decoding and validity of byte strings.
  - `FitPrefix`, the longest character prefix that fits a byte budget.
- `Text`: the string operations the Rust code relies on. These are `find`, `contains`, `replace`, `split_whitespace`, `join`, `trim`, `trim_matches`, `to_lowercase`, `lines` and `take`.
- `Api`: the records exchanged with the backend (`src/api_client.rs`).
- `Utils`: `src/utils.rs`, that is escaping, the error banner, the report, the CSV export, the axis label and the suggestion keyboard.
- `Handlers`: `src/handlers.rs`, that is `detect_output_format`, the analysis phrase, the keyboard choice, the SQL-error test and chunking.
- `Bot`: `src/bot.rs`, that is the `/` filter, command matching, and callback decoding and replies.

Loops of the source are methods with loop invariants, proved against a specification function:

- the insight, suggestion and table-preview loops;
- the CSV loop;
- the keyboard loop and its shrink-to-valid-UTF-8 loop;
- the keyword search loops, the removal loop and the chunk-packing loop.

The pure decisions are functions with lemmas.

## Model

| member | source | states |
|---|---|---|
| Utf8.Width | src/utils.rs:370 | A character takes 1 to 4 bytes, and exactly 1 iff it is ASCII. |
| Utf8.Encode | src/utils.rs:372 | The encoding of a text is as long as its byte length. |
| Utf8.DecodeFirst | src/utils.rs:374 | A decoded first character consumes between 1 and all available bytes, as many as its lead byte announces. |
| Utf8.DecodeEncode | src/utils.rs:377 | Decoding the encoding of any text gives the text back. |
| Utf8.DecodeFirstEncodeChar | src/utils.rs:374 | The first character of an encoded character followed by anything decodes to that character, consuming its width. |
| Utf8.EncodeAppend | src/utils.rs:382 | Encoding distributes over concatenation. |
| Utf8.ByteLenAppend | src/handlers.rs:194 | The byte length of a concatenation is the sum of the byte lengths. |
| Utf8.ByteLenPrefixMonotone | src/utils.rs:370-377 | Longer character prefixes have strictly more bytes. |
| Utf8.FitPrefix | src/utils.rs:370-380 | The result is a prefix of the question within the byte budget, and either the whole question or a prefix to which one more character would not fit. |
| Utf8.FitPrefixWhole | src/utils.rs:370 | A text within the budget is kept whole. |
| Utf8.FitPrefixAtBoundary | src/utils.rs:373-377 | With a budget equal to the byte length of a character prefix, exactly that prefix is kept. |
| Utf8.FitPrefixMonotone | src/utils.rs:370-380 | A larger budget never keeps fewer characters. |
| Utf8.AsciiByteLen | src/handlers.rs:490-501 | For ASCII text, bytes and characters coincide. |
| Utf8.AsciiFitPrefix | src/utils.rs:370-380 | For ASCII text the fitting prefix has exactly min(budget, length) characters. |
| Utf8.ValidPrefixIsBoundary | src/utils.rs:374 | A valid UTF-8 prefix of an encoded text is the encoding of a character prefix of it. |
| Utf8.ValidPrefixStep | src/utils.rs:374 | A nonempty valid prefix of an encoding starts with the whole first character, and the rest is a valid prefix of the tail's encoding. |
| Utf8.EncodePrefix | src/utils.rs:372 | The encoding of a character prefix is a prefix of the encoding. |
| Text.Contains | src/handlers.rs:443 | `contains` holds iff the pattern occurs at some position. |
| Text.IndexFrom | src/handlers.rs:468 | A position found by `find` lies at or after the search start, and the match fits in the text. |
| Text.IndexFromFirst | src/handlers.rs:468 | `find` reports a match, the first one at or after the start, and reports none only when there is none. |
| Text.ReplaceAbsent | src/handlers.rs:91-93 | Replacing an absent pattern leaves the text unchanged. |
| Text.WordLen | src/bot.rs:80 | The first word is the longest whitespace-free prefix. |
| Text.Words | src/handlers.rs:504-505 | `split_whitespace` yields nonempty pieces without whitespace. |
| Text.FirstWordOf | src/bot.rs:80 | A word followed by whitespace or nothing is the first token of the text. |
| Text.WordsSkipSpace | src/bot.rs:80 | Leading whitespace does not change the tokens. |
| Text.JoinSnoc | src/handlers.rs:508 | Joining one more piece appends the separator and the piece. |
| Text.JoinSingleSpaced | src/handlers.rs:504-508 | Joining whitespace-free words with one space gives text whose only whitespace is single spaces between words, starting with the first word. |
| Text.TrimStart | src/handlers.rs:94 | Trimming the start gives a suffix not starting with whitespace. |
| Text.TrimEnd | src/handlers.rs:94 | Trimming the end gives a prefix not ending with whitespace. |
| Text.Trim | src/handlers.rs:94 | `trim` gives a slice of the text with no whitespace at either end. |
| Text.TrimUntouched | src/handlers.rs:509-511 | Trimming a text without whitespace at its ends changes nothing. |
| Text.TrimMatches | src/handlers.rs:510 | `trim_matches(',')` gives text that neither starts nor ends with a comma. |
| Text.TrimMatchesSlice | src/handlers.rs:510 | `trim_matches(',')` keeps the slice `a..b` of its input and cuts only commas before and after it. |
| Text.LowerChar | src/handlers.rs:423 | Lowercasing a character keeps its UTF-8 width. |
| Text.ToLower | src/handlers.rs:423 | `to_lowercase` maps each character on its own and keeps the length. |
| Text.ToLowerByteLen | src/handlers.rs:459 | Lowercasing keeps the byte length, so byte offsets in the lowercased text are offsets in the original. |
| Text.NatToString | src/utils.rs:213 | A number is written as a nonempty string of decimal digits. |
| Text.LineLen | src/utils.rs:220 | A line runs up to, not including, the first newline. |
| Text.Lines | src/handlers.rs:193 | The lines of a text contain no newline. |
| Text.ConcatPrefix | src/utils.rs:202-204 | What the loop has appended so far is a prefix of the final text. |
| Text.Take | src/utils.rs:221 | `take(n)` keeps the first min(n, length) items. |
| Text.EndsWithAppend | src/utils.rs:234-237 | A suffix no longer than the last part is a suffix of the whole iff it is one of the last part. |
| Text.IndexFromMatches | src/handlers.rs:468-469 | A position returned by `find` is a match. |
| Utils.EscapeEach | src/utils.rs:402-406 | The per-character escape leaves no `<` or `>`. |
| Utils.EscapeHtml | src/utils.rs:402-406 | `escape_html` equals escaping each character on its own, and its output has no `<` or `>`. |
| Utils.EscapeHtmlIsPerChar | src/utils.rs:402-406 | The three `replace` passes, `&` first, compose to per-character escaping. |
| Utils.EscapePasses | src/utils.rs:403-405 | The three passes, written character by character, compose to per-character escaping. |
| Utils.UnescapeEscape | src/utils.rs:402-406 | Escaping loses nothing: unescaping the escaped text gives the original. |
| Utils.FormatError | src/utils.rs:298-300 | The error text is the fixed heading followed by the escaped message, which has no `<`/`>` and unescapes to the message. |
| Utils.WriteInsights | src/utils.rs:187-194 | The insight loop builds one entry per insight, in order. The marker is red for "High", yellow for "Medium", green otherwise. |
| Utils.WriteSuggestions | src/utils.rs:202-204 | The suggestion loop numbers the questions from one, in order. |
| Utils.WriteAnalysis | src/utils.rs:182-207 | The analysis block is the headline, the insights when there are any, the explanation, and the suggestions when there are any. |
| Utils.WriteTableBody | src/utils.rs:216-224 | Up to ten rows the body is the table itself. Beyond ten rows it ends with the truncation notice. What precedes the notice has fewer than ten line breaks and is the table up to the end of a line. |
| Utils.WriteData | src/utils.rs:211-232 | An empty table text adds nothing. A nonempty one gives the heading, the table body and a newline. With no table, the "no data" notice appears iff there are no data rows. With rows, the count line appears iff there is more than one row, and otherwise nothing does. |
| Utils.FormatQueryResponse | src/utils.rs:172-240 | The report is the narrative escaped, when there is one. Otherwise it is the sections in order, ending with the timing line. |
| Utils.SuggestionsInOrder | src/utils.rs:202-204 | Suggestion k appears numbered k+1 right after the first k suggestions. |
| Utils.NarrativeShortCircuit | src/utils.rs:176-179 | A narrative answer is the whole report, and it unescapes to the narrative. |
| Utils.TimingLineEnd | src/utils.rs:234-237 | The timing line ends with " (из кэша)" iff the answer was cached, and with "ms" otherwise. |
| Utils.TimingLast | src/utils.rs:234-237 | Without a narrative the report ends with the timing line, with the cache mark iff cached. |
| Utils.NoDataNoticeIffEmpty | src/utils.rs:227-232 | With no table, the "no data" notice precedes the timing line when there are no rows. With rows, only the count line appears, and only for more than one row. |
| Utils.EmptyTableAddsNothing | src/utils.rs:211-212 | An empty table text adds neither a table nor the "no data" notice. |
| Utils.LongTableNotice | src/utils.rs:216-223 | Beyond ten rows the body ends with the notice. When every row is a line, the notice's number is the count of hidden lines plus five. |
| Text.FirstLinesPrefix | src/utils.rs:220-221 | The first n lines joined by newlines are a prefix of a text without carriage returns, and a shorter one is followed by a line break. |
| Text.FirstLinesBreaks | src/utils.rs:220-221 | The first n lines joined by newlines hold fewer than n line breaks. |
| Utils.CsvCells | src/utils.rs:22-35 | A row yields one cell per header key. |
| Utils.FormatAsCsv | src/utils.rs:5-43 | The export is empty for no data or when the first value is not an object. Otherwise it starts with the first object's keys joined by commas, and the CSV loop builds exactly the rows of `Csv`. |
| Utils.CsvQuoteRoundTrip | src/utils.rs:29 | A quoted string cell, quotes doubled, reads back as exactly the original string. |
| Utils.UndoubleDoubled | src/utils.rs:29 | Undoubling the doubled quotes gives the original text. |
| Utils.AxisLabel | src/utils.rs:102-110 | Labels up to 10 characters stay. Longer ones become their first 8 characters and "..", 10 in all. |
| Utils.ButtonLabel | src/utils.rs:356-361 | Button texts up to 40 characters stay. Longer ones become their first 37 characters and "...", 40 in all. |
| Utils.QuestionBudget | src/utils.rs:365-367 | The question may use 64 - \|"query:"\| = 58 bytes. |
| Utils.CallbackToken | src/utils.rs:382 | A token is "query:" followed by a prefix of the question, and is at most 64 bytes. |
| Utils.CallbackTokenWhole | src/utils.rs:370-382 | The question travels whole iff it fits in 58 bytes. |
| Utils.ShrinkToValid | src/utils.rs:373-376 | The loop stops at the longest length up to the start value whose prefix is valid UTF-8. |
| Utils.LongestValidIsFitPrefix | src/utils.rs:370-377 | The longest valid byte prefix within the budget decodes to the longest character prefix that fits. |
| Utils.CallbackDataFor | src/utils.rs:365-394 | Encoding, shrinking and decoding compute exactly `CallbackToken`; the second shrink of the final re-check is unreachable. |
| Utils.MakeButton | src/utils.rs:354-396 | A button carries the shortened label and the callback token of its question. |
| Utils.ButtonsForSnoc | src/utils.rs:396 | Pushing the button for the next question keeps button k matched to question k. |
| Utils.CreateSuggestionsKeyboard | src/utils.rs:347-400 | The keyboard has min(6, n) buttons, and button k is made from question k. |
| Handlers.Classify | src/handlers.rs:443-455 | Chart iff a chart keyword occurs. Table iff a table keyword and no chart keyword occurs. Json iff neither occurs and "json" does. Auto otherwise. |
| Handlers.Needle | src/handlers.rs:466 | The searched bytes are as long as the keyword's byte length. |
| Handlers.OccurrencesSound | src/handlers.rs:468-472 | The repeated search yields disjoint, increasing matches of the keyword, each at or after the start. It yields none iff there is no match. |
| Handlers.FindOccurrences | src/handlers.rs:466-472 | The `while let` loop collects exactly the successive non-overlapping occurrences. |
| Handlers.FoundOne | src/handlers.rs:469-471 | One round records the match and resumes the search past it, keeping the loop invariant. |
| Handlers.FindRanges | src/handlers.rs:465-484 | The loop over a keyword table collects each keyword's ranges, in table order. |
| Handlers.InsertByStart | src/handlers.rs:487 | Inserting a range adds exactly that range. |
| Handlers.InsertKeepsDescending | src/handlers.rs:487 | Inserting into a list sorted by descending start keeps it sorted. |
| Handlers.SortByStartDescCorrect | src/handlers.rs:487 | The sort puts the latest start first and is a permutation of the ranges. |
| Handlers.SortByStartDescStable | src/handlers.rs:487 | The sort is stable: the ranges with any one start keep their input order. |
| Handlers.RemovalOrder | src/handlers.rs:462-487 | The ranges the removal loop visits are the found ranges, permuted, latest start first. |
| Handlers.CollectRanges | src/handlers.rs:462-487 | The two search loops and the sort produce exactly the removal order. |
| Handlers.CharCountAsWritten | src/handlers.rs:494-495 | `chars().take(offset).count()` never exceeds the number of characters. |
| Handlers.CharIndex | src/handlers.rs:494-495 | The character index of a byte offset is within the text. |
| Handlers.ToBytes | src/handlers.rs:470 | Character ranges map to byte ranges with the same count and each start before its end. |
| Handlers.RemoveRanges | src/handlers.rs:490-501 | The removal loop applies the ranges in order, each to the text as it stands. |
| Handlers.AsWrittenMissesLateRange | src/handlers.rs:490-501 | A range whose byte start is at or past the character count removes nothing. |
| Handlers.CyrillicKeywordKept | src/handlers.rs:490-501 | In "покажи топ городов таблица" the keyword is found at bytes 35..49, but the loop as written keeps it. The corrected conversion cuts it. |
| Handlers.AsciiRemovalAgrees | src/handlers.rs:490-501 | On ASCII text the loop as written and the corrected loop agree. |
| Handlers.AsciiRemovalCutsAll | src/handlers.rs:490-501 | On ASCII text the loop as written cuts out exactly the given disjoint ranges, latest first. |
| Handlers.FoundRangesWithin | src/handlers.rs:462-484 | Every range the keyword search finds is nonempty and lies within the text's bytes. |
| Handlers.AsciiCleanText | src/handlers.rs:462-512 | On ASCII text whose keyword occurrences do not overlap, the removal order cuts the text from the back, and the cleaned text is the text with every occurrence cut out, then normalised. |
| Handlers.OverlapKeepsFront | src/handlers.rs:490-501 | Of two overlapping ranges that run to the end of the text, only the later-starting one is cut, by the loop as written and by the corrected one alike. |
| Handlers.RemoveFixedAtBoundary | src/handlers.rs:497 | With offsets converted, one range removes exactly its characters. |
| Handlers.RemoveAllFixedCutsAll | src/handlers.rs:490-501 | With offsets converted, the loop removes exactly the disjoint keyword ranges (latest first), whatever the text, and keeps the rest in order. |
| Handlers.NormalizeShape | src/handlers.rs:504-512 | The cleaned question has no whitespace at either end, and its words are separated by single spaces. |
| Handlers.NormalizeCommas | src/handlers.rs:503-512 | The comma step cuts only the comma runs at both ends: the result is the whitespace trim of a slice that neither starts nor ends with a comma, with only commas outside it. |
| Handlers.NormalizeKeepsInnerComma | src/handlers.rs:503-512 | ", , a" is cleaned to ", a": a comma behind a space survives the comma step. |
| Handlers.NormalizeFixedShape | src/handlers.rs:503-512 | The corrected clean-up leaves neither a comma nor whitespace at either end, and keeps single spacing. |
| Handlers.NormalizeFixedCuts | src/handlers.rs:503-512 | The corrected clean-up cuts only commas and whitespace: it is a slice of the single-spaced text with only those outside it. |
| Handlers.NormalizeFixedDropsComma | src/handlers.rs:503-512 | The corrected clean-up turns ", , a" into "a". |
| Handlers.DetectOutputFormat | src/handlers.rs:422-515 | The kind is decided from the lowercased input, and the text is cleaned of keywords and normalised. |
| Handlers.IncludeAnalysisIff | src/handlers.rs:87-88 | Analysis is requested iff the lowercased text contains "анализ". The "с анализом" test adds nothing. |
| Handlers.NoAnalysisWord | src/handlers.rs:87-95 | Without "анализ" in any case, no analysis is requested and the question is the trimmed text. |
| Handlers.CapitalisedWordStays | src/handlers.rs:87-95 | "Анализ" requests analysis but stays in the question. Detection ignores case, removal does not. |
| Handlers.RouteText | src/handlers.rs:8-31 | A message is routed by its trimmed text: nowhere iff blank, to help or clear-context iff it is that button, to the query the menu maps it to iff there is one, and otherwise on as typed text, which is then trimmed and nonempty. |
| Handlers.MenuQueryRequest | src/handlers.rs:42-51 | A menu query becomes a request with the cleaned query, analysis always on, caching on, SQL hidden, the user id and the detected kind. |
| Handlers.TextQueryRequest | src/handlers.rs:84-105 | A typed message, trimmed and nonempty, becomes a request with the cleaned question, the analysis flag, caching on, SQL hidden, the user id and the detected kind. |
| Handlers.KeyboardQuestions | src/handlers.rs:164-185 | The analysis suggestions if any. Otherwise the two defaults when rows came back. No keyboard iff neither. |
| Handlers.ErrorReply | src/handlers.rs:236-279 | For an SQL-looking error: the chat answer, or the fixed hint if that also fails. Otherwise the error banner around the retry advice. |
| Handlers.LowercaseSqlNotMatched | src/handlers.rs:245-247 | The test is case-sensitive: "sql" alone does not trigger the fallback. |
| Handlers.PackLine | src/handlers.rs:193-204 | One packing round keeps the packing invariant for the lines seen so far. |
| Handlers.PackLines | src/handlers.rs:190-207 | Every chunk is the newline-join of a run of consecutive lines starting with a nonempty one, within 4000 bytes unless it is a single line. The runs follow one another, and a chunk ends before a line only if that line would take it past 4000 bytes. Every line outside the runs is empty, so an empty line is dropped exactly when no chunk is open. |
| Handlers.DropsOnlyEmptyKeepsText | src/handlers.rs:193-204 | Dropping only empty lines keeps every nonempty line, in order. |
| Handlers.DropsOnlyEmptyMembers | src/handlers.rs:193-204 | Every packed line is a line of the report. |
| Handlers.FlattenHolds | src/handlers.rs:196-206 | Every line of every chunk is among the packed lines. |
| Handlers.SplitReport | src/handlers.rs:188-224 | A report up to 4096 bytes is sent whole. A longer one is sent as the greedy packing of its lines, as `PackLines` states it, each chunk nonempty and within 4000 bytes or a single line; with no nonempty line it is sent whole. |
| Handlers.ReplyMessages | src/handlers.rs:107-234 | A narrative is sent alone, unchanged and without keyboard. Otherwise the report is sent with the chosen keyboard: in one message when within 4096 bytes or when it has no nonempty line, and otherwise as the greedy packing of its lines that `PackLines` states, each message nonempty and within 4000 bytes unless it is a single line. |
| Bot.FirstToken | src/bot.rs:80 | The command token is whitespace-free, and empty iff the text has no words. |
| Bot.CommandName | src/bot.rs:82-101 | Each known command is spelled as one whitespace-free token starting with '/'. |
| Bot.CommandRoundTrip | src/bot.rs:32-38 | A command name, alone or followed by whitespace, passes the '/' filter and selects that command. |
| Bot.ParsedCommandIsFirstToken | src/bot.rs:79-105 | A recognised command is exactly the first token. |
| Bot.LeadingSpaceNotRouted | src/bot.rs:32-38 | Text with a leading space is not routed to the command handler, though its token would match. |
| Bot.CommandsAreCaseSensitive | src/bot.rs:82-105 | "/Start" is ignored. |
| Bot.CommandsAreExact | src/bot.rs:82-105 | A command name with anything glued to it, such as "/start@bot", is ignored. |
| Bot.SqlQuestion | src/bot.rs:129-136 | A button question is marked "sql: " unless its lowercased text already starts with "sql:". The result is never empty. |
| Bot.SqlQuestionIdempotent | src/bot.rs:132-136 | Marking twice is marking once. |
| Bot.DecodeCallback | src/bot.rs:129-145 | "query:" data asks a marked question. "q:" data is a hash that is ignored. Anything else is ignored. |
| Bot.CallbackRequest | src/bot.rs:147-160 | A request is made iff the data starts with "query:": analysis on, caching on, SQL hidden, the chat id as user, kind auto. |
| Bot.TokenRoundTrip | src/bot.rs:129-160 | A token made by the keyboard decodes to its question's fitting prefix, marked. A question within 58 bytes yields the request for the whole question. |
| Bot.CallbackKeyboard | src/bot.rs:213-221 | A callback reply offers the analysis suggestions only, with no defaults. |
| Bot.NoDefaultsAfterButton | src/bot.rs:213-221 | Where a typed question would get the two defaults, a pressed button gets no keyboard. |
| Bot.CallbackReply | src/bot.rs:206-231 | A callback sends the narrative as it came, without keyboard. Otherwise it sends the report, ending with the timing line, with the callback keyboard. |

## Left out

- Telegram I/O is not modelled. This covers sending, deleting and answering messages, the typing indicator, the dispatcher and its endpoints (`src/bot.rs:10-72`), and `handle_start`, `handle_help`, `handle_clear` and `handle_status`. Only their decisions are modelled.
- The HTTP client, configuration and `main` are not modelled; the backend's result is a parameter.
- The menu module (`button_to_query`, `create_main_menu`) is not part of this model. `Handlers.RouteText` takes `button_to_query` as a parameter.
- Chart drawing (`generate_chart_image`) is left out: it is graphics and floating point. Only its x-axis label rule is modelled, as `Utils.AxisLabel`.
- CSV and chart files written to the temporary directory, the CSV file name (a clock reading) and the send of the CSV document are left out as I/O.
- `format_data_as_table` and `format_help` are left out. The table arrives as text from the backend, and the help is fixed text.
- `Utils.FormatAsCsv` takes the number formatting of `f64` `Display` as a parameter (`showNumber`). Floating-point printing is not modelled.
- `Text.ToLower` lowercases only ASCII and the Cyrillic capitals U+0400 to U+042F. Full Unicode case mapping, including characters whose lowercase form changes byte width, is not modelled.
- `Handlers.RemoveRanges` states the loop as written applies each range in turn. Overlapping keyword ranges are common: "таблицу" lies inside "покажи таблицу", "график" inside "графиком", and "график" is listed twice in the chart table, so each of its occurrences is found twice. For those, only `Handlers.OverlapKeepsFront` describes the resulting text, for two nested ranges. The disjoint-range behaviour is given by `Handlers.AsciiRemovalCutsAll`, `Handlers.AsciiCleanText` and `Handlers.RemoveAllFixedCutsAll`.
- Handlers.AsciiCleanText: stated only for ASCII text whose keyword occurrences do not overlap, for the reason above.
- `Handlers.PackLines`: which lines each chunk holds is returned as a ghost value. The chunking at `src/handlers.rs:369-388` is the same code as at `src/handlers.rs:188-207` and is modelled once.
- `Handlers.ReplyMessages` does not model the menu-button path, which answers through the same code (`src/handlers.rs:286-418`).
- `Bot.CallbackReply` leaves out the error branch (`src/bot.rs:233-241`). It sends "❌ Ошибка: " and the error text unescaped, which is I/O of an error string only.
- The timestamps and logging (`tracing`) are left out.

## Findings

| source | as written | input that shows it | evidently intended | confidence | as-written member | corrected member |
|---|---|---|---|---|---|---|
| src/handlers.rs:490-501 | The keyword ranges are byte offsets into the lowercased text, but they are passed to `chars().take(..)` as if they were character counts. On non-ASCII text the wrong characters, or none, are removed. | "покажи топ городов таблица": the keyword is found at bytes 35..49, but the text has only 26 characters, so nothing is removed and "таблица" stays in the question | convert each byte offset to the number of whole characters in that many bytes, so that exactly the keyword's characters are removed | not executed | Handlers.CyrillicKeywordKept | Handlers.RemoveAllFixedCutsAll |
| src/handlers.rs:503-512 | The comma step `trim_matches(',')` runs once, between two whitespace trims, so only the comma run at each end of the single-spaced text is cut. A comma behind a space survives, and the final trim brings it to the front. | the clean-up of ", , a", which is what cutting "table" and "chart" leaves of "table, chart, a", gives ", a" | cut commas and whitespace from both ends until neither is left, so the question starts and ends with a word | not executed | Handlers.NormalizeKeepsInnerComma | Handlers.NormalizeFixedShape |

`Handlers.DetectOutputFormat`, `Handlers.RemoveRanges` and `Handlers.Normalize`
follow the code as written, so the requests carry the question the code
produces. The corrected removal, `Handlers.RemoveFixed` / `Handlers.RemoveAllFixed`,
is proved to cut exactly the keyword ranges for disjoint ranges cut latest
first, on any text. It agrees with the code on ASCII text
(`Handlers.AsciiRemovalAgrees`). The corrected clean-up is
`Handlers.NormalizeFixed`.
