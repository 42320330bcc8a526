/**
 * The dispatcher's pure parts: which messages reach the command handler,
 * which command a text names, and how the data of a pressed suggestion
 * button becomes a query.
 */
module Bot {
  import opened Wrappers
  import opened Utf8
  import opened Text
  import opened Api
  import opened Utils
  import opened Handlers

  // ------------------------------------------------------------- commands

  /** The first branch of the dispatcher takes a message iff it has text starting with '/'. */
  predicate IsCommandMessage(text: Option<string>)
  {
    text.Some? && text.value != [] && text.value[0] == '/'
  }

  datatype Command = Start | Help | Clear | Status | Menu | Ignored

  /** `split_whitespace().next().unwrap_or("")`. */
  function FirstToken(text: string): (token: string)
    ensures token == [] <==> Words(text) == []
    ensures NoWhitespace(token)
  {
    if Words(text) == [] then "" else Words(text)[0]
  }

  /** The command `handle_commands` runs: the first token, matched exactly. */
  function ParseCommand(text: string): Command
  {
    CommandNamed(FirstToken(text))
  }

  function CommandNamed(token: string): Command
  {
    match token
    case "/start" => Start
    case "/help" => Help
    case "/clear" => Clear
    case "/status" => Status
    case "/menu" => Menu
    case _ => Ignored
  }

  /** The spelling of each known command. */
  function CommandName(c: Command): (name: string)
    requires c != Ignored
    ensures name != [] && name[0] == '/' && NoWhitespace(name)
  {
    match c
    case Start => "/start"
    case Help => "/help"
    case Clear => "/clear"
    case Status => "/status"
    case Menu => "/menu"
  }

  /** A command name, alone or followed by whitespace and anything, selects that command. */
  lemma CommandRoundTrip(c: Command, rest: string)
    requires c != Ignored
    requires rest == [] || IsWhitespace(rest[0])
    ensures ParseCommand(CommandName(c) + rest) == c
    ensures IsCommandMessage(Some(CommandName(c) + rest))
  {
    FirstWordOf(CommandName(c), rest);
  }

  /** A recognised command is exactly the first token of the text. */
  lemma ParsedCommandIsFirstToken(text: string)
    requires ParseCommand(text) != Ignored
    ensures FirstToken(text) == CommandName(ParseCommand(text))
  {
  }

  /**
   * The routing filter looks at the first character, the parser at the first
   * token: a command preceded by a space parses but never reaches the
   * command handler.
   */
  lemma LeadingSpaceNotRouted(text: string)
    ensures ParseCommand(" " + text) == ParseCommand(text)
    ensures !IsCommandMessage(Some(" " + text))
  {
    WordsSkipSpace(' ', text);
    assert " " + text == [' '] + text;
  }

  /** Visible ASCII characters are not whitespace. */
  lemma VisibleAscii(s: string)
    requires forall i :: 0 <= i < |s| ==> '!' <= s[i] <= '~'
    ensures NoWhitespace(s)
  {
  }

  /** Matching is case-sensitive: "/Start" is ignored. */
  lemma CommandsAreCaseSensitive()
    ensures ParseCommand("/Start") == Ignored
  {
    VisibleAscii("/Start");
    FirstWordOf("/Start", "");
    assert "/Start" + "" == "/Start";
  }

  /** Matching is exact: a command name with anything glued to it, as in "/start@bot", is ignored. */
  lemma CommandsAreExact(c: Command, suffix: string)
    requires c != Ignored && suffix != [] && NoWhitespace(suffix)
    ensures ParseCommand(CommandName(c) + suffix) == Ignored
  {
    var token := CommandName(c) + suffix;
    assert NoWhitespace(token) by {
      forall i | 0 <= i < |token| ensures !IsWhitespace(token[i]) {
        if i >= |CommandName(c)| { assert token[i] == suffix[i - |CommandName(c)|]; }
      }
    }
    FirstWordOf(token, "");
    assert token + "" == token;
    LongerNameIgnored(c, suffix);
  }

  lemma LongerNameIgnored(c: Command, suffix: string)
    requires c != Ignored && suffix != []
    ensures CommandNamed(CommandName(c) + suffix) == Ignored
  {
    var name := CommandName(c);
    var token := name + suffix;
    assert token[..|name|] == name && |token| > |name|;
    NameNotPrefix(name, token, "/start");
    NameNotPrefix(name, token, "/help");
    NameNotPrefix(name, token, "/clear");
    NameNotPrefix(name, token, "/status");
    NameNotPrefix(name, token, "/menu");
  }

  lemma NameNotPrefix(name: string, token: string, other: string)
    requires name <= token && |token| > |name|
    requires name in {"/start", "/help", "/clear", "/status", "/menu"}
    requires other in {"/start", "/help", "/clear", "/status", "/menu"}
    ensures token != other
  {
    assert token[1] == name[1];
    assert name == "/start" ==> token[4] == 'r';
  }

  // ------------------------------------------------------ callback decoding

  const HashPrefix: string := "q:"
  const SqlMarker: string := "sql:"

  /** The question of a `query:` button: marked as SQL unless it already is, in any case. */
  function SqlQuestion(q: string): (question: string)
    ensures question != []
    ensures SqlMarker <= ToLower(question)
    ensures question == q || question == "sql: " + q
  {
    if SqlMarker <= ToLower(q) then q
    else
      assert ToLower("sql: " + q)[..4] == ToLower("sql: ") [..4];
      "sql: " + q
  }

  /** Marking is idempotent: a marked question is left as it is. */
  lemma SqlQuestionIdempotent(q: string)
    ensures SqlQuestion(SqlQuestion(q)) == SqlQuestion(q)
  {
  }

  datatype CallbackAction = Ask(question: string) | HashIgnored | Ignore

  /** What `handle_callback` does with the data of a pressed button. */
  function DecodeCallback(data: string): (action: CallbackAction)
    ensures action.Ask? <==> CallbackPrefix <= data
    ensures action.HashIgnored? <==> !(CallbackPrefix <= data) && HashPrefix <= data
    ensures action.Ask? ==> action.question != [] && SqlMarker <= ToLower(action.question)
  {
    if CallbackPrefix <= data then Ask(SqlQuestion(data[|CallbackPrefix|..]))
    else if HashPrefix <= data then HashIgnored
    else Ignore
  }

  /** The query a pressed button issues, if any; `chatId` is the chat's id as text. */
  function CallbackRequest(data: string, chatId: string): (request: Option<QueryRequest>)
    ensures request.Some? <==> CallbackPrefix <= data
    ensures request.Some? ==> request.value == QueryRequest(DecodeCallback(data).question, true, true, false, Some(chatId), Auto)
  {
    match DecodeCallback(data)
    case Ask(question) =>
      if question == [] then None
      else Some(QueryRequest(question, true, true, false, Some(chatId), Auto))
    case HashIgnored => None
    case Ignore => None
  }

  /**
   * A button made by `create_suggestions_keyboard` decodes to its question's
   * longest prefix of at most 58 bytes that ends at a character boundary,
   * marked as SQL; a short question comes back whole.
   */
  lemma TokenRoundTrip(question: string, chatId: string)
    ensures DecodeCallback(CallbackToken(question)) == Ask(SqlQuestion(FitPrefix(question, QuestionBudget())))
    ensures ByteLen(question) <= QuestionBudget() ==>
      CallbackRequest(CallbackToken(question), chatId) == Some(QueryRequest(SqlQuestion(question), true, true, false, Some(chatId), Auto))
  {
    var fragment := FitPrefix(question, QuestionBudget());
    assert CallbackToken(question) == CallbackPrefix + fragment;
    assert (CallbackPrefix + fragment)[|CallbackPrefix|..] == fragment;
    if ByteLen(question) <= QuestionBudget() {
      FitPrefixWhole(question, QuestionBudget());
    }
  }

  // ------------------------------------------------------- callback replies

  /** The keyboard of a callback reply: the analysis suggestions only, with no defaults. */
  function CallbackKeyboard(r: QueryResponse): (q: Option<seq<string>>)
    ensures q.Some? ==> q == KeyboardQuestions(r)
    ensures q.None? <==> r.analysis.None? || r.analysis.value.suggestedQuestions == []
  {
    if r.analysis.Some? && r.analysis.value.suggestedQuestions != [] then Some(r.analysis.value.suggestedQuestions)
    else None
  }

  /** Where a typed question would get the two default suggestions, a pressed button gets no keyboard. */
  lemma NoDefaultsAfterButton(r: QueryResponse)
    requires r.analysis.None? || r.analysis.value.suggestedQuestions == []
    requires r.data != [] && r.rowCount > 0
    ensures CallbackKeyboard(r) == None
    ensures KeyboardQuestions(r) == Some(DefaultSuggestions)
  {
  }

  datatype Reply = Reply(text: string, keyboard: Option<seq<string>>)

  /** The one message a successful callback query sends: the narrative as it came, or the whole report. */
  function CallbackReply(r: QueryResponse): (reply: Reply)
    ensures r.textResponse.Some? ==> reply == Reply(r.textResponse.value, None)
    ensures r.textResponse.None? ==> EndsWith(reply.text, TimingLine(r)) && reply.keyboard == CallbackKeyboard(r)
  {
    match r.textResponse
    case Some(t) => Reply(t, None)
    case None =>
      TimingLast(r);
      Reply(Render(r), CallbackKeyboard(r))
  }
}
