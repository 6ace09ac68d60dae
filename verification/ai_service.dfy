/** The summarization boundary: the configuration check, the two prompts,
    the parser for the sentiment/insights reply, and the mapping of every
    provider outcome (including failures) to a fixed-shape result. The
    language-model call itself is a parameter: a function from the request
    sent to the outcome observed. */
module AiService {
  import opened Wrappers
  import opened Seqs
  import opened Text

  // ---- configuration ----

  /** The process environment. */
  type Env = map<string, string>

  const KeyVar := "AZURE_OPENAI_KEY"
  const EndpointVar := "AZURE_OPENAI_ENDPOINT"
  const ModelVar := "AZURE_OPENAI_MODEL_NAME"

  /** The variables the client needs, in the order they are reported. */
  const RequiredVars := [KeyVar, EndpointVar, ModelVar]

  /** `os.environ.get(name)` is truthy: present and non-empty. */
  predicate IsSet(env: Env, name: string) {
    name in env && env[name] != ""
  }

  function Unset(env: Env): string -> bool {
    (name: string) => !IsSet(env, name)
  }

  /** The required variables that are absent or empty, in declared order. */
  function MissingVars(env: Env): (missing: seq<string>)
    ensures forall v :: v in missing <==> v in RequiredVars && !IsSet(env, v)
    ensures IsSubsequence(missing, RequiredVars)
  {
    FilterSpec(RequiredVars, Unset(env));
    Filter(RequiredVars, Unset(env))
  }

  const MissingPrefix := "Missing Azure OpenAI config: "

  /** The `(is_configured, error_msg)` pair. */
  datatype ConfigCheck = ConfigCheck(configured: bool, error: Option<string>)

  /** The message names every variable it is given. */
  lemma MessageNamesAll(missing: seq<string>)
    ensures forall v :: v in missing ==> Occurs(v, MissingPrefix + Join(missing, ", "))
  {
    var msg := MissingPrefix + Join(missing, ", ");
    forall v | v in missing ensures Occurs(v, msg) {
      var i :| 0 <= i < |missing| && missing[i] == v;
      JoinContains(missing, ", ", i);
      var k :| OccursAt(v, Join(missing, ", "), k);
      assert msg[|MissingPrefix| + k..|MissingPrefix| + k + |v|] == Join(missing, ", ")[k..k + |v|];
      assert OccursAt(v, msg, |MissingPrefix| + k);
    }
  }

  lemma NothingMissing(env: Env)
    ensures MissingVars(env) == [] <==> forall v :: v in RequiredVars ==> IsSet(env, v)
  {
    var missing := MissingVars(env);
    if missing != [] {
      assert missing[0] in missing;
    }
  }

  /** `_check_azure_openai_config`: configured exactly when every required
      variable is set; otherwise the message names every missing one. */
  function CheckConfig(env: Env): (r: ConfigCheck)
    ensures r.configured <==> forall v :: v in RequiredVars ==> IsSet(env, v)
    ensures r.configured <==> r.error.None?
    ensures !r.configured ==>
              && r.error.Some?
              && StartsWith(r.error.value, MissingPrefix)
              && forall v :: v in RequiredVars && !IsSet(env, v) ==> Occurs(v, r.error.value)
  {
    var missing := MissingVars(env);
    NothingMissing(env);
    if missing != [] then
      var msg := MissingPrefix + Join(missing, ", ");
      MessageNamesAll(missing);
      assert msg[..|MissingPrefix|] == MissingPrefix;
      ConfigCheck(false, Some(msg))
    else
      ConfigCheck(true, None)
  }

  // ---- requests ----

  /** One chat-completion call: model, system persona, user prompt,
      temperature in tenths, and the output token bound. */
  datatype Request = Request(model: string, system: string, prompt: string, temperatureTenths: nat, maxTokens: nat)

  /** What the call produced: the reply text, or the exception it raised. */
  datatype Outcome = Ok(text: string) | ConnErr | RateLimit | ApiErr(message: string) | Other

  /** A result together with the request sent to obtain it, if any. */
  datatype Reply<T> = Reply(value: T, sent: Option<Request>)

  const DefaultModel := "gpt-4o-mini"

  /** `os.environ.get("AZURE_OPENAI_MODEL_NAME", "gpt-4o-mini")`: the
      variable's value whenever it is present, even empty. */
  function ModelName(env: Env): (r: string)
    ensures ModelVar in env ==> r == env[ModelVar]
    ensures ModelVar !in env ==> r == DefaultModel
  {
    if ModelVar in env then env[ModelVar] else DefaultModel
  }

  /** Requests are only sent once the check passed, and then the model
      variable is set, so the `gpt-4o-mini` default is never used. */
  lemma ConfiguredModel(env: Env)
    requires CheckConfig(env).configured
    ensures ModelVar in env && ModelName(env) == env[ModelVar] != ""
  {
    assert RequiredVars[2] == ModelVar;
    assert IsSet(env, ModelVar);
  }

  const SummaryHeader := "Summarize the following journal entries in 2-3 sentences. \nParaphrase naturally and capture the main themes and emotions.\n\nJournal entries:\n"
  const SummaryFooter := "\n\nSummary:"
  const InsightsHeader := "Analyze these journal entries and provide:\n1. Overall sentiment (positive, neutral, negative, mixed)\n2. 2-3 key insights or patterns\n\nJournal entries:\n"
  const InsightsFooter := "\n\nRespond in this exact format:\nSentiment: [sentiment]\nInsights:\n- [insight 1]\n- [insight 2]\n- [insight 3]"

  /** The entries text placed verbatim between a fixed header and footer. */
  function Frame(header: string, text: string, footer: string): (p: string)
    ensures |p| == |header| + |text| + |footer|
  {
    header + text + footer
  }

  /** The text a framed prompt carries, if `p` has that frame. */
  function Unframe(header: string, p: string, footer: string): Option<string> {
    if |header| + |footer| <= |p| && p[..|header|] == header && p[|p| - |footer|..] == footer then
      Some(p[|header|..|p| - |footer|])
    else None
  }

  /** Framing loses nothing: the entries text is recovered from the prompt. */
  lemma UnframeFrame(header: string, text: string, footer: string)
    ensures Unframe(header, Frame(header, text, footer), footer) == Some(text)
  {
    var p := Frame(header, text, footer);
    assert p[..|header|] == header;
    assert p[|p| - |footer|..] == footer;
    assert p[|header|..|p| - |footer|] == text;
  }

  /** Different entries texts give different prompts. */
  lemma FrameInjective(header: string, a: string, b: string, footer: string)
    requires Frame(header, a, footer) == Frame(header, b, footer)
    ensures a == b
  {
    UnframeFrame(header, a, footer);
    UnframeFrame(header, b, footer);
  }

  function SummaryPrompt(entriesText: string): string {
    Frame(SummaryHeader, entriesText, SummaryFooter)
  }

  function InsightsPrompt(entriesText: string): string {
    Frame(InsightsHeader, entriesText, InsightsFooter)
  }

  /** Both prompts carry the entries text verbatim. */
  lemma PromptsCarryEntries(entriesText: string)
    ensures Unframe(SummaryHeader, SummaryPrompt(entriesText), SummaryFooter) == Some(entriesText)
    ensures Unframe(InsightsHeader, InsightsPrompt(entriesText), InsightsFooter) == Some(entriesText)
  {
    UnframeFrame(SummaryHeader, entriesText, SummaryFooter);
    UnframeFrame(InsightsHeader, entriesText, InsightsFooter);
  }

  const SummarySystem := "You are a thoughtful journal assistant. Create natural, paraphrased summaries."
  const InsightsSystem := "You are a thoughtful journal assistant. Analyze sentiment and extract key themes."

  /** The summary call: the configured model at temperature 0.7 with at
      most 200 output tokens, whose prompt carries the entries text. */
  function SummaryRequest(env: Env, entriesText: string): (r: Request)
    ensures r.model == ModelName(env) && r.system == SummarySystem
    ensures Unframe(SummaryHeader, r.prompt, SummaryFooter) == Some(entriesText)
    ensures r.temperatureTenths == 7 && r.maxTokens == 200
  {
    UnframeFrame(SummaryHeader, entriesText, SummaryFooter);
    Request(ModelName(env), SummarySystem, SummaryPrompt(entriesText), 7, 200)
  }

  /** The insights call: the configured model at temperature 0.5 with at
      most 300 output tokens, whose prompt carries the entries text. */
  function InsightsRequest(env: Env, entriesText: string): (r: Request)
    ensures r.model == ModelName(env) && r.system == InsightsSystem
    ensures Unframe(InsightsHeader, r.prompt, InsightsFooter) == Some(entriesText)
    ensures r.temperatureTenths == 5 && r.maxTokens == 300
  {
    UnframeFrame(InsightsHeader, entriesText, InsightsFooter);
    Request(ModelName(env), InsightsSystem, InsightsPrompt(entriesText), 5, 300)
  }

  /** Python's `s[:n]`. */
  function Take(s: string, n: nat): (r: string)
    ensures r <= s
    ensures |r| == if |s| <= n then |s| else n
  {
    if |s| <= n then s else s[..n]
  }

  // ---- get_summary ----

  /** The warning sign every summary fallback starts with. */
  const Warn := "\U{26a0}\U{fe0f} "
  const NotConfiguredSummary := Warn + "Azure OpenAI not configured. Please set AZURE_OPENAI_KEY, AZURE_OPENAI_ENDPOINT, and AZURE_OPENAI_MODEL_NAME."
  const UnavailableSummary := Warn + "Service temporarily unavailable. Please try again later."
  const SummaryErrorPrefix := Warn + "Error generating summary: "
  const GenericSummaryError := Warn + "Error generating summary. Please try again."

  /** `get_summary`: never fails. Unconfigured, it answers with a fixed
      notice and sends nothing; otherwise it sends one summary request and
      returns the reply stripped, or a fixed notice for each kind of
      failure, quoting at most 100 characters of an API error. */
  function GetSummary(env: Env, entriesText: string, provider: Request -> Outcome): (r: Reply<string>)
    ensures !CheckConfig(env).configured ==> r == Reply(NotConfiguredSummary, None)
    ensures CheckConfig(env).configured ==> r.sent == Some(SummaryRequest(env, entriesText))
    ensures CheckConfig(env).configured ==>
              match provider(SummaryRequest(env, entriesText))
              case Ok(text) => r.value == Strip(text)
              case ConnErr => r.value == UnavailableSummary
              case RateLimit => r.value == UnavailableSummary
              case ApiErr(m) =>
                && StartsWith(r.value, SummaryErrorPrefix)
                && r.value[|SummaryErrorPrefix|..] <= m
                && |r.value| == |SummaryErrorPrefix| + (if |m| <= 100 then |m| else 100)
                && (|m| <= 100 ==> r.value == SummaryErrorPrefix + m)
              case Other => r.value == GenericSummaryError
  {
    if !CheckConfig(env).configured then Reply(NotConfiguredSummary, None)
    else
      var request := SummaryRequest(env, entriesText);
      var text := match provider(request)
        case Ok(t) => Strip(t)
        case ConnErr => UnavailableSummary
        case RateLimit => UnavailableSummary
        case ApiErr(m) =>
          var quoted := Take(m, 100);
          assert (SummaryErrorPrefix + quoted)[|SummaryErrorPrefix|..] == quoted;
          SummaryErrorPrefix + quoted
        case Other => GenericSummaryError;
      Reply(text, Some(request))
  }

  // ---- get_insights: parsing the reply ----

  /** The `{"sentiment", "insights"}` result. */
  datatype Insights = Insights(sentiment: string, insights: seq<string>)

  const SentimentMarker := "Sentiment:"
  const InsightMarker := "- "
  const Unknown := "unknown"
  const NoInsights := "No specific insights extracted."

  predicate IsSentimentLine(line: string) {
    StartsWith(line, SentimentMarker)
  }

  /** A line the parser collects as an insight: it starts with `- ` and was
      not already taken as a sentiment line. */
  predicate IsInsightLine(line: string) {
    !IsSentimentLine(line) && StartsWith(line, InsightMarker)
  }

  /** `line.replace("Sentiment:", "").strip().lower()`: lower-case, and no
      longer than the line. */
  function SentimentOf(line: string): (r: string)
    ensures |r| <= |line|
    ensures forall i :: 0 <= i < |r| ==> !('A' <= r[i] <= 'Z')
  {
    Lower(Strip(RemoveAll(line, SentimentMarker)))
  }

  /** A sentiment line names its sentiment after the marker and a space;
      the name comes back lower-cased, so `Sentiment: Positive` yields
      `positive`. */
  lemma SentimentOfWord(word: string)
    requires |word| > 0 && !IsSpace(word[0]) && !IsSpace(word[|word| - 1])
    requires !Occurs(SentimentMarker, " " + word)
    ensures SentimentOf(SentimentMarker + " " + word) == Lower(word)
  {
    var rest := " " + word;
    assert SentimentMarker + " " + word == SentimentMarker + rest;
    RemoveAllLeading(SentimentMarker, rest);
    assert rest == [' '] + word;
    StripLeadingSpace(' ', word);
  }

  /** `line.replace("- ", "").strip()`: every `- `, not only the leading
      one, is dropped. The result is no longer than the line and has no
      whitespace at either end. */
  function InsightOf(line: string): (r: string)
    ensures |r| <= |line|
    ensures Trimmed(r)
  {
    StripEnds(RemoveAll(line, InsightMarker));
    Strip(RemoveAll(line, InsightMarker))
  }

  /** `replace(pat, "")` only deletes: what is left of the line keeps its
      order. */
  lemma {:induction false} RemoveAllSubsequence(s: string, pat: string)
    requires |pat| > 0
    ensures IsSubsequence(RemoveAll(s, pat), s)
    decreases |s|
  {
    if |s| < |pat| {
      SubsequenceRefl(s);
    } else if s[..|pat|] == pat {
      RemoveAllSubsequence(s[|pat|..], pat);
      SubsequenceSuffix(RemoveAll(s[|pat|..], pat), s, |pat|);
    } else {
      RemoveAllSubsequence(s[1..], pat);
      SubsequenceCons(RemoveAll(s[1..], pat), s, true);
    }
  }

  /** The sentiment the reply declares: read from its last sentiment line,
      `unknown` when it has none. It is `unknown` or the sentiment of one
      of the lines. */
  function LastSentiment(lines: seq<string>): (r: string)
    ensures r == Unknown || exists k :: 0 <= k < |lines| && IsSentimentLine(lines[k]) && r == SentimentOf(lines[k])
  {
    LastMatch(lines, IsSentimentLine, SentimentOf, Unknown)
  }

  /** The cleaned insight lines, in the order they appear: at most one per
      line. */
  function InsightLines(lines: seq<string>): (r: seq<string>)
    ensures |r| <= |lines|
  {
    FilterMap(lines, IsInsightLine, InsightOf)
  }

  /** No insight is collected exactly when no line is an insight line. */
  lemma InsightLinesEmpty(lines: seq<string>)
    ensures InsightLines(lines) == [] <==> forall i :: 0 <= i < |lines| ==> !IsInsightLine(lines[i])
  {
    FilterMapEmpty(lines, IsInsightLine, InsightOf);
  }

  /** The insights reported: the collected ones, or the single placeholder
      when there are none. */
  function InsightsOrPlaceholder(lines: seq<string>): (r: seq<string>)
    ensures |r| >= 1
  {
    var found := InsightLines(lines);
    if found == [] then [NoInsights] else found
  }

  /** Sentiment is `unknown` when no line carries the marker, and otherwise
      comes from the last line that does. */
  lemma LastSentimentSpec(lines: seq<string>)
    ensures (forall i :: 0 <= i < |lines| ==> !IsSentimentLine(lines[i])) ==> LastSentiment(lines) == Unknown
    ensures forall k :: 0 <= k < |lines| && IsSentimentLine(lines[k]) && (forall j :: k < j < |lines| ==> !IsSentimentLine(lines[j])) ==>
              LastSentiment(lines) == SentimentOf(lines[k])
  {
    if forall i :: 0 <= i < |lines| ==> !IsSentimentLine(lines[i]) {
      LastMatchNone(lines, IsSentimentLine, SentimentOf, Unknown);
    }
    forall k | 0 <= k < |lines| && IsSentimentLine(lines[k]) && (forall j :: k < j < |lines| ==> !IsSentimentLine(lines[j]))
      ensures LastSentiment(lines) == SentimentOf(lines[k])
    {
      LastMatchAt(lines, IsSentimentLine, SentimentOf, Unknown, k);
    }
  }

  /** The collected insights are exactly the insight lines, cleaned, in
      order: the lines the marker selects, mapped through `InsightOf`. */
  lemma InsightLinesSpec(lines: seq<string>)
    ensures |InsightLines(lines)| == |Filter(lines, IsInsightLine)|
    ensures forall j :: 0 <= j < |InsightLines(lines)| ==> InsightLines(lines)[j] == InsightOf(Filter(lines, IsInsightLine)[j])
  {
    FilterMapSpec(lines, IsInsightLine, InsightOf);
  }

  /** The placeholder is reported when no line is an insight line; a
      reply with insight lines reports exactly those. */
  lemma InsightsByCase(lines: seq<string>)
    ensures (forall i :: 0 <= i < |lines| ==> !IsInsightLine(lines[i])) ==> InsightsOrPlaceholder(lines) == [NoInsights]
    ensures (exists i :: 0 <= i < |lines| && IsInsightLine(lines[i])) ==> InsightsOrPlaceholder(lines) == InsightLines(lines) != []
  {
    InsightLinesSpec(lines);
    if exists i :: 0 <= i < |lines| && IsInsightLine(lines[i]) {
      var i :| 0 <= i < |lines| && IsInsightLine(lines[i]);
      assert lines[i] in Filter(lines, IsInsightLine);
    } else {
      FilterDropsAll(lines, IsInsightLine);
    }
  }

  /** A line starting with `- ` never starts with `Sentiment:`, so the
      `elif` never hides an insight line. */
  lemma MarkersExclusive(line: string)
    requires StartsWith(line, InsightMarker)
    ensures !IsSentimentLine(line) && IsInsightLine(line)
  {
    assert line[0] == '-';
  }

  /** Every `- ` goes, not only the leading one: `- a - b` yields `a b`. */
  lemma InsightDropsInnerMarkers()
    ensures InsightOf("- a - b") == "a b"
  {
    RemoveAllThroughout();
    StripNoop("a b");
  }

  /** The placeholder does not mean the reply had no insight line: a reply
      whose one insight is the placeholder text reads the same. */
  lemma PlaceholderLookalike()
    ensures IsInsightLine("- " + NoInsights)
    ensures InsightsOrPlaceholder(["- " + NoInsights]) == [NoInsights]
  {
    var line := "- " + NoInsights;
    assert IsInsightLine(line) by {
      assert line[..2] == InsightMarker;
      assert line[0] != SentimentMarker[0];
    }
    assert InsightOf(line) == NoInsights by {
      NoInsightsHasNoDash();
      AbsentHead(InsightMarker, NoInsights);
      RemoveAllLeading(InsightMarker, NoInsights);
      assert NoInsights[0] == 'N' && NoInsights[|NoInsights| - 1] == '.';
      VisibleNotSpace('N');
      VisibleNotSpace('.');
      StripNoop(NoInsights);
    }
    assert InsightLines([line]) == [NoInsights] by {
      assert [line][..0] == [];
    }
  }

  /** The placeholder text holds no `-`. */
  lemma NoInsightsHasNoDash()
    ensures forall i :: 0 <= i < |NoInsights| ==> NoInsights[i] != '-'
  {
  }

  /** One more line moves the parse on by exactly that line. */
  lemma ParseStep(lines: seq<string>, i: int)
    requires 0 <= i < |lines|
    ensures LastSentiment(lines[..i + 1]) ==
              if IsSentimentLine(lines[i]) then SentimentOf(lines[i]) else LastSentiment(lines[..i])
    ensures InsightLines(lines[..i + 1]) ==
              InsightLines(lines[..i]) + (if IsInsightLine(lines[i]) then [InsightOf(lines[i])] else [])
  {
    LastMatchStep(lines, IsSentimentLine, SentimentOf, Unknown, i);
    FilterMapStep(lines, IsInsightLine, InsightOf, i);
  }

  /** The loop of `get_insights` over the stripped reply split at `\n`. */
  method ParseInsights(text: string) returns (r: Insights)
    ensures r.sentiment == LastSentiment(Split(text, '\n'))
    ensures r.insights == InsightsOrPlaceholder(Split(text, '\n'))
  {
    var lines := Split(text, '\n');
    var sentiment := Unknown;
    var insights: seq<string> := [];
    var i := 0;
    while i < |lines|
      invariant 0 <= i <= |lines|
      invariant sentiment == LastSentiment(lines[..i])
      invariant insights == InsightLines(lines[..i])
    {
      var line := lines[i];
      ParseStep(lines, i);
      if IsSentimentLine(line) {
        sentiment := SentimentOf(line);
      } else if StartsWith(line, InsightMarker) {
        insights := insights + [InsightOf(line)];
      }
      i := i + 1;
    }
    assert lines[..i] == lines;
    r := Insights(sentiment, if insights == [] then [NoInsights] else insights);
  }

  // ---- get_insights: the outcome mapping ----

  const NotConfiguredInsight := "Azure OpenAI not configured. Cannot extract insights."
  const UnavailableInsight := "Service temporarily unavailable. Please try again later."
  const InsightErrorPrefix := "Error extracting insights: "
  const GenericInsightError := "Error extracting insights. Please try again."

  /** `get_insights`: never fails and always reports at least one insight.
      Unconfigured, it sends nothing; otherwise it sends one insights
      request and parses the stripped reply, while every failure gives
      sentiment `unknown` and one fixed insight, quoting at most 50
      characters of an API error. */
  method GetInsights(env: Env, entriesText: string, provider: Request -> Outcome) returns (r: Reply<Insights>)
    ensures |r.value.insights| >= 1
    ensures !CheckConfig(env).configured || !provider(InsightsRequest(env, entriesText)).Ok? ==>
              r.value.sentiment == Unknown && |r.value.insights| == 1
    ensures !CheckConfig(env).configured ==> r == Reply(Insights(Unknown, [NotConfiguredInsight]), None)
    ensures CheckConfig(env).configured ==> r.sent == Some(InsightsRequest(env, entriesText))
    ensures CheckConfig(env).configured ==>
              match provider(InsightsRequest(env, entriesText))
              case Ok(text) =>
                && r.value.sentiment == LastSentiment(Split(Strip(text), '\n'))
                && r.value.insights == InsightsOrPlaceholder(Split(Strip(text), '\n'))
              case ConnErr => r.value == Insights(Unknown, [UnavailableInsight])
              case RateLimit => r.value == Insights(Unknown, [UnavailableInsight])
              case ApiErr(m) =>
                && r.value.sentiment == Unknown
                && |r.value.insights| == 1
                && StartsWith(r.value.insights[0], InsightErrorPrefix)
                && r.value.insights[0][|InsightErrorPrefix|..] <= m
                && |r.value.insights[0]| == |InsightErrorPrefix| + (if |m| <= 50 then |m| else 50)
                && (|m| <= 50 ==> r.value.insights[0] == InsightErrorPrefix + m)
              case Other => r.value == Insights(Unknown, [GenericInsightError])
  {
    if !CheckConfig(env).configured {
      return Reply(Insights(Unknown, [NotConfiguredInsight]), None);
    }
    var request := InsightsRequest(env, entriesText);
    var result: Insights;
    match provider(request) {
      case Ok(text) =>
        result := ParseInsights(Strip(text));
      case ConnErr =>
        result := Insights(Unknown, [UnavailableInsight]);
      case RateLimit =>
        result := Insights(Unknown, [UnavailableInsight]);
      case ApiErr(m) =>
        var quoted := Take(m, 50);
        assert (InsightErrorPrefix + quoted)[|InsightErrorPrefix|..] == quoted;
        result := Insights(Unknown, [InsightErrorPrefix + quoted]);
      case Other =>
        result := Insights(Unknown, [GenericInsightError]);
    }
    r := Reply(result, Some(request));
  }

  /** A summary that did not come from the provider's text is one of the
      fixed notices, all of which begin with the warning sign. */
  lemma SummaryFailuresWarn(env: Env, entriesText: string, provider: Request -> Outcome)
    requires !CheckConfig(env).configured || !provider(SummaryRequest(env, entriesText)).Ok?
    ensures StartsWith(GetSummary(env, entriesText, provider).value, Warn)
  {
    var r := GetSummary(env, entriesText, provider);
    assert r.value[..|Warn|] == Warn;
  }
}
