/**
 * The model-facing part of the analyser: the token budget sent with each
 * chat completion request, the three-attempt retry around the chat API, and
 * the three report generators that pick the last candles, build the prompt
 * and hand the model's answer to the report formatter.
 *
 * The chat API is an oracle `api(attempt, maxTokens)`: what it answers on
 * each attempt is an input of the model, so a proof covers every behaviour
 * of the remote service, raising included.
 */
module GptAnalysis {
  import opened Wrappers
  import Text
  import Config
  import PromptFormatter

  // ---------------------------------------------------------------------------
  // Token budget
  // ---------------------------------------------------------------------------

  /** Approximate context sizes, in tokens, of the models the bot knows by name. */
  const ModelCapacities: map<string, nat> :=
    map["gpt-4o-mini" := 16384, "gpt-4o" := 128000, "gpt-3.5-turbo" := 4096]

  /** The context size used for any other model. */
  const DefaultCapacity: nat := 8192

  const MaxRetries: nat := 3

  /** `MODEL_CAPACITY.get(model, DEFAULT_CAPACITY)`. */
  function ModelCapacity(model: string): (n: nat)
    ensures 4096 <= n <= 128000
    ensures model !in ModelCapacities ==> n == DefaultCapacity
  {
    if model in ModelCapacities then ModelCapacities[model] else DefaultCapacity
  }

  /** With `GPT_MODEL` unset the model is "gpt-4o", whose table entry is 128000. */
  lemma UnsetModelCapacity(getenv: string -> Option<string>)
    requires getenv("GPT_MODEL") == None
    ensures ModelCapacity(Config.GptModel(getenv)) == 128000
  {
  }

  /** The prompt size estimate: a quarter of the characters, rounded down. */
  function PromptTokensEstimate(userText: string, systemPrompt: string): (n: nat)
    ensures 4 * n <= |userText| + |systemPrompt| < 4 * n + 4
  {
    |userText + systemPrompt| / 4
  }

  /** The output budget: what is left of the context after a 50-token margin, clamped to [800, 1500]. */
  function MaxOutputTokens(limit: int, estimate: int): (n: int)
    ensures 800 <= n <= 1500
    ensures 800 <= limit - estimate - 50 <= 1500 ==> n == limit - estimate - 50
    ensures limit - estimate - 50 < 800 ==> n == 800
    ensures limit - estimate - 50 > 1500 ==> n == 1500
  {
    var left := limit - estimate - 50;
    var capped := if left < 1500 then left else 1500;
    if 800 < capped then capped else 800
  }

  /** A longer prompt never gets a larger output budget. */
  lemma BudgetShrinksAsPromptGrows(limit: int, e1: int, e2: int)
    requires e1 <= e2
    ensures MaxOutputTokens(limit, e2) <= MaxOutputTokens(limit, e1)
  {
  }

  /** The budget one request of the given prompt is sent with. */
  function Budget(userText: string, systemPrompt: string, model: string): int {
    MaxOutputTokens(ModelCapacity(model), PromptTokensEstimate(userText, systemPrompt))
  }

  // ---------------------------------------------------------------------------
  // Chat completion with retry
  // ---------------------------------------------------------------------------

  /** What one request gives back: an exception, or a message whose content may be null. */
  datatype Reply = Raised | Returned(content: Option<string>)

  /** The answer an attempt contributes: its stripped content, when there is content and it strips to something. */
  function Usable(reply: Reply): Option<string> {
    match reply
    case Returned(Some(c)) => if c != [] && Text.Strip(c) != [] then Some(Text.Strip(c)) else None
    case _ => None
  }

  /** An attempt has an answer exactly when its content is present and not blank; the answer is never empty. */
  lemma UsableMeaning(reply: Reply)
    ensures Usable(reply).Some? <==> reply.Returned? && reply.content.Some? && !Text.IsBlank(reply.content.value)
    ensures Usable(reply).Some? ==> Usable(reply).value == Text.Strip(reply.content.value) != []
  {
    if reply.Returned? && reply.content.Some? {
      Text.StripEmptyIffBlank(reply.content.value);
    }
  }

  /** The answer of the first attempt from `attempt` on that has one, if any. */
  function FirstUsable(api: (nat, int) -> Reply, maxTokens: int, attempt: nat): Option<string>
    decreases MaxRetries + 1 - attempt
  {
    if attempt > MaxRetries then None
    else match Usable(api(attempt, maxTokens))
      case Some(s) => Some(s)
      case None => FirstUsable(api, maxTokens, attempt + 1)
  }

  /** The retry loop gives up exactly when no attempt up to the third has an answer. */
  lemma {:induction false} FirstUsableNoneIff(api: (nat, int) -> Reply, maxTokens: int, from: nat)
    ensures FirstUsable(api, maxTokens, from).None?
            <==> forall k :: from <= k <= MaxRetries ==> Usable(api(k, maxTokens)).None?
    decreases MaxRetries + 1 - from
  {
    if from <= MaxRetries && Usable(api(from, maxTokens)).None? {
      FirstUsableNoneIff(api, maxTokens, from + 1);
    }
  }

  /** Attempt `k` answers and every attempt from `from` before it had no answer. */
  predicate AnswersFirst(api: (nat, int) -> Reply, maxTokens: int, from: nat, k: nat) {
    && from <= k <= MaxRetries
    && Usable(api(k, maxTokens)).Some?
    && forall j :: from <= j < k ==> Usable(api(j, maxTokens)).None?
  }

  /** A first answer after an attempt without one is also first counting that attempt. */
  lemma AnswersFirstEarlier(api: (nat, int) -> Reply, maxTokens: int, from: nat, k: nat)
    requires Usable(api(from, maxTokens)).None? && AnswersFirst(api, maxTokens, from + 1, k)
    ensures AnswersFirst(api, maxTokens, from, k)
  {
  }

  /** An answer comes from some attempt up to the third, all of whose predecessors had none. */
  lemma {:induction false} FirstUsableWitness(api: (nat, int) -> Reply, maxTokens: int, from: nat) returns (k: nat)
    requires FirstUsable(api, maxTokens, from).Some?
    ensures AnswersFirst(api, maxTokens, from, k)
    ensures Usable(api(k, maxTokens)) == FirstUsable(api, maxTokens, from)
    decreases MaxRetries + 1 - from
  {
    if Usable(api(from, maxTokens)).Some? {
      k := from;
    } else {
      k := FirstUsableWitness(api, maxTokens, from + 1);
      AnswersFirstEarlier(api, maxTokens, from, k);
    }
  }

  /** No attempt from `from` up to (excluding) `upTo` gave usable content. */
  predicate NoAnswerBetween(api: (nat, int) -> Reply, maxTokens: int, from: nat, upTo: nat)
    decreases upTo - from
  {
    from < upTo ==> Usable(api(from, maxTokens)).None? && NoAnswerBetween(api, maxTokens, from + 1, upTo)
  }

  /** `NoAnswerBetween` holds exactly when every attempt in the range gave no usable content. */
  lemma {:induction false} NoAnswerBetweenMeaning(api: (nat, int) -> Reply, maxTokens: int, from: nat, upTo: nat)
    ensures NoAnswerBetween(api, maxTokens, from, upTo)
            <==> forall j :: from <= j < upTo ==> Usable(api(j, maxTokens)).None?
    decreases upTo - from
  {
    if from < upTo {
      NoAnswerBetweenMeaning(api, maxTokens, from + 1, upTo);
    }
  }

  /** Attempts without an answer are skipped over. */
  lemma {:induction false} FirstUsableSkips(api: (nat, int) -> Reply, maxTokens: int, from: nat, upTo: nat)
    requires from <= upTo <= MaxRetries + 1
    requires NoAnswerBetween(api, maxTokens, from, upTo)
    ensures FirstUsable(api, maxTokens, from) == FirstUsable(api, maxTokens, upTo)
    decreases upTo - from
  {
    if from < upTo {
      FirstUsableSkips(api, maxTokens, from + 1, upTo);
    }
  }

  /**
   * `chat_completion`: up to three requests, each with the same budget; the
   * first non-blank content, stripped, is the result, otherwise None.
   * `attempts` counts the requests made.
   */
  method ChatCompletion(userText: string, systemPrompt: string, model: string, api: (nat, int) -> Reply)
    returns (r: Option<string>, ghost attempts: nat)
    ensures r == FirstUsable(api, Budget(userText, systemPrompt, model), 1)
    ensures 1 <= attempts <= MaxRetries
    ensures r.Some? ==> r == Usable(api(attempts, Budget(userText, systemPrompt, model)))
    ensures r.None? ==> attempts == MaxRetries
    ensures NoAnswerBetween(api, Budget(userText, systemPrompt, model), 1, attempts)
  {
    var modelLimit := ModelCapacity(model);
    var promptTokensEst := PromptTokensEstimate(userText, systemPrompt);
    var maxOutputTokens := MaxOutputTokens(modelLimit, promptTokensEst);
    assert maxOutputTokens == Budget(userText, systemPrompt, model);
    var attempt: nat := 1;
    attempts := 0;
    while attempt <= MaxRetries
      invariant 1 <= attempt <= MaxRetries + 1
      invariant attempts == attempt - 1
      invariant NoAnswerBetween(api, maxOutputTokens, 1, attempt)
    {
      attempts := attempt;
      var reply := api(attempt, maxOutputTokens);
      var content := Usable(reply);
      if content.Some? {
        FirstUsableSkips(api, maxOutputTokens, 1, attempt);
        return content, attempts;
      }
      attempt := attempt + 1;
    }
    FirstUsableSkips(api, maxOutputTokens, 1, attempt);
    return None, attempts;
  }

  // ---------------------------------------------------------------------------
  // Candles and prompts
  // ---------------------------------------------------------------------------

  /** Mid prices of a candle, as the strings the price feed sends. */
  datatype Mid = Mid(o: string, h: string, l: string, c: string)

  datatype Candle = Candle(time: string, mid: Mid)

  /** Python's `candles[-n:]`: the last `n` candles, or all of them when there are fewer (or when `n` is 0). */
  function LastN(candles: seq<Candle>, n: nat): (r: seq<Candle>)
    ensures |r| <= |candles| && r == candles[|candles| - |r|..]
    ensures n > 0 ==> |r| == if |candles| < n then |candles| else n
    ensures n == 0 ==> r == candles
  {
    if n == 0 || |candles| <= n then candles else candles[|candles| - n..]
  }

  /** Taking the last `n` twice changes nothing. */
  lemma LastNIdempotent(candles: seq<Candle>, n: nat)
    ensures LastN(LastN(candles, n), n) == LastN(candles, n)
  {
  }

  /** One prompt line: `"{time} | O:{o} H:{h} L:{l} C:{c}"`. */
  function RenderCandle(c: Candle): string {
    c.time + " | O:" + c.mid.o + " H:" + c.mid.h + " L:" + c.mid.l + " C:" + c.mid.c
  }

  function RenderCandles(candles: seq<Candle>): (r: seq<string>)
    ensures |r| == |candles|
    ensures forall i :: 0 <= i < |candles| ==> r[i] == RenderCandle(candles[i])
  {
    if candles == [] then [] else [RenderCandle(candles[0])] + RenderCandles(candles[1..])
  }

  /** `"\n".join(lines)`. */
  function JoinLines(lines: seq<string>): string
    decreases |lines|
  {
    if lines == [] then []
    else if |lines| == 1 then lines[0]
    else lines[0] + "\n" + JoinLines(lines[1..])
  }

  /** Every joined line occurs in the joined text. */
  lemma {:induction false} JoinLinesContainsEach(lines: seq<string>)
    ensures forall i :: 0 <= i < |lines| ==> Text.Contains(JoinLines(lines), lines[i])
    decreases |lines|
  {
    if |lines| == 1 {
      assert lines[0] <= JoinLines(lines);
    } else if |lines| > 1 {
      JoinLinesContainsEach(lines[1..]);
      var rest := JoinLines(lines[1..]);
      assert JoinLines(lines) == (lines[0] + "\n") + rest;
      assert lines[0] <= JoinLines(lines);
      forall i | 1 <= i < |lines|
        ensures Text.Contains(JoinLines(lines), lines[i])
      {
        assert lines[1..][i - 1] == lines[i];
        Text.ContainsAppendLeft(lines[0] + "\n", rest, lines[i]);
      }
    }
  }

  /** The candle block of a prompt: the last `n` candles, one per line. */
  function CandleData(candles: seq<Candle>, n: nat): string {
    JoinLines(RenderCandles(LastN(candles, n)))
  }

  /** The user message: an introduction, the candle block, a blank line, the instructions. */
  function UserText(intro: string, candleData: string, template: string): string {
    intro + candleData + "\n\n" + template + "\n"
  }

  /** Every candle of the window appears, rendered, in the user message. */
  lemma {:induction false} PromptShowsWindow(intro: string, candles: seq<Candle>, n: nat, template: string)
    ensures forall c :: c in LastN(candles, n) ==>
              Text.Contains(UserText(intro, CandleData(candles, n), template), RenderCandle(c))
  {
    var window := LastN(candles, n);
    var lines := RenderCandles(window);
    JoinLinesContainsEach(lines);
    forall c | c in window
      ensures Text.Contains(UserText(intro, CandleData(candles, n), template), RenderCandle(c))
    {
      var i :| 0 <= i < |window| && window[i] == c;
      assert lines[i] == RenderCandle(c);
      var data := JoinLines(lines);
      Text.ContainsAppendLeft(intro, data, RenderCandle(c));
      Text.ContainsAppendRight(intro + data, "\n\n", RenderCandle(c));
      Text.ContainsAppendRight(intro + data + "\n\n", template, RenderCandle(c));
      Text.ContainsAppendRight(intro + data + "\n\n" + template, "\n", RenderCandle(c));
    }
  }

  function DigitChar(d: nat): char
    requires d < 10
  {
    ('0' as int + d) as char
  }

  /** Python's `str(n)` for a non-negative integer. */
  function DecimalString(n: nat): (r: string)
    ensures r != []
    ensures forall i :: 0 <= i < |r| ==> Text.IsAsciiDigit(r[i])
    decreases n
  {
    if n < 10 then [DigitChar(n)] else DecimalString(n / 10) + [DigitChar(n % 10)]
  }

  /** The value of a string of decimal digits. */
  function DecimalValue(s: string): nat
    requires forall i :: 0 <= i < |s| ==> Text.IsAsciiDigit(s[i])
    decreases |s|
  {
    if s == [] then 0
    else
      assert Text.IsAsciiDigit(s[|s| - 1]);
      DecimalValue(s[..|s| - 1]) * 10 + (s[|s| - 1] as int - '0' as int)
  }

  /** The count printed in the session prompt reads back as the count. */
  lemma {:induction false} DecimalRoundTrip(n: nat)
    ensures DecimalValue(DecimalString(n)) == n
    decreases n
  {
    if n >= 10 {
      DecimalRoundTrip(n / 10);
      var s := DecimalString(n);
      assert s[..|s| - 1] == DecimalString(n / 10);
    }
  }

  // ---------------------------------------------------------------------------
  // Report generators
  // ---------------------------------------------------------------------------

  /** The time zone the reports print their local time in. */
  const ReportTimeZone := "Europe/Rome"

  const SessionWindowSize: nat := 100
  const MorningWindowSize: nat := 50
  const EveningWindowSize: nat := 120

  const SessionSystemPrompt := "You are a concise institutional trading analyst."
  const MorningSystemPrompt := "You are a concise institutional gold forecaster."
  const EveningSystemPrompt := "You are a concise institutional gold strategist."

  const MorningTitle := "Morning Forecast"
  const EveningTitle := "Evening Review"

  const MorningIntro := "\nAnalyze these overnight (Asia) candles for London session prep:\n"
  const EveningIntro := "\nReview these full-day XAU/USD candles:\n"

  /** The session prompt's introduction names how many candles follow. */
  function SessionIntro(count: nat, sessionName: string): string {
    "\nAnalyze these " + DecimalString(count) + " M5 candles for " + sessionName + ":\n"
  }

  /** The warning sign and its emoji presentation selector. */
  const Warning := "\U{26A0}\U{FE0F}"

  function NoCandleData(title: string): string {
    Warning + " No candle data for " + title
  }

  function NoOutput(title: string): string {
    Warning + " GPT returned no output for " + title
  }

  /** What a generator returns for the model's answer: the formatted report, or the no-output notice. */
  function Outcome(summary: Option<string>, title: string, clean: (string, string) -> string,
                   quoteIndex: nat, stamp: PromptFormatter.Stamp): string
    requires quoteIndex < |PromptFormatter.SniperQuotes|
  {
    if summary.Some? && summary.value != [] then
      PromptFormatter.FormatSpectralSummary(summary.value, title, clean, quoteIndex, stamp, ReportTimeZone)
    else NoOutput(title)
  }

  /**
   * An answer becomes a full report, which opens with the report header and
   * fits the chat limit plus the closing tags; no answer becomes the notice.
   */
  lemma OutcomeShape(api: (nat, int) -> Reply, maxTokens: int, title: string, clean: (string, string) -> string,
                     quoteIndex: nat, stamp: PromptFormatter.Stamp)
    requires quoteIndex < |PromptFormatter.SniperQuotes|
    ensures var r := Outcome(FirstUsable(api, maxTokens, 1), title, clean, quoteIndex, stamp);
            && (FirstUsable(api, maxTokens, 1).None? ==> r == NoOutput(title))
            && (FirstUsable(api, maxTokens, 1).Some? ==>
                  PromptFormatter.ReportHeader <= r
                  && |r| <= PromptFormatter.MaxTelegramMessageLength + 11)
  {
    var summary := FirstUsable(api, maxTokens, 1);
    if summary.Some? {
      var k := FirstUsableWitness(api, maxTokens, 1);
      UsableMeaning(api(k, maxTokens));
      Text.StripTrims(api(k, maxTokens).content.value);
      PromptFormatter.SpectralSummaryShape(summary.value, title, clean, quoteIndex, stamp, ReportTimeZone);
    }
  }

  /**
   * The shared shape of the three generators: an empty candle list gives the
   * "No candle data" notice without calling the model; otherwise the prompt is
   * built from the last `window` candles and the model's answer is formatted.
   * `calls` counts the requests sent to the model.
   */
  method GenerateReport(candles: seq<Candle>, window: nat, intro: string, systemPrompt: string, title: string,
                        template: string, model: string, api: (nat, int) -> Reply,
                        clean: (string, string) -> string, quoteIndex: nat, stamp: PromptFormatter.Stamp)
    returns (r: string, ghost calls: nat)
    requires quoteIndex < |PromptFormatter.SniperQuotes|
    ensures candles == [] ==> r == NoCandleData(title)
    ensures candles == [] ==> calls == 0
    ensures candles != [] ==> 1 <= calls <= MaxRetries
    ensures candles != [] ==>
              var userText := UserText(intro, CandleData(candles, window), template);
              r == Outcome(FirstUsable(api, Budget(userText, systemPrompt, model), 1), title, clean, quoteIndex, stamp)
  {
    if candles == [] {
      return NoCandleData(title), 0;
    }
    var candleData := JoinLines(RenderCandles(LastN(candles, window)));
    var userText := intro + candleData + "\n\n" + template + "\n";
    var summary;
    summary, calls := ChatCompletion(userText, systemPrompt, model, api);
    if summary.Some? && summary.value != [] {
      r := PromptFormatter.FormatSpectralSummary(summary.value, title, clean, quoteIndex, stamp, ReportTimeZone);
    } else {
      r := NoOutput(title);
    }
  }

  /** The user message of `generate_session_summary`. */
  function SessionPrompt(candles: seq<Candle>, sessionName: string, template: string): string {
    UserText(SessionIntro(|LastN(candles, SessionWindowSize)|, sessionName),
             CandleData(candles, SessionWindowSize), template)
  }

  /** `generate_session_summary`: the last 100 candles of the session. */
  method GenerateSessionSummary(candles: seq<Candle>, sessionName: string, template: string, model: string,
                                api: (nat, int) -> Reply, clean: (string, string) -> string,
                                quoteIndex: nat, stamp: PromptFormatter.Stamp)
    returns (r: string, ghost calls: nat)
    requires quoteIndex < |PromptFormatter.SniperQuotes|
    ensures candles == [] ==> r == NoCandleData(sessionName)
    ensures candles == [] ==> calls == 0
    ensures candles != [] ==> 1 <= calls <= MaxRetries
    ensures candles != [] ==>
              var maxTokens := Budget(SessionPrompt(candles, sessionName, template), SessionSystemPrompt, model);
              r == Outcome(FirstUsable(api, maxTokens, 1), sessionName, clean, quoteIndex, stamp)
  {
    var intro := SessionIntro(|LastN(candles, SessionWindowSize)|, sessionName);
    r, calls := GenerateReport(candles, SessionWindowSize, intro, SessionSystemPrompt, sessionName,
                               template, model, api, clean, quoteIndex, stamp);
  }

  /** `generate_morning_forecast`: the last 50 candles, for the London preparation. */
  method GenerateMorningForecast(candles: seq<Candle>, template: string, model: string,
                                 api: (nat, int) -> Reply, clean: (string, string) -> string,
                                 quoteIndex: nat, stamp: PromptFormatter.Stamp)
    returns (r: string, ghost calls: nat)
    requires quoteIndex < |PromptFormatter.SniperQuotes|
    ensures candles == [] ==> r == NoCandleData(MorningTitle)
    ensures candles == [] ==> calls == 0
    ensures candles != [] ==> 1 <= calls <= MaxRetries
    ensures candles != [] ==>
              var userText := UserText(MorningIntro, CandleData(candles, MorningWindowSize), template);
              var maxTokens := Budget(userText, MorningSystemPrompt, model);
              r == Outcome(FirstUsable(api, maxTokens, 1), MorningTitle, clean, quoteIndex, stamp)
  {
    r, calls := GenerateReport(candles, MorningWindowSize, MorningIntro, MorningSystemPrompt, MorningTitle,
                               template, model, api, clean, quoteIndex, stamp);
  }

  /** `generate_evening_review`: the last 120 candles, the whole day. */
  method GenerateEveningReview(candles: seq<Candle>, template: string, model: string,
                               api: (nat, int) -> Reply, clean: (string, string) -> string,
                               quoteIndex: nat, stamp: PromptFormatter.Stamp)
    returns (r: string, ghost calls: nat)
    requires quoteIndex < |PromptFormatter.SniperQuotes|
    ensures candles == [] ==> r == NoCandleData(EveningTitle)
    ensures candles == [] ==> calls == 0
    ensures candles != [] ==> 1 <= calls <= MaxRetries
    ensures candles != [] ==>
              var userText := UserText(EveningIntro, CandleData(candles, EveningWindowSize), template);
              var maxTokens := Budget(userText, EveningSystemPrompt, model);
              r == Outcome(FirstUsable(api, maxTokens, 1), EveningTitle, clean, quoteIndex, stamp)
  {
    r, calls := GenerateReport(candles, EveningWindowSize, EveningIntro, EveningSystemPrompt, EveningTitle,
                               template, model, api, clean, quoteIndex, stamp);
  }

  /** The session prompt shows at most 100 candles, all of them when there are no more, and says how many. */
  lemma SessionPromptWindow(candles: seq<Candle>, sessionName: string, template: string)
    ensures var shown := LastN(candles, SessionWindowSize);
            && |shown| == (if |candles| < 100 then |candles| else 100)
            && shown == candles[|candles| - |shown|..]
            && SessionIntro(|shown|, sessionName) <= SessionPrompt(candles, sessionName, template)
  {
  }

  /** The morning and evening reports print their configured display windows. */
  lemma FixedReportsHaveWindows()
    ensures Config.SessionWindow(MorningTitle) == "06:45\U{2013}07:00"
    ensures Config.SessionWindow(EveningTitle) == "23:00\U{2013}23:15"
  {
  }
}
