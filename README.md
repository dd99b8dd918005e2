# SENTINELx core, modelled in Dafny

SENTINELx is a gold (XAU/USD) market bot. It wakes up at fixed trading-session
times, asks a language model for a short market summary of the latest price
candles, formats the answer as a Telegram HTML report and posts it to a chat.
Next to it sits a cTrader/cAlgo robot, written in C#, that closes XAUUSD
positions once they reach a take-profit threshold above a fee floor, or a hard
cash stop-loss.

This project models the decision logic of both, and proves what it promises:

- `config.dfy` (module `Config`) models the configuration module:
  - the session registry and its display windows;
  - the start-up validation of the environment and of the registry;
  - the choice of broker endpoint.
- `session_tracker.dfy` (module `SessionTracker`) models the session trigger. `Scheduler` is a class whose fields are the module-level memory. `CheckSessions` is proved against the pure `Poll`, and lemmas state:
  - the weekend rule;
  - the daily reset;
  - the first-due-wins order;
  - at most one fire per UTC date.
- `position_closer.dfy` (module `PositionCloser`) models the cAlgo robot:
  - `Closer` is a class with the robot's `_closing` set and `_openedAt` dictionary;
  - its event handlers change those fields in place;
  - the per-position scan and the retry loop are methods proved against the functions `Decide`, `ClosingAfter` and `CloseRequests`.
- `telegram_alert.dfy` (module `TelegramAlert`) models the sending side:
  - the HTML sanitiser, both as written (one filter pass, which the send path uses) and corrected (passes repeated until nothing changes), with a lemma saying when the two agree;
  - the greedy chunk splitter, an imperative loop proved against a function;
  - the send loop, with the short-message guard.
- `prompt_formatter.dfy` (module `PromptFormatter`) models the report formatting:
  - emoji removal;
  - price bolding;
  - the tag-balancing trimmer, an imperative loop;
  - the final report assembly.
- `gpt_analysis.dfy` (module `GptAnalysis`) models the language-model side:
  - the token budget;
  - the three-attempt retry around the chat API, a loop proved against a function;
  - the three report generators.
- `text.dfy` and `wrappers.dfy` hold shared helpers: Python and .NET whitespace, `strip`, substring search, ASCII case folding, and `Option`.

External services are inputs of the model. The chat API, the Telegram endpoint
and the broker's close order are function-valued parameters (oracles), so each
proof covers every answer they could give. Clocks are plain numbers passed in:
microseconds in the session tracker, milliseconds in the robot.

## Model

| member | source | states |
|---|---|---|
| Config.CatalogWellFormed | sentinel/config.py:20-48 | the registry has 16 sessions, each with a valid hour and minute, under pairwise distinct names |
| Config.WindowsMatchCatalog | sentinel/config.py:51-68 | the display-window table lists exactly the registry's sessions, in the same order |
| Config.AsianOpenPrecedesTokyoOpen | sentinel/config.py:27-28 | "Asian Open" and "Tokyo Open" share 01:00, and "Asian Open" comes first in the registry |
| Config.WindowLookup | sentinel/prompt_formatter.py:106 | the window of a listed name is its table entry; any other name gets "Time Window N/A" |
| Config.MissingVars | sentinel/config.py:94 | a name is reported exactly when its value is unset, empty or contains "xxx" in any case; the report is no longer than the list |
| Config.MissingVarsAppend | sentinel/config.py:94 | the missing names keep the order of the required-variables table |
| Config.RequiredEnv | sentinel/config.py:86-92 | the five required variables are checked in table order, each with its environment value |
| Config.CheckSessionTypes | sentinel/config.py:102-106 | the type check passes exactly when every registry value is a time of day; otherwise it names an entry that is not |
| Config.CatalogEntries | sentinel/config.py:20-48 | the registry as the type check sees it: every entry keeps its name and carries its time |
| Config.Startup | sentinel/config.py:94-106 | start-up succeeds exactly when no variable is missing and the type check passes; the environment error lists the missing names and is never empty |
| Config.CatalogPassesTypeCheck | sentinel/config.py:101-106 | the shipped registry never raises the type error |
| Config.OandaDomain | sentinel/config.py:75-80 | the practice endpoint is chosen exactly for "practice"; any other account type selects the live endpoint |
| Config.UnsetAccountTypeIsPractice | sentinel/config.py:75 | with the account type unset the practice endpoint is used |
| SessionTracker.Weekday | sentinel/session_tracker.py:42 | the weekday number lies in 0..6 |
| SessionTracker.SessionLocalDateTime | sentinel/session_tracker.py:23-28 | the scheduled local time is today's date at the session's hour and minute, with seconds and microseconds zero |
| SessionTracker.WindowsUnion | sentinel/session_tracker.py:11-14 | the exact and catch-up windows together accept exactly the offsets from -90 s to +300 s |
| SessionTracker.FirstWhere | sentinel/session_tracker.py:54-69 | the scan returns the first registry index that is due, and None only if no index is |
| SessionTracker.AfterReset | sentinel/session_tracker.py:49-51 | on a new UTC date the memory is emptied and the date recorded; on the same date nothing changes |
| SessionTracker.Scheduler.constructor | sentinel/session_tracker.py:7-8 | the memory starts empty, with the start-up UTC date as the reset date |
| SessionTracker.Scheduler.CheckSessions | sentinel/session_tracker.py:32-71 | one poll changes the memory and returns a session exactly as the pure `Poll` does; a fire records `now` for that session alone, and no fire leaves only the daily reset |
| SessionTracker.Poll | sentinel/session_tracker.py:32-71 | one poll as a pure function of the memory and the clock; stated by `WeekendPollIsNoOp`, `DailyResetForgets`, `PollFiresFirstDue` and `FirstDueSessionFires` |
| SessionTracker.WeekendPollIsNoOp | sentinel/session_tracker.py:42-46 | on a UTC Saturday or Sunday nothing fires, and the memory and reset date are untouched |
| SessionTracker.DailyResetForgets | sentinel/session_tracker.py:49-51 | on a new UTC date the poll behaves as if the memory were empty, and records the new date |
| SessionTracker.PollFiresFirstDue | sentinel/session_tracker.py:54-69 | a returned session was not in memory, lies between -90 s and +300 s of its schedule, has no due session before it, and is the only entry the memory gains |
| SessionTracker.FirstDueSessionFires | sentinel/session_tracker.py:54-69 | conversely, on a weekday the first due session in registry order is returned and recorded |
| SessionTracker.NothingDueNothingFires | sentinel/session_tracker.py:71 | when nothing is due the poll returns None and changes only the daily reset |
| SessionTracker.LaterDueSessionStaysPending | sentinel/session_tracker.py:54-69 | a due session that loses to an earlier one stays out of memory, pending for the next poll |
| SessionTracker.FiredIndex | sentinel/session_tracker.py:54-69 | a fired session sits at a registry index inside its window, with no due session before it |
| SessionTracker.TokyoOpenWaitsForAsianOpen | sentinel/session_tracker.py:54-69 | with the shipped registry "Tokyo Open" fires only after "Asian Open" has fired |
| SessionTracker.FiredSessionStaysFired | sentinel/session_tracker.py:57-69 | once a session is in memory, no later poll on the same UTC date returns it |
| SessionTracker.AtMostOncePerUtcDate | sentinel/session_tracker.py:49-69 | within one UTC date every session is returned at most once |
| SessionTracker.Run | sentinel/session_tracker.py:32-71 | a run of polls gives one result per poll |
| SessionTracker.AsianOpenFiresTwiceAcrossUtcMidnight | sentinel/session_tracker.py:49-63 | as written, a winter "Asian Open" (00:00 UTC) fires 80 s before midnight and again 5 s after it |
| SessionTracker.FirstDueOccurrenceFires | sentinel/session_tracker.py:54-69 | under the corrected rule the first due session in registry order still fires |
| SessionTracker.RunPerOccurrence | sentinel/session_tracker.py:32-71 | the corrected run gives one result per poll |
| SessionTracker.OccurrenceStaysFired | sentinel/session_tracker.py:57-69 | under the corrected rule an occurrence already fired is never returned again, whatever the UTC date |
| SessionTracker.OncePerOccurrence | sentinel/session_tracker.py:57-69 | under the corrected rule each scheduled occurrence is returned at most once |
| SessionTracker.AsianOpenFiresOncePerOccurrence | sentinel/session_tracker.py:49-63 | on the midnight example the corrected rule fires "Asian Open" once, then "Tokyo Open" |
| PositionCloser.StartCheck | sentinel/onePoundCloser.c:76-82 | start is refused exactly when a parameter check fails, and the failure named is the first check that fails, in source order |
| PositionCloser.EffectiveTarget | sentinel/onePoundCloser.c:146 | the take-profit threshold is the larger of the target and the fee floor |
| PositionCloser.IsManualLabel | sentinel/onePoundCloser.c:224-233 | a blank label is manual; a non-blank one is manual exactly when the whitelist is not blank and the label contains it, ignoring case |
| PositionCloser.Decide | sentinel/onePoundCloser.c:148-211 | a close goes only to XAUUSD positions that pass the label filter and are not already closing; the stop-loss fires exactly at a net loss of the maximum or worse; take-profit fires exactly when the stop-loss does not and the profit reaches the larger of the target and the fee floor, with the hold time and the spread guard passing when they are switched on |
| PositionCloser.MaxAttempts | sentinel/onePoundCloser.c:260-281 | the retry loop makes at most `RetryCount + 1` attempts, and always at least one |
| PositionCloser.AnyAttemptSucceedsMonotone | sentinel/onePoundCloser.c:260-281 | allowing more attempts never turns a success into a failure |
| PositionCloser.StepClosing | sentinel/onePoundCloser.c:167-206 | one position can only add its own id to the closing set, and keeps it exactly when its close succeeded |
| PositionCloser.HasHeldLongEnough | sentinel/onePoundCloser.c:235-241 | the hold check, with the recorded opening time taking precedence over the entry time; its properties are in `HeldLongEnoughIsMonotone` |
| PositionCloser.HeldLongEnoughIsMonotone | sentinel/onePoundCloser.c:235-241 | a position held long enough stays so as time passes, and a recorded opening time no later than the entry time never makes it wait longer |
| PositionCloser.ClosingAfter | sentinel/onePoundCloser.c:148-212 | the closing set after one scan; stated by `ClosingOnlyGrows`, `SuccessfulCloseIsRemembered` and the scan methods |
| PositionCloser.CloseRequests | sentinel/onePoundCloser.c:148-212 | the close calls of one scan, in order; stated by `CloseRequestsAreGuarded`, `NoSecondCloseAfterSuccess` and the scan methods |
| PositionCloser.ClosingOnlyGrows | sentinel/onePoundCloser.c:148-212 | a scan only adds ids, and only ids of scanned positions |
| PositionCloser.CloseRequestsAreGuarded | sentinel/onePoundCloser.c:148-206 | no close is requested for an id already being closed; each request obeys the symbol and label filters and its path's threshold |
| PositionCloser.SuccessfulCloseIsRemembered | sentinel/onePoundCloser.c:170-205 | a close that succeeded leaves its id in the closing set |
| PositionCloser.NoSecondCloseAfterSuccess | sentinel/onePoundCloser.c:169-203 | after a successful close, the next scan never asks to close that position again |
| PositionCloser.SeedOpenedAt | sentinel/onePoundCloser.c:85-86 | seeding gives every existing position its entry time (the last listed one when an id repeats), overwriting a time already recorded for it; other known ids keep their times, and no other id is added |
| PositionCloser.Closer.constructor | sentinel/onePoundCloser.c:69-70 | a new robot has no ids being closed and no opening times |
| PositionCloser.Closer.CloseWithRetry | sentinel/onePoundCloser.c:251-283 | a dry run reports success with no attempt; otherwise 1 to `MaxAttempts` attempts, success exactly when the last succeeded, every earlier one failed, and a failure only after all attempts |
| PositionCloser.Closer.ManagePosition | sentinel/onePoundCloser.c:150-211 | one loop step updates the closing set as `StepClosing` says, and requests a close exactly when `Decide` does |
| PositionCloser.Closer.TryManagePositions | sentinel/onePoundCloser.c:142-218 | a scan updates the closing set to `ClosingAfter` and makes exactly the close calls `CloseRequests` lists |
| PositionCloser.Closer.OnStop | sentinel/onePoundCloser.c:101-108 | stopping forgets all ids being closed and all opening times |
| PositionCloser.Closer.OnStart | sentinel/onePoundCloser.c:76-99 | start-up succeeds exactly when the parameter checks pass; a failure stops the robot and clears its state; a success seeds the opening times and then scans |
| PositionCloser.Closer.PositionOpened | sentinel/onePoundCloser.c:118-123 | an opened position's entry time is recorded, then a scan runs |
| PositionCloser.Closer.PositionClosed | sentinel/onePoundCloser.c:125-136 | the close is reported as the bot's exactly when the id was being closed; the id leaves both structures |
| TelegramAlert.Split | sentinel/telegram_alert.py:41 | splitting on single spaces gives at least one word, none holding a space |
| TelegramAlert.JoinSplit | sentinel/telegram_alert.py:41 | joining the split words with single spaces gives back the text |
| TelegramAlert.SplitJoin | sentinel/telegram_alert.py:41 | splitting a join of space-free words gives back the words |
| TelegramAlert.Extend | sentinel/telegram_alert.py:50 | a word is appended after a space unless the chunk is empty |
| TelegramAlert.SafeHtmlSplit | sentinel/telegram_alert.py:39-54 | the packing loop returns the chunks of the greedy packing `SafeSplit` |
| TelegramAlert.EmptyTextNoChunks | sentinel/telegram_alert.py:45-54 | an empty text gives no chunk when a chunk may hold one character, and a single empty chunk otherwise |
| TelegramAlert.PackNonEmpty | sentinel/telegram_alert.py:45-54 | a chunk under construction is always emitted and starts the output |
| TelegramAlert.PackJoin | sentinel/telegram_alert.py:45-54 | packing non-empty, fitting words and joining the chunks gives back the words joined |
| TelegramAlert.SafeSplitRoundTrip | sentinel/telegram_alert.py:39-54 | when every word is non-empty and fits, joining the chunks with spaces gives back the text |
| TelegramAlert.PackChunkBound | sentinel/telegram_alert.py:45-54 | every emitted chunk fits the limit or is one of the input words |
| TelegramAlert.LongChunkIsOneWord | sentinel/telegram_alert.py:45-54 | a chunk over the limit is a single word of the text, without a space |
| TelegramAlert.PackClosesOnOverflow | sentinel/telegram_alert.py:46-48 | for any space-free words, empty ones included, every chunk but the last was closed because the next word would not fit after it |
| TelegramAlert.ChunkClosedOnlyOnOverflow | sentinel/telegram_alert.py:46-48 | for any text, a chunk is closed only when the next chunk's first word, plus a space, would overflow it |
| TelegramAlert.PackKeepsWords | sentinel/telegram_alert.py:45-54 | packing keeps all non-empty words, in order |
| TelegramAlert.SafeSplitKeepsWords | sentinel/telegram_alert.py:39-54 | splitting loses and reorders no word; only the empty words of space runs disappear |
| TelegramAlert.SafeSplit | sentinel/telegram_alert.py:39-54 | the greedy chunking; stated by `SafeSplitRoundTrip`, `SafeSplitKeepsWords`, `LongChunkIsOneWord` and `ChunkClosedOnlyOnOverflow` |
| TelegramAlert.Unescape | sentinel/telegram_alert.py:22 | `&lt;` and `&gt;` become `<` and `>`; stated by `UnescapeLeavesNoEntity` |
| TelegramAlert.ReplaceAbsentIsIdentity | sentinel/telegram_alert.py:22 | replacing a pattern that does not occur changes nothing |
| TelegramAlert.ReplaceLeavesNoPattern | sentinel/telegram_alert.py:22 | after replacement no occurrence of the pattern is left when pattern and replacement share no character |
| TelegramAlert.ReplaceCreatesNoOccurrence | sentinel/telegram_alert.py:22 | replacement creates no occurrence of a text free of the replacement's characters |
| TelegramAlert.UnescapeLeavesNoEntity | sentinel/telegram_alert.py:22 | after unescaping no "&lt;" or "&gt;" is left, and text without them is unchanged |
| TelegramAlert.BrMatch | sentinel/telegram_alert.py:29 | the search finds a prefix that is a line-break tag, and None only when no prefix is one |
| TelegramAlert.BrAt | sentinel/telegram_alert.py:29 | a line-break tag at the start of the text is found, with its length; None means there is none |
| TelegramAlert.BrTagUnique | sentinel/telegram_alert.py:29 | at most one prefix of a text is a line-break tag |
| TelegramAlert.NormalizeBr | sentinel/telegram_alert.py:29 | every `<\s*br\s*/?>` spelling becomes `<br>`; stated by `NormalizeBrIdempotent`, `NormalizeBrWithoutB` and `NormalizeBrIsIdentityWithoutLessThan` |
| TelegramAlert.NormalizeBrIdempotent | sentinel/telegram_alert.py:29 | normalising `<br>` spellings twice is normalising once |
| TelegramAlert.NormalizeBrWithoutB | sentinel/telegram_alert.py:29 | text without "b" or "B" holds no line-break tag and is unchanged |
| TelegramAlert.NormalizeBrIsIdentityWithoutLessThan | sentinel/telegram_alert.py:29 | text without "<" is unchanged by `<br>` normalisation |
| TelegramAlert.TagAt | sentinel/telegram_alert.py:33 | a match starts with "<", ends with ">" and has a non-empty name (its exact meaning is in `TagAtComplete`, `TagAtSound` and `TagAtNoneIff`) |
| TelegramAlert.TagAtComplete | sentinel/telegram_alert.py:33 | any prefix matching `</?([a-zA-Z0-9]+)(\s[^>]*)?>` is the match found, with the name captured by the group |
| TelegramAlert.TagAtSound | sentinel/telegram_alert.py:33 | the match found is a prefix matching the tag pattern, and its name is the captured group |
| TelegramAlert.TagAtNoneIff | sentinel/telegram_alert.py:33 | no match is found exactly when no prefix of the text matches the tag pattern |
| TelegramAlert.TagFilter | sentinel/telegram_alert.py:32-36 | one filter pass never lengthens the text, and shortens it whenever it changes it |
| TelegramAlert.TagFilterAtTag | sentinel/telegram_alert.py:32-36 | a tag at the current position is kept whole when its lower-cased name is allowed and deleted otherwise, and the pass resumes after it |
| TelegramAlert.TagFilterNoTag | sentinel/telegram_alert.py:32-36 | where no tag matches, the character is kept and the pass moves one character on |
| TelegramAlert.TagFilterKeepsPlain | sentinel/telegram_alert.py:32-36 | text without "<" is kept as it is in front of whatever the pass makes of the rest |
| TelegramAlert.TagFilterTagThen | sentinel/telegram_alert.py:32-36 | a whole tag followed by more text is kept or deleted by its name, and the rest is filtered on its own |
| TelegramAlert.TagFilterAroundTag | sentinel/telegram_alert.py:32-36 | a tag between plain text and the rest is deleted when its name is not allowed and kept when it is, with the plain text kept |
| TelegramAlert.TagFilterFixedIffAllowed | sentinel/telegram_alert.py:32-36 | a pass leaves the text unchanged exactly when every tag it finds is allowed |
| TelegramAlert.NoTagWithoutLessThan | sentinel/telegram_alert.py:33 | text without "<" holds no tag |
| TelegramAlert.CounterexampleFilterPass | sentinel/telegram_alert.py:32-36 | one pass turns "<<x>y>" into "<y>" |
| TelegramAlert.SinglePassLeavesForbiddenTag | sentinel/telegram_alert.py:15-36 | the sanitiser as written turns "<<x>y>" into "<y>", a tag that is not allowed |
| TelegramAlert.TagFilterFix | sentinel/telegram_alert.py:32-36 | the corrected filter leaves only allowed tags, never lengthens the text, and keeps text whose tags are all allowed |
| TelegramAlert.TagFilterFixIdempotent | sentinel/telegram_alert.py:32-36 | filtering twice is filtering once, and text without "<" is kept |
| TelegramAlert.TagFilterFixKeepsPlain | sentinel/telegram_alert.py:32-36 | the corrected filter also keeps text without "<" in front of the filtered rest |
| TelegramAlert.OnePassEnoughIff | sentinel/telegram_alert.py:32-36 | the corrected filter gives the one-pass result exactly when that result holds only allowed tags |
| TelegramAlert.SanitizeAsWritten | sentinel/telegram_alert.py:15-36 | the sanitiser as the send path runs it, with one filter pass; stated by `SinglePassLeavesForbiddenTag`, `SanitizeAgreesIff` and `SanitizeKeepsPlainText` |
| TelegramAlert.Sanitize | sentinel/telegram_alert.py:15-36 | the corrected sanitiser (unescape, `<br>` normalisation, repeated filtering) leaves only Telegram-safe tags |
| TelegramAlert.SanitizeAgreesIff | sentinel/telegram_alert.py:15-36 | the sanitiser as written (one filter pass) and the corrected one agree exactly when the one-pass result holds only allowed tags |
| TelegramAlert.SanitizeKeepsPlainText | sentinel/telegram_alert.py:15-36 | text with no "<" and no "&" comes out of both sanitisers unchanged |
| TelegramAlert.TooShort | sentinel/telegram_alert.py:61 | the short-message guard; stated by `SendTelegramMessage` |
| TelegramAlert.SendFromAppend | sentinel/telegram_alert.py:87-106 | sending two runs of chunks is sending the first, then the second in the parse mode the first ended in, and nothing after a failure |
| TelegramAlert.PlainStaysPlain | sentinel/telegram_alert.py:94-99 | once a 400 has dropped `parse_mode` from the shared payload, later chunks are never sent as HTML again |
| TelegramAlert.HtmlAllAcceptedIff | sentinel/telegram_alert.py:87-106 | the message ends in HTML mode exactly when every chunk's first HTML post is answered 200 |
| TelegramAlert.PlainAllAcceptedIff | sentinel/telegram_alert.py:87-106 | in plain mode the message gets through exactly when each chunk does, by its post or its one retry |
| TelegramAlert.DeliverInOrder | sentinel/telegram_alert.py:87-111 | chunks are posted in order with HTML mode dropped for good at the first 400; the result is true exactly when sending succeeds, and sending stops at the first chunk that does not get through (a 400 gets one plain-text retry; any status other than 200 or 400 stops at once) |
| TelegramAlert.SendTelegramMessage | sentinel/telegram_alert.py:57-111 | an empty or short message (under 10 characters once stripped) is refused with nothing sent; otherwise the chunks of the one-pass sanitised text go out as `DeliverInOrder` says, and the result is true exactly when all got through |
| PromptFormatter.RemoveEmojis | sentinel/prompt_formatter.py:28-41 | the result holds no character of the emoji ranges and only characters of the input, and is no longer |
| PromptFormatter.RemoveEmojisAppend | sentinel/prompt_formatter.py:28-41 | removal distributes over concatenation |
| PromptFormatter.RemoveEmojisKeepsOthers | sentinel/prompt_formatter.py:28-41 | text without emoji is unchanged |
| PromptFormatter.RemoveEmojisIdempotent | sentinel/prompt_formatter.py:28-41 | removing twice is removing once |
| PromptFormatter.PriceAt | sentinel/prompt_formatter.py:46 | a price match has 3 to 5 digits, a point and 2 digits, with no word character on either side |
| PromptFormatter.PriceAtIff | sentinel/prompt_formatter.py:46 | a match of a given length is found exactly when no word character comes before, the prefix has the price shape and no word character comes after |
| PromptFormatter.ScanCoversText | sentinel/prompt_formatter.py:45-50 | the scan's pieces spell the text, nothing lost or reordered |
| PromptFormatter.ScanPricesAreBounded | sentinel/prompt_formatter.py:46 | every price the scan finds has the price shape and word boundaries on both sides |
| PromptFormatter.RenderIsConcatIff | sentinel/prompt_formatter.py:45-50 | formatting leaves the text unchanged exactly when every price found is already bold somewhere in it |
| PromptFormatter.RenderLengths | sentinel/prompt_formatter.py:45-50 | formatting never shortens the text |
| PromptFormatter.NoPointNoPrice | sentinel/prompt_formatter.py:46 | text without a point holds no price |
| PromptFormatter.FormatPriceValues | sentinel/prompt_formatter.py:43-50 | formatting never shortens the text, and text without a point is returned unchanged |
| PromptFormatter.ScanSplit | sentinel/prompt_formatter.py:45-50 | after a character that is neither a word character nor a point, or after a point followed by three digits, the scan goes on as if the text started there: no match crosses it |
| PromptFormatter.RenderAppend | sentinel/prompt_formatter.py:45-50 | the replacements of two runs of matches are the replacements of each, joined |
| PromptFormatter.ScanAroundPrice | sentinel/prompt_formatter.py:45-50 | a price token after the start or a non-word character (a point included), and before a non-word character or the end, is matched whole |
| PromptFormatter.PriceIsBolded | sentinel/prompt_formatter.py:45-50 | such a token is replaced by its bold form unless that bold form already occurs in the text, in which case it is kept as it is; the text around it is formatted on its own |
| PromptFormatter.PriceEndsUpBold | sentinel/prompt_formatter.py:45-50 | such a token whose bold form is not yet in the text appears bold in the result |
| PromptFormatter.PriceAfterPointIsBolded | sentinel/prompt_formatter.py:45-50 | in "x.456.78" the price "456.78", which follows a point, appears bold in the result |
| PromptFormatter.PyPrefix | sentinel/prompt_formatter.py:56 | `message[:max_len]` is a prefix of the message, whose length is `max_len` capped at the length, counted from the end when negative |
| PromptFormatter.CountAppend | sentinel/prompt_formatter.py:58 | tag counts add up across a seam that cannot split a tag |
| PromptFormatter.SafeTrimHtml | sentinel/prompt_formatter.py:52-60 | the closing loop returns `SafeTrimmed` |
| PromptFormatter.SafeTrimmedShape | sentinel/prompt_formatter.py:52-60 | a fitting message is kept; a long one becomes its prefix, then "</b>" exactly when its bold tags are unbalanced, then "</i>" likewise, then "..."; the result is at most 11 characters longer than `max_len` |
| PromptFormatter.TrimKeepsHeader | sentinel/prompt_formatter.py:109-120 | trimming a report keeps its header line and gives at most 4096 + 11 characters |
| PromptFormatter.BlankSummaryFallback | sentinel/prompt_formatter.py:88-89 | an empty or blank summary gives the fixed "No valid summary generated." text |
| PromptFormatter.FormatSpectralSummary | sentinel/prompt_formatter.py:86-120 | the report assembly; what it promises is stated by `BlankSummaryFallback` and `SpectralSummaryShape` |
| PromptFormatter.SpectralSummaryShape | sentinel/prompt_formatter.py:92-120 | any other summary gives a report that starts with the header, fits 4096 + 11 characters, and is untrimmed whenever the report fits |
| PromptFormatter.UnknownSessionWindow | sentinel/prompt_formatter.py:106 | a name missing from the window table is shown as "Time Window N/A" |
| GptAnalysis.ModelCapacity | sentinel/gpt_analysis.py:13-23 | a capacity lies between 4096 and 128000 tokens, and an unknown model gets 8192 |
| GptAnalysis.UnsetModelCapacity | sentinel/gpt_analysis.py:23 | with the model unset ("gpt-4o") the capacity is 128000 |
| GptAnalysis.PromptTokensEstimate | sentinel/gpt_analysis.py:26 | the estimate is the combined character count divided by 4, rounded down |
| GptAnalysis.MaxOutputTokens | sentinel/gpt_analysis.py:27 | the budget always lies in [800, 1500]; it equals `limit - estimate - 50` when that is in range, and otherwise the nearer bound |
| GptAnalysis.BudgetShrinksAsPromptGrows | sentinel/gpt_analysis.py:26-27 | a longer prompt never gets a larger output budget |
| GptAnalysis.UsableMeaning | sentinel/gpt_analysis.py:50-51 | an attempt has an answer exactly when it returned content that is not blank; the answer is that content stripped, never empty |
| GptAnalysis.FirstUsable | sentinel/gpt_analysis.py:29-60 | the first usable answer of attempts 1 to 3; stated by `FirstUsableNoneIff`, `FirstUsableWitness` and `FirstUsableSkips` |
| GptAnalysis.FirstUsableNoneIff | sentinel/gpt_analysis.py:29-60 | the result is None exactly when none of the three attempts has an answer |
| GptAnalysis.FirstUsableWitness | sentinel/gpt_analysis.py:29-60 | an answer comes from an attempt numbered 1 to 3, and every earlier attempt had none |
| GptAnalysis.NoAnswerBetweenMeaning | sentinel/gpt_analysis.py:29-60 | the loop's record of failed attempts holds exactly when every attempt in the range gave no answer |
| GptAnalysis.FirstUsableSkips | sentinel/gpt_analysis.py:29-60 | attempts without an answer do not change what the remaining attempts return |
| GptAnalysis.ChatCompletion | sentinel/gpt_analysis.py:21-60 | the retry loop makes 1 to 3 attempts with one budget; it returns the answer of the first attempt that has one, stopping there, or None after three failures |
| GptAnalysis.LastN | sentinel/gpt_analysis.py:119 | the window is a suffix of the candles holding the last `n` of them, or all when there are fewer |
| GptAnalysis.LastNIdempotent | sentinel/gpt_analysis.py:119 | taking the last `n` twice changes nothing |
| GptAnalysis.RenderCandles | sentinel/gpt_analysis.py:117-120 | one prompt line per candle, in order |
| GptAnalysis.JoinLinesContainsEach | sentinel/gpt_analysis.py:117-120 | every candle line occurs in the joined block |
| GptAnalysis.PromptShowsWindow | sentinel/gpt_analysis.py:117-129 | every candle of the window appears, rendered, in the prompt |
| GptAnalysis.DecimalString | sentinel/gpt_analysis.py:125 | the printed count is a non-empty string of decimal digits |
| GptAnalysis.DecimalRoundTrip | sentinel/gpt_analysis.py:125 | the printed count reads back as the count |
| GptAnalysis.Outcome | sentinel/gpt_analysis.py:132 | the report built from an answer, or "GPT returned no output"; stated by `OutcomeShape` |
| GptAnalysis.OutcomeShape | sentinel/gpt_analysis.py:132 | no answer gives "GPT returned no output"; an answer gives a report that opens with the header and fits 4096 + 11 characters |
| GptAnalysis.GenerateReport | sentinel/gpt_analysis.py:111-132 | empty candles give "No candle data" with no request sent; otherwise the prompt holds the last candles and the model's first answer is formatted |
| GptAnalysis.GenerateSessionSummary | sentinel/gpt_analysis.py:111-132 | empty candles give "No candle data for <session>" with no request; otherwise the last 100 candles are sent and the answer becomes the session report |
| GptAnalysis.GenerateMorningForecast | sentinel/gpt_analysis.py:136-155 | empty candles give "No candle data for Morning Forecast" with no request; otherwise the last 50 candles are sent |
| GptAnalysis.GenerateEveningReview | sentinel/gpt_analysis.py:159-178 | empty candles give "No candle data for Evening Review" with no request; otherwise the last 120 candles are sent |
| GptAnalysis.SessionPromptWindow | sentinel/gpt_analysis.py:119-125 | the session prompt shows the last min(n, 100) candles and opens by stating that count |
| GptAnalysis.FixedReportsHaveWindows | sentinel/config.py:52-53 | the morning and evening reports print their configured windows, not "Time Window N/A" |

## Left out

- Timezone conversion: the local-to-UTC conversion and the local date are inputs of each poll, and daylight-saving behaviour is not modelled. One local date per poll stands for the source's clock read per session, which could differ across local midnight within one poll.
- Clock reads: `datetime.now`, `datetime.utcnow` and `DateTime.UtcNow` become parameters. Report date and time strings (`strftime`) are an input `Stamp`.
- The OpenAI client, Telegram HTTP posting and the broker's `ClosePosition` are oracles. Telegram's answer is a status code that depends on the chunk, the parse mode and whether the post is the retry after a 400; the model keeps the shared payload's parse mode, which the first 400 drops for every later chunk. Exceptions inside the send path, logging and the failure log files are not modelled.
- In the language-model request (sentinel/gpt_analysis.py:31-58), the `print` diagnostics and the `time.sleep(1.5)` pause after each attempt are not modelled; the attempts are otherwise as written.
- `clean_gpt_output` (sentinel/prompt_formatter.py:62-83), the regular-expression cascade that strips model-added headers, is a function parameter `clean`. Its removals are not modelled.
- The random quote choice is an index parameter `quoteIndex`.
- The prompt template wording (sentinel/gpt_analysis.py:64-108) is a string parameter `template`.
- The `<br>` removal inside `<code>` and `<pre>` blocks (sentinel/telegram_alert.py:25-26) is not modelled. The sanitiser goes straight from unescaping to `<br>` normalisation.
- Regular-expression classes are ASCII: `\d`, `\w` and `[a-zA-Z0-9]` use ASCII letters and digits. Python's `\d` and `\w` also match other Unicode digits and letters.
- `string.Equals` and `IndexOf` with `OrdinalIgnoreCase` fold ASCII letters only. Other case pairs (for example U+017F and "s") are not folded.
- `SpreadOk` (sentinel/onePoundCloser.c:243-249) computes the spread from floating-point prices. It is a boolean oracle `spreadOk`.
- Money values are reals without rounding. .NET `DateTime` ticks are whole milliseconds.
- cAlgo event subscription, the timer, `Print`, `Sleep` and the exception handler around the scan are not modelled. The main polling loop, the dispatcher, the manual test runner and the file logger are not part of this model.
- `TelegramAlert.LongChunkIsOneWord`: proved for a non-negative chunk limit only. The sender always uses 4046.
- `PromptFormatter.SafeTrimmedShape`: the bound of `max_len + 11` characters is proved for a non-negative `max_len` only. For a negative one, Python's `message[:max_len]` counts from the end. Only the weaker bound of `|message| + 11` holds then. Callers always pass 4096.
- `GptAnalysis.ModelCapacity`: states the range of capacities and the default. The three table entries are the constant `ModelCapacities`.

## Findings

| source | as written | input that shows it | evidently intended | confidence | as-written member | corrected member |
|---|---|---|---|---|---|---|
| sentinel/session_tracker.py:49-63 | the fire memory is cleared at UTC midnight, although a session's ±90 s window can straddle it | winter, "Asian Open" at 01:00 Europe/Rome = 00:00 UTC: a poll at 23:58:40 UTC fires it; a poll at 00:00:05 UTC clears the memory and fires it again | each session fires once per scheduled occurrence | not executed | SessionTracker.AsianOpenFiresTwiceAcrossUtcMidnight | SessionTracker.OncePerOccurrence |
| sentinel/telegram_alert.py:32-36 | a single left-to-right `re.sub` pass deletes disallowed tags, and a deletion can join the text around it into a new tag | "<<x>y>" becomes "<y>", and "y" is not an allowed tag | the sanitised text holds only allowed tags | not executed | TelegramAlert.SinglePassLeavesForbiddenTag | TelegramAlert.Sanitize |
