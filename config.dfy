/**
 * Startup configuration: the ordered session catalog with its display windows,
 * the required-environment-variable check, the catalog type check and the
 * broker domain selection.
 */
module Config {
  import opened Wrappers
  import Text

  /** A local time of day (Python's `datetime.time` with only hour and minute set). */
  datatype TimeOfDay = TimeOfDay(hour: int, minute: int)

  /** One entry of the session registry: an identifier and its local trigger time. */
  datatype Session = Session(name: string, time: TimeOfDay)

  /** The session registry, in definition order (Python dicts keep insertion order). */
  const Sessions: seq<Session> := [
    Session("Morning Forecast", TimeOfDay(6, 45)),
    Session("Evening Review", TimeOfDay(23, 0)),
    Session("Sydney Open", TimeOfDay(0, 5)),
    Session("Asian Open", TimeOfDay(1, 0)),
    Session("Tokyo Open", TimeOfDay(1, 0)),
    Session("Tokyo Close", TimeOfDay(9, 0)),
    Session("Frankfurt Open", TimeOfDay(7, 0)),
    Session("London Open", TimeOfDay(8, 0)),
    Session("Frankfurt Close", TimeOfDay(9, 30)),
    Session("London Close", TimeOfDay(16, 30)),
    Session("Pre-New York", TimeOfDay(13, 30)),
    Session("New York Open", TimeOfDay(14, 30)),
    Session("NY Lunch", TimeOfDay(17, 30)),
    Session("New York Close", TimeOfDay(22, 0)),
    Session("Asia Reopen", TimeOfDay(0, 30)),
    Session("Test Trigger", TimeOfDay(21, 34))
  ]

  /** Display windows for the chat message, keyed by session identifier, in definition order. */
  const SessionWindows: seq<(string, string)> := [
    ("Morning Forecast", "06:45–07:00"),
    ("Evening Review", "23:00–23:15"),
    ("Sydney Open", "00:05–00:30"),
    ("Asian Open", "01:00–01:30"),
    ("Tokyo Open", "01:00–01:30"),
    ("Tokyo Close", "09:00–09:30"),
    ("Frankfurt Open", "07:00–07:30"),
    ("London Open", "08:00–10:00"),
    ("Frankfurt Close", "09:30–10:00"),
    ("London Close", "16:30–17:00"),
    ("Pre-New York", "13:30–14:30"),
    ("New York Open", "14:30–15:30"),
    ("NY Lunch", "17:30–18:30"),
    ("New York Close", "22:00–22:30"),
    ("Asia Reopen", "00:30–01:00"),
    ("Test Trigger", "Test Window")
  ]

  const UnknownWindow := "Time Window N/A"

  predicate ValidTime(t: TimeOfDay) {
    0 <= t.hour <= 23 && 0 <= t.minute <= 59
  }

  /** Identifiers are pairwise distinct (they are the keys of a dict). */
  predicate UniqueNames(cat: seq<Session>) {
    forall i, j :: 0 <= i < j < |cat| ==> cat[i].name != cat[j].name
  }

  lemma CatalogWellFormed()
    ensures |Sessions| == 16
    ensures forall i :: 0 <= i < |Sessions| ==> ValidTime(Sessions[i].time)
    ensures UniqueNames(Sessions)
  {
  }

  /** The window table lists the same identifiers as the registry, in the same order. */
  lemma WindowsMatchCatalog()
    ensures |SessionWindows| == |Sessions|
    ensures forall i :: 0 <= i < |Sessions| ==> SessionWindows[i].0 == Sessions[i].name
  {
  }

  /**
   * "Asian Open" is defined before "Tokyo Open" and both trigger at 01:00, so the
   * order of the registry decides which of them a poll fires first.
   */
  lemma AsianOpenPrecedesTokyoOpen()
    ensures Sessions[3].name == "Asian Open" && Sessions[4].name == "Tokyo Open"
    ensures Sessions[3].time == Sessions[4].time == TimeOfDay(1, 0)
  {
  }

  /** `SESSION_WINDOWS.get(name, "Time Window N/A")`. */
  function WindowLookup(table: seq<(string, string)>, name: string): (r: string)
    ensures (exists i :: 0 <= i < |table| && table[i].0 == name) || r == UnknownWindow
    ensures forall i :: 0 <= i < |table| && table[i].0 == name ==>
              exists j :: 0 <= j <= i && table[j].0 == name && r == table[j].1
  {
    if table == [] then UnknownWindow
    else if table[0].0 == name then table[0].1
    else WindowLookup(table[1..], name)
  }

  function SessionWindow(name: string): string {
    WindowLookup(SessionWindows, name)
  }

  // ---------------------------------------------------------------------------
  // Environment variables
  // ---------------------------------------------------------------------------

  /** The required variables, in the order the error message lists them. */
  const RequiredEnvVars: seq<string> :=
    ["OANDA_API_KEY", "OANDA_ACCOUNT_ID", "GPT_API_KEY", "TELEGRAM_BOT_TOKEN", "TELEGRAM_CHAT_ID"]

  /** A value counts as missing when unset, empty, or a placeholder containing "xxx" in any case. */
  predicate IsMissingValue(v: Option<string>) {
    v == None || v.value == "" || Text.Contains(Text.Lower(v.value), "xxx")
  }

  /** The list comprehension that collects missing variable names, order preserved. */
  function MissingVars(env: seq<(string, Option<string>)>): (r: seq<string>)
    ensures |r| <= |env|
    ensures forall k :: k in r <==> exists i :: 0 <= i < |env| && env[i].0 == k && IsMissingValue(env[i].1)
  {
    if env == [] then []
    else (if IsMissingValue(env[0].1) then [env[0].0] else []) + MissingVars(env[1..])
  }

  /** Filtering commutes with concatenation: the names keep their relative order. */
  lemma {:induction false} MissingVarsAppend(a: seq<(string, Option<string>)>, b: seq<(string, Option<string>)>)
    ensures MissingVars(a + b) == MissingVars(a) + MissingVars(b)
  {
    if a != [] {
      assert (a + b)[0] == a[0] && (a + b)[1..] == a[1..] + b;
      MissingVarsAppend(a[1..], b);
      var h := if IsMissingValue(a[0].1) then [a[0].0] else [];
      calc {
        MissingVars(a + b);
        h + MissingVars(a[1..] + b);
        h + (MissingVars(a[1..]) + MissingVars(b));
        (h + MissingVars(a[1..])) + MissingVars(b);
      }
    } else {
      assert a + b == b;
    }
  }

  /** Pairs each required name with its value; `getenv` stands for the process environment. */
  function RequiredEnv(getenv: string -> Option<string>): (r: seq<(string, Option<string>)>)
    ensures |r| == |RequiredEnvVars|
    ensures forall i :: 0 <= i < |r| ==> r[i] == (RequiredEnvVars[i], getenv(RequiredEnvVars[i]))
  {
    seq(|RequiredEnvVars|, i requires 0 <= i < |RequiredEnvVars| => (RequiredEnvVars[i], getenv(RequiredEnvVars[i])))
  }

  // ---------------------------------------------------------------------------
  // Startup validation
  // ---------------------------------------------------------------------------

  /** The value stored for a session: a `datetime.time`, or any other object. */
  datatype SessionValue = TimeValue(time: TimeOfDay) | OtherValue

  datatype ConfigError =
    | EnvironmentError(missing: seq<string>)
    | TypeError(sessionName: string)

  /** The loop that raises `TypeError` for the first entry that has no `hour`. */
  function CheckSessionTypes(entries: seq<(string, SessionValue)>): (r: Option<ConfigError>)
    ensures r == None <==> forall i :: 0 <= i < |entries| ==> entries[i].1.TimeValue?
    ensures r != None ==> exists i :: 0 <= i < |entries| && entries[i].1 == OtherValue
                                      && r == Some(TypeError(entries[i].0))
                                      && forall j :: 0 <= j < i ==> entries[j].1.TimeValue?
  {
    if entries == [] then None
    else if entries[0].1 == OtherValue then Some(TypeError(entries[0].0))
    else
      var rest := CheckSessionTypes(entries[1..]);
      assert forall i :: 1 <= i < |entries| ==> entries[i] == entries[1..][i - 1];
      rest
  }

  function CatalogEntries(cat: seq<Session>): (r: seq<(string, SessionValue)>)
    ensures |r| == |cat|
    ensures forall i :: 0 <= i < |cat| ==> r[i] == (cat[i].name, TimeValue(cat[i].time))
  {
    seq(|cat|, i requires 0 <= i < |cat| => (cat[i].name, TimeValue(cat[i].time)))
  }

  /**
   * What importing the configuration does: `EnvironmentError` if any required
   * variable is missing (listing all of them), else `TypeError` for a bad entry.
   */
  function Startup(getenv: string -> Option<string>, entries: seq<(string, SessionValue)>): (r: Option<ConfigError>)
    ensures (r == None) <==> (MissingVars(RequiredEnv(getenv)) == [] && CheckSessionTypes(entries) == None)
    ensures r.Some? && r.value.EnvironmentError? ==> r.value.missing == MissingVars(RequiredEnv(getenv)) != []
  {
    var missing := MissingVars(RequiredEnv(getenv));
    if missing != [] then Some(EnvironmentError(missing))
    else CheckSessionTypes(entries)
  }

  /** The shipped registry always passes the type check. */
  lemma CatalogPassesTypeCheck()
    ensures CheckSessionTypes(CatalogEntries(Sessions)) == None
  {
  }

  // ---------------------------------------------------------------------------
  // Broker endpoint
  // ---------------------------------------------------------------------------

  const PracticeDomain := "https://api-fxpractice.oanda.com"
  const LiveDomain := "https://api-fxtrade.oanda.com"

  /** `OANDA_ACCOUNT_TYPE`, defaulting to "practice" when unset. */
  function AccountType(getenv: string -> Option<string>): string {
    getenv("OANDA_ACCOUNT_TYPE").GetOr("practice")
  }

  function OandaDomain(accountType: string): (r: string)
    ensures r == PracticeDomain <==> accountType == "practice"
    ensures r == PracticeDomain || r == LiveDomain
  {
    if accountType == "practice" then PracticeDomain else LiveDomain
  }

  /** An unset account type selects the practice endpoint. */
  lemma UnsetAccountTypeIsPractice(getenv: string -> Option<string>)
    requires getenv("OANDA_ACCOUNT_TYPE") == None
    ensures OandaDomain(AccountType(getenv)) == PracticeDomain
  {
  }

  /** `GPT_MODEL`, defaulting to "gpt-4o". */
  function GptModel(getenv: string -> Option<string>): string {
    getenv("GPT_MODEL").GetOr("gpt-4o")
  }
}
