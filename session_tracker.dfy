/**
 * The session trigger scheduler. On each poll it decides which trading session,
 * if any, fires now: nothing at weekends (UTC), the fire memory is cleared when
 * the UTC date changes, and the first pending session in registry order whose
 * offset from its scheduled instant lies in the exact window (within 90 s either
 * way) or the catch-up window (up to 300 s late) fires and is remembered.
 *
 * The clock, the local calendar date and the local-to-UTC conversion are inputs
 * of a poll (a `Clock`); the time zone database itself is not modelled.
 */
module SessionTracker {
  import opened Wrappers
  import opened Config

  const MicrosPerSecond := 1_000_000
  const MicrosPerDay := 86_400 * MicrosPerSecond
  const SessionTriggerWindowSec := 90
  const MissedTriggerGraceSec := 5 * 60

  /** A UTC instant, in microseconds since 1970-01-01T00:00:00Z. */
  type Instant = int

  /** The UTC calendar date of an instant, as a day number (floor division). */
  function UtcDate(t: Instant): int {
    t / MicrosPerDay
  }

  /** Python's `weekday()`: Monday is 0; 1970-01-01 was a Thursday. */
  function Weekday(t: Instant): (r: int)
    ensures 0 <= r < 7
  {
    (UtcDate(t) + 3) % 7
  }

  predicate IsWeekend(t: Instant) {
    Weekday(t) == 5 || Weekday(t) == 6
  }

  /** A wall-clock reading in the local time zone; `date` numbers the local calendar day. */
  datatype LocalDateTime = LocalDateTime(date: int, hour: int, minute: int, second: int, microsecond: int)

  /**
   * What one poll reads from outside: the current UTC instant, the current local
   * calendar date, and the zone's local-to-UTC conversion.
   */
  datatype Clock = Clock(nowUtc: Instant, localToday: int, toUtc: LocalDateTime -> Instant)

  /** Today's local wall-clock reading at the session's hour and minute, seconds zeroed. */
  function SessionLocalDateTime(localToday: int, t: TimeOfDay): (d: LocalDateTime)
    ensures d.date == localToday && d.hour == t.hour && d.minute == t.minute
    ensures d.second == 0 && d.microsecond == 0
  {
    LocalDateTime(localToday, t.hour, t.minute, 0, 0)
  }

  /** The session's scheduled UTC instant for the current local date. */
  function ScheduledUtc(c: Clock, t: TimeOfDay): Instant {
    c.toUtc(SessionLocalDateTime(c.localToday, t))
  }

  function Offset(c: Clock, t: TimeOfDay): int {
    c.nowUtc - ScheduledUtc(c, t)
  }

  function Abs(x: int): int {
    if x < 0 then -x else x
  }

  predicate InExactWindow(delta: int) {
    Abs(delta) <= SessionTriggerWindowSec * MicrosPerSecond
  }

  predicate InCatchUpWindow(delta: int) {
    0 < delta <= MissedTriggerGraceSec * MicrosPerSecond
  }

  /** Together the two windows accept exactly the offsets from -90 s to +300 s. */
  lemma WindowsUnion(delta: int)
    ensures InExactWindow(delta) || InCatchUpWindow(delta)
            <==> -90 * MicrosPerSecond <= delta <= 300 * MicrosPerSecond
  {
  }

  /** The fire memory and the date it was last cleared. */
  datatype State = State(lastTriggered: map<string, Instant>, lastResetDate: int)

  /** A session fires when it has no entry in the memory and its offset is in either window. */
  predicate Due(fired: map<string, Instant>, c: Clock, s: Session) {
    s.name !in fired && (InExactWindow(Offset(c, s.time)) || InCatchUpWindow(Offset(c, s.time)))
  }

  /** The first index at or after `from` whose session satisfies `isDue`. */
  function FirstWhere(cat: seq<Session>, isDue: Session -> bool, from: nat): (r: Option<nat>)
    requires from <= |cat|
    ensures r.Some? ==> from <= r.value < |cat| && isDue(cat[r.value])
    ensures r.Some? ==> forall j :: from <= j < r.value ==> !isDue(cat[j])
    ensures r.None? ==> forall j :: from <= j < |cat| ==> !isDue(cat[j])
    decreases |cat| - from
  {
    if from == |cat| then None
    else if isDue(cat[from]) then Some(from)
    else FirstWhere(cat, isDue, from + 1)
  }

  /** The first index satisfying `isDue` is the one before which none does. */
  lemma {:induction false} FirstWhereIs(cat: seq<Session>, isDue: Session -> bool, k: nat)
    requires k < |cat| && isDue(cat[k])
    requires forall j :: 0 <= j < k ==> !isDue(cat[j])
    ensures FirstWhere(cat, isDue, 0) == Some(k)
  {
    var r := FirstWhere(cat, isDue, 0);
    assert r.Some? && r.value <= k;
  }

  /** The memory after the daily reset of a weekday poll. */
  function AfterReset(st: State, c: Clock): (r: State)
    ensures r.lastResetDate == UtcDate(c.nowUtc)
    ensures UtcDate(c.nowUtc) == st.lastResetDate ==> r == st
    ensures UtcDate(c.nowUtc) != st.lastResetDate ==> r.lastTriggered == map[]
  {
    if UtcDate(c.nowUtc) != st.lastResetDate then State(map[], UtcDate(c.nowUtc)) else st
  }

  /** One poll of the scheduler as written: the new memory and the session fired, if any. */
  function Poll(st: State, c: Clock, cat: seq<Session>): (State, Option<string>) {
    if IsWeekend(c.nowUtc) then (st, None)
    else
      var st1 := AfterReset(st, c);
      match FirstWhere(cat, s => Due(st1.lastTriggered, c, s), 0)
      case None => (st1, None)
      case Some(k) => (State(st1.lastTriggered[cat[k].name := c.nowUtc], st1.lastResetDate), Some(cat[k].name))
  }

  /** The results of a sequence of polls, each starting from the memory the previous one left. */
  function Run(st: State, polls: seq<Clock>, cat: seq<Session>): (results: seq<Option<string>>)
    ensures |results| == |polls|
    decreases |polls|
  {
    if polls == [] then []
    else
      var p := Poll(st, polls[0], cat);
      [p.1] + Run(p.0, polls[1..], cat)
  }

  /** The scheduler object: the module-level memory and reset date of the source. */
  class Scheduler {
    var lastTriggeredSessions: map<string, Instant>
    var lastResetDate: int

    /** At start-up the memory is empty and the reset date is the current UTC date. */
    constructor (startUtc: Instant)
      ensures lastTriggeredSessions == map[] && lastResetDate == UtcDate(startUtc)
    {
      lastTriggeredSessions := map[];
      lastResetDate := UtcDate(startUtc);
    }

    function Snapshot(): State
      reads this
    {
      State(lastTriggeredSessions, lastResetDate)
    }

    /** `check_sessions`: one poll against the shipped registry. */
    method CheckSessions(c: Clock) returns (fired: Option<string>)
      modifies this
      ensures (Snapshot(), fired) == Poll(old(Snapshot()), c, Sessions)
      ensures fired.Some? ==> lastTriggeredSessions == AfterReset(old(Snapshot()), c).lastTriggered[fired.value := c.nowUtc]
      ensures fired.None? && !IsWeekend(c.nowUtc) ==> Snapshot() == AfterReset(old(Snapshot()), c)
    {
      var now := c.nowUtc;
      var weekday := Weekday(now);
      if weekday == 5 || weekday == 6 {
        return None;
      }
      if UtcDate(now) != lastResetDate {
        lastTriggeredSessions := map[];
        lastResetDate := UtcDate(now);
      }
      ghost var st1 := Snapshot();
      assert st1 == AfterReset(old(Snapshot()), c);
      for i := 0 to |Sessions|
        invariant Snapshot() == st1
        invariant forall j :: 0 <= j < i ==> !Due(st1.lastTriggered, c, Sessions[j])
      {
        var name := Sessions[i].name;
        var deltaSec := now - ScheduledUtc(c, Sessions[i].time);
        var sent := name in lastTriggeredSessions;
        if Abs(deltaSec) <= SessionTriggerWindowSec * MicrosPerSecond {
          if !sent {
            FirstDueSessionFires(old(Snapshot()), c, Sessions, i);
            lastTriggeredSessions := lastTriggeredSessions[name := now];
            return Some(name);
          }
        }
        if 0 < deltaSec <= MissedTriggerGraceSec * MicrosPerSecond {
          if !sent {
            FirstDueSessionFires(old(Snapshot()), c, Sessions, i);
            lastTriggeredSessions := lastTriggeredSessions[name := now];
            return Some(name);
          }
        }
      }
      NothingDueNothingFires(old(Snapshot()), c, Sessions);
      return None;
    }
  }

  // ---------------------------------------------------------------------------
  // Properties of one poll
  // ---------------------------------------------------------------------------

  /** Saturday and Sunday (UTC): nothing fires and the memory and reset date are untouched. */
  lemma WeekendPollIsNoOp(st: State, c: Clock, cat: seq<Session>)
    requires IsWeekend(c.nowUtc)
    ensures Poll(st, c, cat) == (st, None)
  {
  }

  /**
   * A weekday poll on a new UTC date first empties the memory and records the date:
   * it behaves exactly as a poll against an empty memory.
   */
  lemma DailyResetForgets(st: State, c: Clock, cat: seq<Session>)
    requires !IsWeekend(c.nowUtc) && UtcDate(c.nowUtc) != st.lastResetDate
    ensures Poll(st, c, cat) == Poll(State(map[], UtcDate(c.nowUtc)), c, cat)
    ensures Poll(st, c, cat).0.lastResetDate == UtcDate(c.nowUtc)
  {
  }

  /**
   * What a poll returns is a pending session whose offset lies between -90 s and
   * +300 s, and every session before it in the registry was not due; only its
   * entry of the memory changes, and it now records the poll instant.
   */
  lemma {:induction false} PollFiresFirstDue(st: State, c: Clock, cat: seq<Session>)
    requires Poll(st, c, cat).1.Some?
    ensures !IsWeekend(c.nowUtc)
    ensures exists k :: 0 <= k < |cat| && cat[k].name == Poll(st, c, cat).1.value
              && cat[k].name !in AfterReset(st, c).lastTriggered
              && -90 * MicrosPerSecond <= Offset(c, cat[k].time) <= 300 * MicrosPerSecond
              && (forall j :: 0 <= j < k ==> !Due(AfterReset(st, c).lastTriggered, c, cat[j]))
    ensures Poll(st, c, cat).0
            == State(AfterReset(st, c).lastTriggered[Poll(st, c, cat).1.value := c.nowUtc], UtcDate(c.nowUtc))
  {
    var st1 := AfterReset(st, c);
    var isDue := s => Due(st1.lastTriggered, c, s);
    var k := FirstWhere(cat, isDue, 0).value;
    assert isDue(cat[k]);
    WindowsUnion(Offset(c, cat[k].time));
    forall j | 0 <= j < k ensures !Due(st1.lastTriggered, c, cat[j]) {
      assert !isDue(cat[j]);
    }
  }

  /** Conversely, on a weekday the first due session in registry order is the one that fires. */
  lemma {:induction false} FirstDueSessionFires(st: State, c: Clock, cat: seq<Session>, k: nat)
    requires !IsWeekend(c.nowUtc) && k < |cat|
    requires Due(AfterReset(st, c).lastTriggered, c, cat[k])
    requires forall j :: 0 <= j < k ==> !Due(AfterReset(st, c).lastTriggered, c, cat[j])
    ensures Poll(st, c, cat).1 == Some(cat[k].name)
    ensures Poll(st, c, cat).0 == State(AfterReset(st, c).lastTriggered[cat[k].name := c.nowUtc], UtcDate(c.nowUtc))
  {
    var fired := AfterReset(st, c).lastTriggered;
    FirstWhereIs(cat, s => Due(fired, c, s), k);
  }

  /** A weekday poll where no session is due fires nothing and changes only the daily reset. */
  lemma {:induction false} NothingDueNothingFires(st: State, c: Clock, cat: seq<Session>)
    requires !IsWeekend(c.nowUtc)
    requires forall j :: 0 <= j < |cat| ==> !Due(AfterReset(st, c).lastTriggered, c, cat[j])
    ensures Poll(st, c, cat) == (AfterReset(st, c), None)
  {
    var st1 := AfterReset(st, c);
    var isDue := s => Due(st1.lastTriggered, c, s);
    assert FirstWhere(cat, isDue, 0).None?;
  }

  /**
   * Of two due sessions only the first in registry order fires; a later one that
   * was due stays pending for the next poll.
   */
  lemma {:induction false} LaterDueSessionStaysPending(st: State, c: Clock, cat: seq<Session>, j: nat)
    requires UniqueNames(cat) && j < |cat|
    requires Poll(st, c, cat).1.Some? && Poll(st, c, cat).1 != Some(cat[j].name)
    requires Due(AfterReset(st, c).lastTriggered, c, cat[j])
    ensures cat[j].name !in Poll(st, c, cat).0.lastTriggered
  {
    PollFiresFirstDue(st, c, cat);
  }

  /** The registry index of the session a poll fired, with the facts `PollFiresFirstDue` states about it. */
  lemma FiredIndex(st: State, c: Clock, cat: seq<Session>) returns (k: nat)
    requires Poll(st, c, cat).1.Some?
    ensures k < |cat| && cat[k].name == Poll(st, c, cat).1.value
    ensures -90 * MicrosPerSecond <= Offset(c, cat[k].time) <= 300 * MicrosPerSecond
    ensures forall j :: 0 <= j < k ==> !Due(AfterReset(st, c).lastTriggered, c, cat[j])
  {
    PollFiresFirstDue(st, c, cat);
    k :| 0 <= k < |cat| && cat[k].name == Poll(st, c, cat).1.value
         && cat[k].name !in AfterReset(st, c).lastTriggered
         && -90 * MicrosPerSecond <= Offset(c, cat[k].time) <= 300 * MicrosPerSecond
         && (forall j :: 0 <= j < k ==> !Due(AfterReset(st, c).lastTriggered, c, cat[j]));
  }

  /** "Tokyo Open" sits at index 4 of the shipped registry and nowhere else. */
  lemma TokyoOpenIndex(k: nat)
    requires k < |Sessions| && Sessions[k].name == "Tokyo Open"
    ensures k == 4
  {
    CatalogWellFormed();
    assert Sessions[4].name == "Tokyo Open";
  }

  /** With the shipped registry, "Tokyo Open" can fire only once "Asian Open" already has. */
  lemma {:induction false} TokyoOpenWaitsForAsianOpen(st: State, c: Clock)
    requires Poll(st, c, Sessions).1 == Some("Tokyo Open")
    ensures "Asian Open" in AfterReset(st, c).lastTriggered
  {
    var k := FiredIndex(st, c, Sessions);
    TokyoOpenIndex(k);
    assert !Due(AfterReset(st, c).lastTriggered, c, Sessions[3]);
    assert Sessions[3] == Session("Asian Open", Sessions[4].time);
    WindowsUnion(Offset(c, Sessions[3].time));
  }

  // ---------------------------------------------------------------------------
  // Idempotence within a UTC date
  // ---------------------------------------------------------------------------

  predicate AllOnUtcDate(polls: seq<Clock>, d: int) {
    forall i :: 0 <= i < |polls| ==> UtcDate(polls[i].nowUtc) == d
  }

  /** Once a session is in the memory, polls on the same UTC date never return it again. */
  lemma {:induction false} FiredSessionStaysFired(st: State, polls: seq<Clock>, cat: seq<Session>, name: string)
    requires name in st.lastTriggered && AllOnUtcDate(polls, st.lastResetDate)
    ensures Some(name) !in Run(st, polls, cat)
    decreases |polls|
  {
    if polls != [] {
      var p := Poll(st, polls[0], cat);
      if p.1.Some? {
        PollFiresFirstDue(st, polls[0], cat);
      }
      assert name in p.0.lastTriggered && p.0.lastResetDate == st.lastResetDate && p.1 != Some(name);
      FiredSessionStaysFired(p.0, polls[1..], cat, name);
    }
  }

  /** Between two daily resets each session is returned at most once. */
  lemma {:induction false} AtMostOncePerUtcDate(st: State, polls: seq<Clock>, cat: seq<Session>, name: string, d: int)
    requires AllOnUtcDate(polls, d)
    ensures multiset(Run(st, polls, cat))[Some(name)] <= 1
    decreases |polls|
  {
    if polls != [] {
      var p := Poll(st, polls[0], cat);
      assert Run(st, polls, cat) == [p.1] + Run(p.0, polls[1..], cat);
      if p.1 == Some(name) {
        PollFiresFirstDue(st, polls[0], cat);
        FiredSessionStaysFired(p.0, polls[1..], cat, name);
      } else {
        AtMostOncePerUtcDate(p.0, polls[1..], cat, name, d);
      }
    }
  }

  // ---------------------------------------------------------------------------
  // Finding: a window that straddles UTC midnight fires twice
  // ---------------------------------------------------------------------------

  /** Europe/Rome in winter (UTC+1); `date` counts local days since 1970-01-01. */
  function WinterRome(l: LocalDateTime): Instant {
    l.date * MicrosPerDay + ((l.hour - 1) * 3600 + l.minute * 60 + l.second) * MicrosPerSecond + l.microsecond
  }

  /** Polls 80 s before and 5 s after UTC midnight at the start of local day 5, in winter. */
  const BeforeMidnight := Clock(5 * MicrosPerDay - 80 * MicrosPerSecond, 5, WinterRome)
  const AfterMidnight := Clock(5 * MicrosPerDay + 5 * MicrosPerSecond, 5, WinterRome)

  /** The first poll, on UTC date 4, fires "Asian Open" from an empty memory. */
  lemma AsianOpenFiresBeforeMidnight()
    ensures Poll(State(map[], 4), BeforeMidnight, Sessions).1 == Some("Asian Open")
    ensures Poll(State(map[], 4), BeforeMidnight, Sessions).0.lastResetDate == 4
  {
    FirstDueSessionFires(State(map[], 4), BeforeMidnight, Sessions, 3);
  }

  /** The second poll, on UTC date 5, resets the date-4 memory and fires "Asian Open" again. */
  lemma AsianOpenFiresAfterMidnight(st: State)
    requires st.lastResetDate == 4
    ensures Poll(st, AfterMidnight, Sessions).1 == Some("Asian Open")
  {
    FirstDueSessionFires(st, AfterMidnight, Sessions, 3);
  }

  /**
   * In winter "Asian Open" (01:00 local) is scheduled at exactly 00:00 UTC. A poll
   * 80 s before fires it; 5 s after midnight the daily reset empties the memory and
   * the same scheduled instant fires again, inside one exact window.
   */
  lemma AsianOpenFiresTwiceAcrossUtcMidnight()
    ensures ScheduledUtc(BeforeMidnight, TimeOfDay(1, 0)) == ScheduledUtc(AfterMidnight, TimeOfDay(1, 0)) == 5 * MicrosPerDay
    ensures Run(State(map[], 4), [BeforeMidnight, AfterMidnight], Sessions) == [Some("Asian Open"), Some("Asian Open")]
  {
    var st0 := State(map[], 4);
    AsianOpenFiresBeforeMidnight();
    var st1 := Poll(st0, BeforeMidnight, Sessions).0;
    AsianOpenFiresAfterMidnight(st1);
    assert Run(st0, [BeforeMidnight, AfterMidnight], Sessions)
        == [Poll(st0, BeforeMidnight, Sessions).1] + Run(st1, [AfterMidnight], Sessions);
  }

  // ---------------------------------------------------------------------------
  // Corrected rule: remember fires per scheduled occurrence
  // ---------------------------------------------------------------------------

  /**
   * Pending for the current occurrence: never fired, or last fired before the
   * earliest instant at which this occurrence may fire.
   */
  predicate PendingOccurrence(lastFired: map<string, Instant>, c: Clock, s: Session) {
    s.name !in lastFired
    || lastFired[s.name] < ScheduledUtc(c, s.time) - SessionTriggerWindowSec * MicrosPerSecond
  }

  predicate DueOccurrence(lastFired: map<string, Instant>, c: Clock, s: Session) {
    PendingOccurrence(lastFired, c, s) && (InExactWindow(Offset(c, s.time)) || InCatchUpWindow(Offset(c, s.time)))
  }

  /** One poll under the corrected rule: same windows and order, no date-based reset. */
  function PollPerOccurrence(lastFired: map<string, Instant>, c: Clock, cat: seq<Session>): (map<string, Instant>, Option<string>) {
    if IsWeekend(c.nowUtc) then (lastFired, None)
    else
      match FirstWhere(cat, s => DueOccurrence(lastFired, c, s), 0)
      case None => (lastFired, None)
      case Some(k) => (lastFired[cat[k].name := c.nowUtc], Some(cat[k].name))
  }

  /** Under the corrected rule too, the first due session in registry order fires. */
  lemma {:induction false} FirstDueOccurrenceFires(lastFired: map<string, Instant>, c: Clock, cat: seq<Session>, k: nat)
    requires !IsWeekend(c.nowUtc) && k < |cat|
    requires DueOccurrence(lastFired, c, cat[k])
    requires forall j :: 0 <= j < k ==> !DueOccurrence(lastFired, c, cat[j])
    ensures PollPerOccurrence(lastFired, c, cat) == (lastFired[cat[k].name := c.nowUtc], Some(cat[k].name))
  {
    FirstWhereIs(cat, s => DueOccurrence(lastFired, c, s), k);
  }

  function RunPerOccurrence(lastFired: map<string, Instant>, polls: seq<Clock>, cat: seq<Session>): (results: seq<Option<string>>)
    ensures |results| == |polls|
    decreases |polls|
  {
    if polls == [] then []
    else
      var p := PollPerOccurrence(lastFired, polls[0], cat);
      [p.1] + RunPerOccurrence(p.0, polls[1..], cat)
  }

  /** Every poll computes the same scheduled instant `at` for every entry named `name`. */
  predicate SameOccurrence(polls: seq<Clock>, cat: seq<Session>, name: string, at: Instant) {
    forall i, k :: 0 <= i < |polls| && 0 <= k < |cat| && cat[k].name == name ==>
      ScheduledUtc(polls[i], cat[k].time) == at
  }

  lemma {:induction false} OccurrenceStaysFired(lastFired: map<string, Instant>, polls: seq<Clock>, cat: seq<Session>, name: string, at: Instant)
    requires SameOccurrence(polls, cat, name, at)
    requires name in lastFired && lastFired[name] >= at - SessionTriggerWindowSec * MicrosPerSecond
    ensures Some(name) !in RunPerOccurrence(lastFired, polls, cat)
    decreases |polls|
  {
    if polls != [] {
      var c := polls[0];
      var p := PollPerOccurrence(lastFired, c, cat);
      if p.1.Some? {
        var isDue := s => DueOccurrence(lastFired, c, s);
        var k := FirstWhere(cat, isDue, 0).value;
        assert isDue(cat[k]);
        assert cat[k].name != name;
      }
      assert SameOccurrence(polls[1..], cat, name, at) by {
        forall i, k | 0 <= i < |polls| - 1 && 0 <= k < |cat| && cat[k].name == name
          ensures ScheduledUtc(polls[1..][i], cat[k].time) == at
        {
          assert polls[1..][i] == polls[i + 1];
        }
      }
      OccurrenceStaysFired(p.0, polls[1..], cat, name, at);
    }
  }

  /**
   * Under the corrected rule a scheduled occurrence fires at most once, whatever
   * the UTC dates of the polls.
   */
  lemma {:induction false} OncePerOccurrence(lastFired: map<string, Instant>, polls: seq<Clock>, cat: seq<Session>, name: string, at: Instant)
    requires SameOccurrence(polls, cat, name, at)
    ensures multiset(RunPerOccurrence(lastFired, polls, cat))[Some(name)] <= 1
    decreases |polls|
  {
    if polls != [] {
      var c := polls[0];
      var p := PollPerOccurrence(lastFired, c, cat);
      assert RunPerOccurrence(lastFired, polls, cat) == [p.1] + RunPerOccurrence(p.0, polls[1..], cat);
      assert SameOccurrence(polls[1..], cat, name, at) by {
        forall i, k | 0 <= i < |polls| - 1 && 0 <= k < |cat| && cat[k].name == name
          ensures ScheduledUtc(polls[1..][i], cat[k].time) == at
        {
          assert polls[1..][i] == polls[i + 1];
        }
      }
      if p.1 == Some(name) {
        var isDue := s => DueOccurrence(lastFired, c, s);
        var k := FirstWhere(cat, isDue, 0).value;
        assert isDue(cat[k]);
        assert cat[k].name == name;
        assert ScheduledUtc(c, cat[k].time) == at;
        OccurrenceStaysFired(p.0, polls[1..], cat, name, at);
      } else {
        OncePerOccurrence(p.0, polls[1..], cat, name, at);
      }
    }
  }

  /** Under the corrected rule the first poll fires "Asian Open" from an empty memory. */
  lemma AsianOpenOccurrenceBeforeMidnight()
    ensures PollPerOccurrence(map[], BeforeMidnight, Sessions)
            == (map["Asian Open" := BeforeMidnight.nowUtc], Some("Asian Open"))
  {
    var m0: map<string, Instant> := map[];
    assert Weekday(BeforeMidnight.nowUtc) == 0;
    assert Offset(BeforeMidnight, Sessions[3].time) == -80 * MicrosPerSecond;
    assert !DueOccurrence(m0, BeforeMidnight, Sessions[0]);
    assert !DueOccurrence(m0, BeforeMidnight, Sessions[1]);
    assert !DueOccurrence(m0, BeforeMidnight, Sessions[2]);
    FirstDueOccurrenceFires(m0, BeforeMidnight, Sessions, 3);
  }

  /** Under the corrected rule the second poll skips the fired occurrence and fires "Tokyo Open". */
  lemma TokyoOpenOccurrenceAfterMidnight()
    ensures PollPerOccurrence(map["Asian Open" := BeforeMidnight.nowUtc], AfterMidnight, Sessions).1 == Some("Tokyo Open")
  {
    var m1: map<string, Instant> := map["Asian Open" := BeforeMidnight.nowUtc];
    assert Weekday(AfterMidnight.nowUtc) == 1;
    assert Offset(AfterMidnight, Sessions[4].time) == 5 * MicrosPerSecond;
    assert !DueOccurrence(m1, AfterMidnight, Sessions[0]);
    assert !DueOccurrence(m1, AfterMidnight, Sessions[1]);
    assert !DueOccurrence(m1, AfterMidnight, Sessions[2]);
    assert !DueOccurrence(m1, AfterMidnight, Sessions[3]);
    FirstDueOccurrenceFires(m1, AfterMidnight, Sessions, 4);
  }

  /**
   * On the midnight example the corrected rule fires "Asian Open" once: after
   * midnight it is "Tokyo Open", still pending, that fires.
   */
  lemma AsianOpenFiresOncePerOccurrence()
    ensures RunPerOccurrence(map[], [BeforeMidnight, AfterMidnight], Sessions) == [Some("Asian Open"), Some("Tokyo Open")]
  {
    AsianOpenOccurrenceBeforeMidnight();
    TokyoOpenOccurrenceAfterMidnight();
    var m1 := map["Asian Open" := BeforeMidnight.nowUtc];
    assert RunPerOccurrence(map[], [BeforeMidnight, AfterMidnight], Sessions)
        == [Some("Asian Open")] + RunPerOccurrence(m1, [AfterMidnight], Sessions);
  }
}
