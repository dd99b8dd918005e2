/**
 * The position-closing robot: on every tick it scans the open positions and
 * closes XAUUSD positions that hit the hard cash stop-loss or the take-profit
 * threshold max(target, fee floor). A set of ids being closed prevents double
 * closes; `openedAt` remembers when each position opened, for the optional
 * minimum hold time. Money is `real`; instants are UTC milliseconds.
 */
module PositionCloser {
  import opened Wrappers
  import Text

  type PositionId = int

  /** A UTC instant in milliseconds. */
  type Millis = int

  /** An open position as the trading platform reports it. */
  datatype Position = Position(
    id: PositionId,
    symbolName: string,
    labelText: Option<string>,
    netProfit: real,
    entryTimeUtc: Millis)

  /** The robot's user parameters (timer, retry delay and logging switches are not modelled). */
  datatype Parameters = Parameters(
    targetProfitMoney: real,
    feeFloorMoney: real,
    maxLossMoney: real,
    onlyManualPositions: bool,
    manualLabelWhitelist: string,
    useSpreadGuard: bool,
    maxSpreadPoints: int,
    useMinHoldMs: bool,
    minHoldMs: int,
    retryCount: int,
    dryRun: bool)

  /**
   * What the platform answers while the robot runs: the current time, whether a
   * symbol's spread is within the limit, and whether attempt number `k` to close
   * a position succeeds.
   */
  datatype Market = Market(
    nowMs: Millis,
    spreadOk: string -> bool,
    closeSucceeds: (PositionId, nat) -> bool)

  // ---------------------------------------------------------------------------
  // Parameter checks
  // ---------------------------------------------------------------------------

  datatype StartFailure =
    | TargetNotPositive
    | FeeFloorNegative
    | MaxLossNotPositive
    | MinHoldNegative
    | MaxSpreadNotPositive

  /** The checks at the top of `OnStart`, in order; the first that fails stops the robot. */
  function StartCheck(p: Parameters): (r: Option<StartFailure>)
    ensures r == None <==>
              && p.targetProfitMoney > 0.0
              && p.feeFloorMoney >= 0.0
              && p.maxLossMoney > 0.0
              && (p.useMinHoldMs ==> p.minHoldMs >= 0)
              && (p.useSpreadGuard ==> p.maxSpreadPoints > 0)
    ensures r == Some(FeeFloorNegative) ==> p.targetProfitMoney > 0.0
    ensures r == Some(MaxLossNotPositive) ==> p.targetProfitMoney > 0.0 && p.feeFloorMoney >= 0.0
    ensures r == Some(MinHoldNegative) ==> p.targetProfitMoney > 0.0 && p.feeFloorMoney >= 0.0 && p.maxLossMoney > 0.0
    ensures r == Some(MaxSpreadNotPositive) ==>
              p.targetProfitMoney > 0.0 && p.feeFloorMoney >= 0.0 && p.maxLossMoney > 0.0
              && (p.useMinHoldMs ==> p.minHoldMs >= 0)
  {
    if p.targetProfitMoney <= 0.0 then Some(TargetNotPositive)
    else if p.feeFloorMoney < 0.0 then Some(FeeFloorNegative)
    else if p.maxLossMoney <= 0.0 then Some(MaxLossNotPositive)
    else if p.useMinHoldMs && p.minHoldMs < 0 then Some(MinHoldNegative)
    else if p.useSpreadGuard && p.maxSpreadPoints <= 0 then Some(MaxSpreadNotPositive)
    else None
  }

  // ---------------------------------------------------------------------------
  // Filters and thresholds
  // ---------------------------------------------------------------------------

  /** The take-profit threshold: never close a winner below the fee floor. */
  function EffectiveTarget(p: Parameters): (r: real)
    ensures r >= p.targetProfitMoney && r >= p.feeFloorMoney
    ensures r == p.targetProfitMoney || r == p.feeFloorMoney
  {
    if p.targetProfitMoney >= p.feeFloorMoney then p.targetProfitMoney else p.feeFloorMoney
  }

  /** .NET's `string.IsNullOrWhiteSpace`. */
  predicate IsNullOrWhiteSpace(s: Option<string>) {
    s == None || forall i :: 0 <= i < |s.value| ==> Text.IsDotNetWhiteSpace(s.value[i])
  }

  /** The symbol filter: ordinal case-insensitive equality with "XAUUSD". */
  predicate IsXauusd(symbolName: string) {
    Text.Lower(symbolName) == "xauusd"
  }

  /**
   * A manual position has a blank label; when the whitelist is not blank, a
   * label containing it (ignoring case) also counts as manual.
   */
  function IsManualLabel(labelText: Option<string>, whitelist: string): (r: bool)
    ensures IsNullOrWhiteSpace(labelText) ==> r
    ensures r && !IsNullOrWhiteSpace(labelText) ==>
              !IsNullOrWhiteSpace(Some(whitelist)) && Text.ContainsIgnoreCase(labelText.value, whitelist)
    ensures !IsNullOrWhiteSpace(Some(whitelist)) && labelText.Some? && Text.ContainsIgnoreCase(labelText.value, whitelist) ==> r
  {
    var emptyOrWs := IsNullOrWhiteSpace(labelText);
    if !IsNullOrWhiteSpace(Some(whitelist)) then
      emptyOrWs || Text.ContainsIgnoreCase(labelText.GetOr(""), whitelist)
    else
      emptyOrWs
  }

  /**
   * The minimum hold check: the position's recorded opening time, or its entry
   * time when none is recorded, lies at least `minHoldMs` before now.
   */
  function HasHeldLongEnough(p: Parameters, openedAt: map<PositionId, Millis>, pos: Position, nowMs: Millis): bool {
    if !p.useMinHoldMs then true
    else
      var openedUtc := if pos.id in openedAt then openedAt[pos.id] else pos.entryTimeUtc;
      nowMs - openedUtc >= p.minHoldMs
  }

  /**
   * A position that has been held long enough stays so as time passes, and
   * recording an opening time no later than its entry time never makes it
   * wait longer.
   */
  lemma HeldLongEnoughIsMonotone(p: Parameters, openedAt: map<PositionId, Millis>, pos: Position, nowMs: Millis, laterMs: Millis)
    requires nowMs <= laterMs
    ensures HasHeldLongEnough(p, openedAt, pos, nowMs) ==> HasHeldLongEnough(p, openedAt, pos, laterMs)
    ensures HasHeldLongEnough(p, map[], pos, nowMs) ==> HasHeldLongEnough(p, openedAt, pos, nowMs) || openedAt[pos.id] > pos.entryTimeUtc
  {
  }

  datatype Action = Skip | CloseStopLoss | CloseTakeProfit

  /** What the scan does with one position, given the ids already being closed. */
  function Decide(p: Parameters, pos: Position, closing: set<PositionId>, heldLongEnough: bool, spreadOk: bool): (a: Action)
    ensures a != Skip ==> IsXauusd(pos.symbolName) && pos.id !in closing
    ensures a != Skip && p.onlyManualPositions ==> IsManualLabel(pos.labelText, p.manualLabelWhitelist)
    ensures a == CloseStopLoss <==>
              && IsXauusd(pos.symbolName)
              && (p.onlyManualPositions ==> IsManualLabel(pos.labelText, p.manualLabelWhitelist))
              && pos.netProfit <= -p.maxLossMoney
              && pos.id !in closing
    ensures a == CloseTakeProfit <==>
              && IsXauusd(pos.symbolName)
              && (p.onlyManualPositions ==> IsManualLabel(pos.labelText, p.manualLabelWhitelist))
              && pos.netProfit > -p.maxLossMoney
              && (p.useMinHoldMs ==> heldLongEnough)
              && (p.useSpreadGuard ==> spreadOk)
              && pos.netProfit >= EffectiveTarget(p)
              && pos.id !in closing
    ensures a == CloseTakeProfit ==> pos.netProfit >= p.targetProfitMoney && pos.netProfit >= p.feeFloorMoney
  {
    if !IsXauusd(pos.symbolName) then Skip
    else if p.onlyManualPositions && !IsManualLabel(pos.labelText, p.manualLabelWhitelist) then Skip
    else if pos.netProfit <= -p.maxLossMoney then
      if pos.id in closing then Skip else CloseStopLoss
    else if p.useMinHoldMs && !heldLongEnough then Skip
    else if p.useSpreadGuard && !spreadOk then Skip
    else if pos.netProfit >= EffectiveTarget(p) then
      if pos.id in closing then Skip else CloseTakeProfit
    else Skip
  }

  // ---------------------------------------------------------------------------
  // Closing with retries
  // ---------------------------------------------------------------------------

  /** How many times the retry loop calls `ClosePosition` at most. */
  function MaxAttempts(p: Parameters): (n: nat)
    ensures n >= 1 && (p.retryCount >= 0 ==> n == p.retryCount + 1)
  {
    if p.retryCount < 0 then 1 else p.retryCount + 1
  }

  /** Some attempt numbered 1 to `n` succeeds. */
  predicate AnyAttemptSucceeds(m: Market, id: PositionId, n: nat) {
    n > 0 && (m.closeSucceeds(id, n) || AnyAttemptSucceeds(m, id, n - 1))
  }

  lemma {:induction false} AnyAttemptSucceedsMonotone(m: Market, id: PositionId, n: nat, n': nat)
    requires n <= n' && AnyAttemptSucceeds(m, id, n)
    ensures AnyAttemptSucceeds(m, id, n')
    decreases n'
  {
    if n < n' {
      AnyAttemptSucceedsMonotone(m, id, n, n' - 1);
    }
  }

  /** Whether `CloseWithRetry` reports the position closed. */
  predicate CloseOutcome(p: Parameters, m: Market, id: PositionId) {
    p.dryRun || AnyAttemptSucceeds(m, id, MaxAttempts(p))
  }

  // ---------------------------------------------------------------------------
  // The scan as a function of the positions
  // ---------------------------------------------------------------------------

  function StepAction(p: Parameters, closing: set<PositionId>, openedAt: map<PositionId, Millis>, pos: Position, m: Market): Action {
    Decide(p, pos, closing, HasHeldLongEnough(p, openedAt, pos, m.nowMs), m.spreadOk(pos.symbolName))
  }

  /**
   * The ids being closed after handling one position: a successful close keeps
   * its id, a failed one removes it again, a skipped position changes nothing.
   */
  function StepClosing(p: Parameters, closing: set<PositionId>, openedAt: map<PositionId, Millis>, pos: Position, m: Market): (r: set<PositionId>)
    ensures closing <= r <= closing + {pos.id}
    ensures StepAction(p, closing, openedAt, pos, m) != Skip ==> (pos.id in r <==> CloseOutcome(p, m, pos.id))
    ensures StepAction(p, closing, openedAt, pos, m) == Skip ==> r == closing
  {
    if StepAction(p, closing, openedAt, pos, m) == Skip then closing
    else if CloseOutcome(p, m, pos.id) then closing + {pos.id}
    else closing - {pos.id}
  }

  function ClosingAfter(p: Parameters, closing: set<PositionId>, openedAt: map<PositionId, Millis>, positions: seq<Position>, m: Market): set<PositionId>
    decreases |positions|
  {
    if positions == [] then closing
    else ClosingAfter(p, StepClosing(p, closing, openedAt, positions[0], m), openedAt, positions[1..], m)
  }

  /** A call of `CloseWithRetry` made by the scan, and why. */
  datatype CloseRequest = CloseRequest(position: Position, action: Action)

  /** The close calls the scan makes, in order. */
  function CloseRequests(p: Parameters, closing: set<PositionId>, openedAt: map<PositionId, Millis>, positions: seq<Position>, m: Market): seq<CloseRequest>
    decreases |positions|
  {
    if positions == [] then []
    else
      var a := StepAction(p, closing, openedAt, positions[0], m);
      (if a == Skip then [] else [CloseRequest(positions[0], a)])
      + CloseRequests(p, StepClosing(p, closing, openedAt, positions[0], m), openedAt, positions[1..], m)
  }

  /** The scan only ever adds ids, and only ids of scanned positions. */
  lemma {:induction false} ClosingOnlyGrows(p: Parameters, closing: set<PositionId>, openedAt: map<PositionId, Millis>, positions: seq<Position>, m: Market)
    ensures closing <= ClosingAfter(p, closing, openedAt, positions, m)
    ensures forall id :: id in ClosingAfter(p, closing, openedAt, positions, m) ==>
              id in closing || exists i :: 0 <= i < |positions| && positions[i].id == id
    decreases |positions|
  {
    if positions != [] {
      var next := StepClosing(p, closing, openedAt, positions[0], m);
      ClosingOnlyGrows(p, next, openedAt, positions[1..], m);
      forall id | id in ClosingAfter(p, closing, openedAt, positions, m)
        ensures id in closing || exists i :: 0 <= i < |positions| && positions[i].id == id
      {
        if id !in closing && id == positions[0].id {
        } else if id !in closing {
          var i :| 0 <= i < |positions[1..]| && positions[1..][i].id == id;
          assert positions[i + 1].id == id;
        }
      }
    }
  }

  /**
   * No close is requested for an id that is already being closed, and every
   * request obeys the symbol and label filters and its path's threshold.
   */
  lemma {:induction false} CloseRequestsAreGuarded(p: Parameters, closing: set<PositionId>, openedAt: map<PositionId, Millis>, positions: seq<Position>, m: Market)
    ensures forall r :: r in CloseRequests(p, closing, openedAt, positions, m) ==>
              && r.position.id !in closing
              && IsXauusd(r.position.symbolName)
              && (p.onlyManualPositions ==> IsManualLabel(r.position.labelText, p.manualLabelWhitelist))
              && (r.action == CloseStopLoss ==> r.position.netProfit <= -p.maxLossMoney)
              && (r.action == CloseTakeProfit ==> r.position.netProfit >= EffectiveTarget(p) >= p.feeFloorMoney)
              && r.action != Skip
    decreases |positions|
  {
    if positions != [] {
      var next := StepClosing(p, closing, openedAt, positions[0], m);
      CloseRequestsAreGuarded(p, next, openedAt, positions[1..], m);
    }
  }

  /** A request whose close succeeded leaves its id among those being closed. */
  lemma {:induction false} SuccessfulCloseIsRemembered(p: Parameters, closing: set<PositionId>, openedAt: map<PositionId, Millis>, positions: seq<Position>, m: Market)
    ensures forall r :: r in CloseRequests(p, closing, openedAt, positions, m) && CloseOutcome(p, m, r.position.id) ==>
              r.position.id in ClosingAfter(p, closing, openedAt, positions, m)
    decreases |positions|
  {
    if positions != [] {
      var next := StepClosing(p, closing, openedAt, positions[0], m);
      SuccessfulCloseIsRemembered(p, next, openedAt, positions[1..], m);
      ClosingOnlyGrows(p, next, openedAt, positions[1..], m);
    }
  }

  /**
   * Once a scan has closed a position (or pretended to, in dry-run mode), the
   * next scan never asks to close it again, whatever the market then says.
   */
  lemma NoSecondCloseAfterSuccess(
    p: Parameters, closing: set<PositionId>, openedAt: map<PositionId, Millis>, positions: seq<Position>, m: Market,
    openedAt': map<PositionId, Millis>, positions': seq<Position>, m': Market, r: CloseRequest, r': CloseRequest)
    requires r in CloseRequests(p, closing, openedAt, positions, m) && CloseOutcome(p, m, r.position.id)
    requires r' in CloseRequests(p, ClosingAfter(p, closing, openedAt, positions, m), openedAt', positions', m')
    ensures r'.position.id != r.position.id
  {
    SuccessfulCloseIsRemembered(p, closing, openedAt, positions, m);
    CloseRequestsAreGuarded(p, ClosingAfter(p, closing, openedAt, positions, m), openedAt', positions', m');
  }

  // ---------------------------------------------------------------------------
  // The robot
  // ---------------------------------------------------------------------------

  /** Seeds opening times for the positions that exist at start-up, in order. */
  function SeedOpenedAt(openedAt: map<PositionId, Millis>, positions: seq<Position>): (r: map<PositionId, Millis>)
    ensures forall id :: id in openedAt ==> id in r
    ensures forall i :: 0 <= i < |positions| ==> positions[i].id in r
    ensures forall id :: id in r ==> id in openedAt || exists i :: 0 <= i < |positions| && positions[i].id == id
    ensures forall i :: 0 <= i < |positions| && LastWithId(positions, i) ==> r[positions[i].id] == positions[i].entryTimeUtc
    ensures forall id :: id in openedAt && NotListed(positions, id) ==> r[id] == openedAt[id]
    decreases |positions|
  {
    if positions == [] then openedAt
    else
      var r := SeedOpenedAt(openedAt[positions[0].id := positions[0].entryTimeUtc], positions[1..]);
      assert forall i :: 1 <= i < |positions| ==> positions[i] == positions[1..][i - 1];
      assert forall i :: 1 <= i < |positions| && LastWithId(positions, i) ==> LastWithId(positions[1..], i - 1);
      assert LastWithId(positions, 0) ==> NotListed(positions[1..], positions[0].id);
      r
  }

  /** No position after index `i` has the same id: index `i` is the last write for that id. */
  predicate LastWithId(positions: seq<Position>, i: nat)
    requires i < |positions|
  {
    forall j :: i < j < |positions| ==> positions[j].id != positions[i].id
  }

  /** No position has id `id`. */
  predicate NotListed(positions: seq<Position>, id: PositionId) {
    forall i :: 0 <= i < |positions| ==> positions[i].id != id
  }

  class Closer {
    const params: Parameters
    var closing: set<PositionId>
    var openedAt: map<PositionId, Millis>

    constructor (params: Parameters)
      ensures this.params == params && closing == {} && openedAt == map[]
    {
      this.params := params;
      closing := {};
      openedAt := map[];
    }

    /**
     * `CloseWithRetry`: in dry-run mode reports success without calling the
     * platform; otherwise calls it until one attempt succeeds or `RetryCount + 1`
     * attempts have failed.
     */
    method CloseWithRetry(pos: Position, m: Market) returns (closed: bool, attempts: nat)
      ensures params.dryRun ==> closed && attempts == 0
      ensures !params.dryRun ==> 1 <= attempts <= MaxAttempts(params)
      ensures !params.dryRun ==> (closed <==> m.closeSucceeds(pos.id, attempts))
      ensures !params.dryRun && !closed ==> attempts == MaxAttempts(params)
      ensures forall k :: 1 <= k < attempts ==> !m.closeSucceeds(pos.id, k)
      ensures closed == CloseOutcome(params, m, pos.id)
    {
      if params.dryRun {
        return true, 0;
      }
      attempts := 0;
      while true
        invariant 0 <= attempts < MaxAttempts(params)
        invariant !AnyAttemptSucceeds(m, pos.id, attempts)
        invariant forall k :: 1 <= k <= attempts ==> !m.closeSucceeds(pos.id, k)
        decreases MaxAttempts(params) - attempts
      {
        attempts := attempts + 1;
        var ok := m.closeSucceeds(pos.id, attempts);
        if ok {
          AnyAttemptSucceedsMonotone(m, pos.id, attempts, MaxAttempts(params));
          return true, attempts;
        }
        if attempts <= params.retryCount {
          continue;
        }
        return false, attempts;
      }
    }

    /** The body of the scan's loop for one position. */
    method ManagePosition(pos: Position, m: Market) returns (ghost request: seq<CloseRequest>)
      modifies this`closing
      ensures closing == StepClosing(params, old(closing), openedAt, pos, m)
      ensures var a := StepAction(params, old(closing), openedAt, pos, m);
              request == if a == Skip then [] else [CloseRequest(pos, a)]
    {
      ghost var action := StepAction(params, closing, openedAt, pos, m);
      request := [];
      if !IsXauusd(pos.symbolName) {
        return;
      }
      if params.onlyManualPositions && !IsManualLabel(pos.labelText, params.manualLabelWhitelist) {
        return;
      }
      // hard stop-loss path: bypasses the hold-time and spread guards
      if pos.netProfit <= -params.maxLossMoney {
        if pos.id in closing {
          return;
        }
        request := [CloseRequest(pos, action)];
        closing := closing + {pos.id};
        var closedSL, _ := CloseWithRetry(pos, m);
        if !closedSL {
          closing := closing - {pos.id};
        }
        return;
      }
      // take-profit path
      if params.useMinHoldMs && !HasHeldLongEnough(params, openedAt, pos, m.nowMs) {
        return;
      }
      if params.useSpreadGuard && !m.spreadOk(pos.symbolName) {
        return;
      }
      if pos.netProfit >= EffectiveTarget(params) {
        if pos.id in closing {
          return;
        }
        request := [CloseRequest(pos, action)];
        closing := closing + {pos.id};
        var closedTP, _ := CloseWithRetry(pos, m);
        if !closedTP {
          closing := closing - {pos.id};
        }
      }
    }

    /** `TryManagePositions`: one scan over the open positions. */
    method TryManagePositions(positions: seq<Position>, m: Market) returns (ghost requests: seq<CloseRequest>)
      modifies this`closing
      ensures closing == ClosingAfter(params, old(closing), openedAt, positions, m)
      ensures requests == CloseRequests(params, old(closing), openedAt, positions, m)
    {
      requests := [];
      for i := 0 to |positions|
        invariant ClosingAfter(params, closing, openedAt, positions[i..], m) == ClosingAfter(params, old(closing), openedAt, positions, m)
        invariant requests + CloseRequests(params, closing, openedAt, positions[i..], m) == CloseRequests(params, old(closing), openedAt, positions, m)
      {
        ghost var before := closing;
        ghost var prior := requests;
        assert positions[i..][0] == positions[i] && positions[i..][1..] == positions[i + 1..];
        assert positions[i..] != [];
        var request := ManagePosition(positions[i], m);
        assert CloseRequests(params, before, openedAt, positions[i..], m)
            == request + CloseRequests(params, closing, openedAt, positions[i + 1..], m);
        requests := requests + request;
        assert prior + (request + CloseRequests(params, closing, openedAt, positions[i + 1..], m))
            == requests + CloseRequests(params, closing, openedAt, positions[i + 1..], m);
      }
    }

    /** `OnStop`: forgets both the ids being closed and the opening times. */
    method OnStop()
      modifies this
      ensures closing == {} && openedAt == map[]
    {
      closing := {};
      openedAt := map[];
    }

    /**
     * `OnStart`: on a bad parameter stops the robot, which runs `OnStop`;
     * otherwise records opening times and scans once.
     */
    method OnStart(positions: seq<Position>, m: Market) returns (started: bool, ghost requests: seq<CloseRequest>)
      modifies this
      ensures started <==> StartCheck(params) == None
      ensures !started ==> closing == {} && openedAt == map[] && requests == []
      ensures started ==> openedAt == SeedOpenedAt(old(openedAt), positions)
      ensures started ==> closing == ClosingAfter(params, old(closing), openedAt, positions, m)
      ensures started ==> requests == CloseRequests(params, old(closing), openedAt, positions, m)
    {
      if StartCheck(params).Some? {
        OnStop();
        return false, [];
      }
      for i := 0 to |positions|
        invariant closing == old(closing)
        invariant SeedOpenedAt(openedAt, positions[i..]) == SeedOpenedAt(old(openedAt), positions)
      {
        assert positions[i..][0] == positions[i] && positions[i..][1..] == positions[i + 1..];
        openedAt := openedAt[positions[i].id := positions[i].entryTimeUtc];
      }
      requests := TryManagePositions(positions, m);
      started := true;
    }

    /** `Positions_Opened`: records the opening time, then scans (the new position included). */
    method PositionOpened(pos: Position, positions: seq<Position>, m: Market) returns (ghost requests: seq<CloseRequest>)
      modifies this
      ensures openedAt == old(openedAt)[pos.id := pos.entryTimeUtc]
      ensures closing == ClosingAfter(params, old(closing), openedAt, positions, m)
      ensures requests == CloseRequests(params, old(closing), openedAt, positions, m)
    {
      openedAt := openedAt[pos.id := pos.entryTimeUtc];
      requests := TryManagePositions(positions, m);
    }

    /**
     * `Positions_Closed`: reports whether the robot itself was closing the
     * position and forgets the id in both structures.
     */
    method PositionClosed(id: PositionId) returns (botDidIt: bool)
      modifies this
      ensures botDidIt <==> id in old(closing)
      ensures closing == old(closing) - {id}
      ensures openedAt == old(openedAt) - {id}
    {
      botDidIt := id in closing;
      closing := closing - {id};
      openedAt := openedAt - {id};
    }
  }
}
