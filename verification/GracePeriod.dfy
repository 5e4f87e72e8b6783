/** The grace-period machine: when does metering force-stop a user's sandboxes? */
module GracePeriod {
  import opened Common
  import C = Credits

  const ABSOLUTE_OVERAGE_CAP_RATIO: real := 0.2

  /** How one forced stop ends: it raises, the K8s call goes through (the row follows later), or the row is stopped. */
  datatype StopOutcome = StopFails | StopRequested | StoppedInDb

  /** What an evaluated tick sees of a user: the account as of the moment it was loaded, the running sandboxes. */
  datatype Snapshot = Snapshot(
    now: Time,
    account: C.Account,
    loaded: Time,
    graceSeconds: int,
    running: seq<string>,
    stop: string -> StopOutcome,
    /** a sandbox that started running while the tick was stopping the others */
    newcomer: bool)
  {
    function Total(): real { C.TotalRemaining(account, loaded) }

    predicate Exhausted() { Total() <= 0.0 }

    predicate OverCap() { -Total() > account.limit * ABSOLUTE_OVERAGE_CAP_RATIO }

    predicate SomeStillRunning() { newcomer || exists i :: 0 <= i < |running| && stop(running[i]) != StoppedInDb }

    /** The enforcement condition, for a grace period begun at `since`. */
    predicate MustStop(since: Time) {
      Exhausted() && (now - since > graceSeconds * SECOND || OverCap())
    }
  }

  datatype Event =
    /** a tick that evaluates the user */
    | Evaluate(seen: Snapshot)
    /** a tick that does not: the user has no running sandbox */
    | PassOver
    /** a monthly reset */
    | MonthlyReset

  /** Effect of an event on grace_period_started_at, and the sandboxes it tries to stop. */
  function React(grace: Option<Time>, e: Event): (Option<Time>, seq<string>) {
    match e
    case PassOver => (grace, [])
    case MonthlyReset => (None, [])
    case Evaluate(seen) =>
      if !seen.Exhausted() then (None, [])
      else if grace.None? then (Some(seen.now), [])
      else if seen.MustStop(grace.value) then (if seen.SomeStillRunning() then grace else None, seen.running)
      else (grace, [])
  }

  class GraceTracker {
    var graceStarted: Option<Time>
    var attempts: seq<string>

    constructor ()
      ensures graceStarted.None? && attempts == []
    {
      graceStarted, attempts := None, [];
    }

    /** check_grace_periods for one user. */
    method CheckGracePeriod(seen: Snapshot)
      modifies this
      ensures graceStarted == React(old(graceStarted), Evaluate(seen)).0
      ensures attempts == old(attempts) + React(old(graceStarted), Evaluate(seen)).1
    {
      var extra := C.LiveTotal(seen.account.grants, seen.loaded);
      if seen.account.limit - seen.account.used + extra - seen.account.overage <= 0.0 {
        HandleExhausted(seen);
      } else {
        graceStarted := None;
      }
    }

    method HandleExhausted(seen: Snapshot)
      requires seen.Exhausted()
      modifies this
      ensures graceStarted == React(old(graceStarted), Evaluate(seen)).0
      ensures attempts == old(attempts) + React(old(graceStarted), Evaluate(seen)).1
    {
      if graceStarted.None? {
        graceStarted := Some(seen.now);
        return;
      }
      var elapsed := seen.now - graceStarted.value;
      var overage := -seen.Total();
      if elapsed > seen.graceSeconds * SECOND || overage > seen.account.limit * ABSOLUTE_OVERAGE_CAP_RATIO {
        EnforceStop(seen);
      }
    }

    /** Tries to stop every running sandbox; a failure does not stop the loop. */
    method EnforceStop(seen: Snapshot)
      modifies this
      ensures attempts == old(attempts) + seen.running
      ensures graceStarted ==
        if !seen.newcomer && forall k :: 0 <= k < |seen.running| ==> seen.stop(seen.running[k]) == StoppedInDb
        then None else old(graceStarted)
    {
      var still := seen.newcomer;
      var i := 0;
      while i < |seen.running|
        invariant 0 <= i <= |seen.running|
        invariant graceStarted == old(graceStarted)
        invariant attempts == old(attempts) + seen.running[..i]
        invariant still <==> seen.newcomer || exists k :: 0 <= k < i && seen.stop(seen.running[k]) != StoppedInDb
      {
        attempts := attempts + [seen.running[i]];
        still := still || seen.stop(seen.running[i]) != StoppedInDb;
        i := i + 1;
      }
      assert seen.running[..i] == seen.running;
      if !still {
        graceStarted := None;
      }
    }
  }

  // ---------------------------------------------------------------- exhaustion and the credits themselves

  /** While the monthly pool or any live grant has something left, and nothing is overdrawn, a user is not exhausted. */
  lemma CreditsLeftMeansNotExhausted(seen: Snapshot, i: nat)
    requires seen.account.overage == 0.0 && seen.account.used <= seen.account.limit
    requires seen.account.used < seen.account.limit ||
      (i < |seen.account.grants| && seen.account.grants[i].EligibleAt(seen.loaded))
    ensures !seen.Exhausted()
  {
    C.NonNegativeTotal(seen.account.grants, seen.loaded);
    if i < |seen.account.grants| && seen.account.grants[i].EligibleAt(seen.loaded) {
      OneGrantCounts(seen.account.grants, i, seen.loaded);
    }
  }

  lemma {:induction false} OneGrantCounts(grants: seq<C.Grant>, i: nat, t: Time)
    requires i < |grants|
    ensures grants[i].Contribution(t) <= C.LiveTotal(grants, t)
  {
    C.NonNegativeTotal(grants[1..], t);
    if i == 0 {
    } else {
      OneGrantCounts(grants[1..], i - 1, t);
    }
  }

  /** And a consumption that the pools could not pay leaves the user exhausted. */
  lemma ShortfallExhausts(seen: Snapshot, before: C.Account, amount: real, rows: seq<nat>)
    requires C.IsEligibleOrder(before.grants, seen.loaded, rows) && 0.0 <= before.overage
    requires C.Consume(before, amount, rows).1.shortfall > 0.0 && seen.account == C.Consume(before, amount, rows).0
    ensures seen.Exhausted()
  {
    C.ShortfallMeansExhausted(before, amount, seen.loaded, rows);
    C.ConsumeConserves(before, amount, seen.loaded, rows);
    C.NothingLeft(seen.account.grants, seen.loaded);
  }

  // ---------------------------------------------------------------- every run

  /** grace[i] is grace_period_started_at before event i; a user starts without one. */
  ghost predicate IsRun(grace: seq<Option<Time>>, events: seq<Event>) {
    && |grace| == |events| + 1
    && grace[0].None?
    && forall i :: 0 <= i < |events| ==> grace[i + 1] == React(grace[i], events[i]).0
  }

  // What a grace period is, told from the events alone.

  predicate IsExhaustedTick(e: Event) { e.Evaluate? && e.seen.Exhausted() }

  /** Event j is an exhausted tick at which no earlier grace period is still active. */
  ghost predicate StartsGrace(events: seq<Event>, j: nat)
    requires j < |events|
    decreases j, 0
  {
    IsExhaustedTick(events[j]) && forall p :: 0 <= p < j ==> !ActiveSince(events, p, j)
  }

  /** Event j started a grace period and nothing before event k ended it. */
  ghost predicate ActiveSince(events: seq<Event>, j: nat, k: nat)
    requires j < k <= |events|
    decreases j, 1
  {
    && IsExhaustedTick(events[j]) && StartsGrace(events, j)
    && forall i :: j < i < k ==> KeepsGrace(events[i], events[j].seen.now)
  }

  /** No reset, credits still exhausted if the tick looks, and no forced stop that left nothing running. */
  ghost predicate KeepsGrace(e: Event, since: Time) {
    && e != MonthlyReset
    && (e.Evaluate? ==> e.seen.Exhausted() && (e.seen.MustStop(since) ==> e.seen.SomeStillRunning()))
  }

  lemma ActiveNextIff(events: seq<Event>, j: nat, k: nat)
    requires j < k < |events|
    ensures ActiveSince(events, j, k + 1) <==> ActiveSince(events, j, k) && KeepsGrace(events[k], events[j].seen.now)
  {
  }

  /** The stored start is the clock of an event whose grace period is active; nothing is stored when there is none. */
  lemma {:induction false} GraceIsActivePeriod(grace: seq<Option<Time>>, events: seq<Event>, k: nat)
    requires IsRun(grace, events) && k <= |events|
    ensures grace[k].Some? <==> exists j :: 0 <= j < k && ActiveSince(events, j, k)
    ensures forall j :: 0 <= j < k && ActiveSince(events, j, k) ==> grace[k] == Some(events[j].seen.now)
  {
    if k == 0 {
    } else {
      GraceIsActivePeriod(grace, events, k - 1);
      assert grace[k] == React(grace[k - 1], events[k - 1]).0;
      forall j | 0 <= j < k && ActiveSince(events, j, k)
        ensures grace[k] == Some(events[j].seen.now)
      {
        if j < k - 1 {
          ActiveNextIff(events, j, k - 1);
        } else {
          assert StartsGrace(events, k - 1);
          assert grace[k - 1].None?;
        }
      }
      if grace[k].Some? {
        if grace[k - 1].Some? {
          var j :| 0 <= j < k - 1 && ActiveSince(events, j, k - 1);
          ActiveNextIff(events, j, k - 1);
          assert ActiveSince(events, j, k);
        } else {
          assert ActiveSince(events, k - 1, k);
        }
      }
    }
  }

  /**
   In every run, event k makes metering try to stop `running` sandboxes if and only if it is an exhausted tick
   with running sandboxes, and some earlier tick j began a grace period that nothing has ended since, and
   either more than grace_period_seconds have passed since j or the overage exceeds 20% of the monthly limit.
   */
  lemma {:induction false} ForcedStopIffGraceRanOut(grace: seq<Option<Time>>, events: seq<Event>, k: nat)
    requires IsRun(grace, events) && k < |events|
    ensures React(grace[k], events[k]).1 != [] <==>
      && events[k].Evaluate?
      && var seen := events[k].seen;
         var total := C.TotalRemaining(seen.account, seen.loaded);
      && seen.running != [] && total <= 0.0
      && exists j :: 0 <= j < k && ActiveSince(events, j, k) &&
           (seen.now - events[j].seen.now > seen.graceSeconds * SECOND || -total > 0.2 * seen.account.limit)
    ensures React(grace[k], events[k]).1 != [] ==> React(grace[k], events[k]).1 == events[k].seen.running
  {
    GraceIsActivePeriod(grace, events, k);
  }

  /** At most one grace period is active at a time. */
  lemma {:induction false} ActivePeriodIsUnique(events: seq<Event>, i: nat, j: nat, k: nat)
    requires i <= j < k <= |events|
    requires ActiveSince(events, i, k) && ActiveSince(events, j, k)
    ensures i == j
  {
    if i < j {
      assert ActiveSince(events, i, j);
    }
  }
}
