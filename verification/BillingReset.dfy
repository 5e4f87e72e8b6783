/** Month rollover: splitting open sessions at the boundary and catching a plan up over missed months. */
module BillingReset {
  import opened Common
  import opened Calendar
  import opened ComputeSessions

  /** The audit record of one monthly reset. */
  datatype Reset = Reset(oldPeriodEnd: DateTime, newPeriodEnd: DateTime)

  /** Every reset starts where the one before it ended. */
  ghost predicate Contiguous(resets: seq<Reset>) {
    forall i :: 0 < i < |resets| ==> resets[i - 1].newPeriodEnd == resets[i].oldPeriodEnd
  }

  /** Consecutive month steps from `from` to `to`. */
  ghost predicate MonthSteps(resets: seq<Reset>, from: DateTime, to: DateTime) {
    && Contiguous(resets)
    && (forall i :: 0 <= i < |resets| ==> resets[i].newPeriodEnd == AddMonth(resets[i].oldPeriodEnd))
    && (if resets == [] then from == to
        else resets[0].oldPeriodEnd == from && resets[|resets| - 1].newPeriodEnd == to)
  }

  class PlanBilling {
    var periodStart: DateTime
    var periodEnd: DateTime
    var used: real
    var overage: real
    var warning80: Option<DateTime>
    var warning100: Option<DateTime>
    var graceStarted: Option<DateTime>
    var sessions: seq<Session>
    var resets: seq<Reset>

    ghost predicate Cleared()
      reads this
    {
      used == 0.0 && overage == 0.0 && warning80.None? && warning100.None? && graceStarted.None?
    }

    /** What every reset leaves behind, once there has been one. */
    ghost predicate AfterReset()
      reads this
    {
      && Cleared()
      && resets != []
      && resets[|resets| - 1] == Reset(periodStart, periodEnd)
    }

    constructor (start: DateTime, end: DateTime, sessions: seq<Session>)
      ensures periodStart == start && periodEnd == end && this.sessions == sessions && resets == []
    {
      periodStart, periodEnd := start, end;
      used, overage, warning80, warning100, graceStarted := 0.0, 0.0, None, None, None;
      this.sessions, resets := sessions, [];
    }

    /** Zero the counters and advance the period by one month. */
    method AdvancePeriod()
      requires periodEnd.Valid()
      modifies this
      ensures sessions == old(sessions)
      ensures periodStart == old(periodEnd) && periodEnd == AddMonth(old(periodEnd)) && periodEnd.Valid()
      ensures resets == old(resets) + [Reset(old(periodEnd), periodEnd)]
      ensures AfterReset()
    {
      AddMonthAdvances(periodEnd);
      var boundary := periodEnd;
      used, overage := 0.0, 0.0;
      periodStart, periodEnd := boundary, AddMonth(boundary);
      warning80, warning100, graceStarted := None, None, None;
      resets := resets + [Reset(boundary, periodEnd)];
    }

    /** Splits session `i` at the period's end; nothing happens while the clock has not passed it. */
    method HandlePeriodRollover(i: nat, ready: bool, now: DateTime) returns (created: Option<nat>)
      requires i < |sessions| && periodEnd.Valid() && now.Valid()
      modifies this
      ensures periodEnd.Valid()
      ensures now.AtMost(old(periodEnd)) ==> created.None? && unchanged(this)
      ensures !now.AtMost(old(periodEnd)) ==>
        && periodStart == old(periodEnd) && periodEnd == AddMonth(old(periodEnd)) && AfterReset()
        && resets == old(resets) + [Reset(old(periodEnd), periodEnd)]
        && sessions == SplitSession(old(sessions), i, ready, ToTime(old(periodEnd)), ToTime(now))
        && created == if ready then Some(|old(sessions)|) else None
    {
      if now.AtMost(periodEnd) {
        return None;
      }
      var cs := sessions[i];
      var boundary := ToTime(periodEnd);
      sessions := sessions[i := EndAtBoundary(cs, boundary, ToTime(now))];
      AdvancePeriod();
      if !ready {
        return None;
      }
      created := Some(|sessions|);
      sessions := sessions + [StartAtBoundary(cs, boundary, ToTime(now))];
    }

    /**
     The catch-up loop of reset_monthly_credits for this plan. `open` are the rows of its open sessions,
     `clock(k)` is what the k-th rollover call reads from the clock, `resets` records this call's resets.
     */
    method ResetMonthlyCredits(now: DateTime, open: seq<nat>, ready: string -> bool, clock: nat -> DateTime)
      requires now.Valid() && periodEnd.Valid() && periodEnd.AtMost(now)
      requires UniqueOpen(sessions) && DistinctOpen(sessions, open)
      requires forall k :: clock(k).Valid()
      modifies this
      ensures UniqueOpen(sessions)
      ensures now.Before(periodEnd) && AfterReset()
      ensures MonthSteps(resets, old(periodEnd), periodEnd)
      ensures ClockStaysInMonth(now, clock) ==>
        ((periodStart, periodEnd) == ComputePeriodBounds(now) <==> old(periodEnd).IsNatural())
      ensures sessions == CatchUp(Rolled(old(sessions), old(periodEnd), open, 0, []), now, ready, clock).sessions
    {
      resets := [];
      ghost var begun := Rolled(sessions, periodEnd, open, 0, []);
      assert [] + open == open;
      CatchUpIsSound(periodEnd, now, begun, ready, clock);
      var pending, calls := RollToMonth(now, open, ready, clock);
      CatchUpPasses(begun, now, ready, clock);
      if ClockStaysInMonth(now, clock) {
        FinishedBounds(old(periodEnd), now, clock, periodStart, periodEnd, resets);
      }
    }

    /** The while loop itself. */
    method RollToMonth(now: DateTime, open: seq<nat>, ready: string -> bool, clock: nat -> DateTime)
        returns (pending: seq<nat>, calls: nat)
      requires periodEnd.Valid() && (forall k :: clock(k).Valid()) && InRange(sessions, open)
      requires resets != [] ==> AfterReset()
      modifies this
      ensures resets != [] ==> AfterReset()
      ensures Rolled(sessions, periodEnd, pending, calls, resets) ==
        CatchUp(Rolled(old(sessions), old(periodEnd), open, 0, old(resets)), now, ready, clock)
    {
      pending, calls := open, 0;
      ghost var begun := Rolled(sessions, periodEnd, open, 0, resets);
      while periodEnd.AtMost(now)
        invariant periodEnd.Valid() && InRange(sessions, pending) && (resets != [] ==> AfterReset())
        invariant CatchUp(Rolled(sessions, periodEnd, pending, calls, resets), now, ready, clock) ==
          CatchUp(begun, now, ready, clock)
        decreases now.MonthIndex() + 1 - periodEnd.MonthIndex()
      {
        ghost var was := Rolled(sessions, periodEnd, pending, calls, resets);
        RoundAdvances(was, now, ready, clock);
        CatchUpStep(was, now, ready, clock);
        pending, calls := RollAndAdvance(now, pending, ready, clock, calls);
      }
    }

    /** A round over the open sessions, and a plain advance if no split has brought the plan past `now`. */
    method RollAndAdvance(now: DateTime, open: seq<nat>, ready: string -> bool, clock: nat -> DateTime, firstCall: nat)
        returns (next: seq<nat>, calls: nat)
      requires periodEnd.Valid() && forall k :: clock(k).Valid()
      requires InRange(sessions, open)
      requires resets != [] ==> AfterReset()
      modifies this
      ensures resets != [] ==> AfterReset()
      ensures Rolled(sessions, periodEnd, next, calls, resets) ==
        RoundAndAdvance(Rolled(old(sessions), old(periodEnd), open, firstCall, old(resets)), now, ready, clock)
    {
      next, calls := RollSessions(open, ready, clock, firstCall);
      if periodEnd.AtMost(now) {
        AdvancePeriod();
      }
    }

    /** One round over the open sessions: each one past the boundary is split, which also advances the plan. */
    method RollSessions(open: seq<nat>, ready: string -> bool, clock: nat -> DateTime, firstCall: nat)
        returns (next: seq<nat>, calls: nat)
      requires periodEnd.Valid() && forall k :: clock(k).Valid()
      requires InRange(sessions, open)
      requires resets != [] ==> AfterReset()
      modifies this
      ensures periodEnd.Valid() && (resets != [] ==> AfterReset())
      ensures Rolled(sessions, periodEnd, next, calls, resets) ==
        RollRound(Rolled(old(sessions), old(periodEnd), open, firstCall, old(resets)), ready, clock)
    {
      next, calls := [], firstCall;
      ghost var begun := Rolled(sessions, periodEnd, [], firstCall, resets);
      var k := 0;
      assert open[..0] == [];
      while k < |open|
        invariant k <= |open| && periodEnd.Valid() && |old(sessions)| <= |sessions|
        invariant resets != [] ==> AfterReset()
        invariant Rolled(sessions, periodEnd, next, calls, resets) == RollEach(begun, open[..k], ready, clock)
      {
        RollEachStep(begun, open, k, ready, clock);
        var created := RollOne(open[k], ready, clock, calls, next);
        next := next + created;
        k, calls := k + 1, calls + 1;
      }
      assert open[..k] == open;
    }

    method RollOne(i: nat, ready: string -> bool, clock: nat -> DateTime, call: nat, ghost next: seq<nat>)
        returns (created: seq<nat>)
      requires i < |sessions| && periodEnd.Valid() && clock(call).Valid()
      requires resets != [] ==> AfterReset()
      modifies this
      ensures |old(sessions)| <= |sessions| && periodEnd.Valid() && (resets != [] ==> AfterReset())
      ensures Rolled(sessions, periodEnd, next + created, call + 1, resets) ==
        RollStep(Rolled(old(sessions), old(periodEnd), next, call, old(resets)), i, ready, clock)
    {
      assert next + [] == next;
      var row := HandlePeriodRollover(i, ready(sessions[i].sandboxId), clock(call));
      created := if row.Some? then [row.value] else [];
    }
  }

  // ---------------------------------------------------------------- which sessions are split, and where

  /** The table, the period's end, the rows still listed, the number of rollover calls made so far, and the resets. */
  datatype Rolled = Rolled(sessions: seq<Session>, end: DateTime, rows: seq<nat>, calls: nat, resets: seq<Reset>)

  predicate InRange(sessions: seq<Session>, rows: seq<nat>) {
    forall p :: 0 <= p < |rows| ==> rows[p] < |sessions|
  }

  /** One rollover call; `rows` collects the sessions it starts. */
  function RollStep(r: Rolled, i: nat, ready: string -> bool, clock: nat -> DateTime): Rolled {
    var now := clock(r.calls);
    if !r.end.Valid() || !now.Valid() || |r.sessions| <= i || now.AtMost(r.end) then r.(calls := r.calls + 1)
    else
      var running := ready(r.sessions[i].sandboxId);
      Rolled(SplitSession(r.sessions, i, running, ToTime(r.end), ToTime(now)), AddMonth(r.end),
             r.rows + (if running then [|r.sessions|] else []), r.calls + 1, r.resets + [Reset(r.end, AddMonth(r.end))])
  }

  function RollEach(r: Rolled, todo: seq<nat>, ready: string -> bool, clock: nat -> DateTime): Rolled {
    if todo == [] then r
    else
      var last := |todo| - 1;
      RollStep(RollEach(r, todo[..last], ready, clock), todo[last], ready, clock)
  }

  lemma {:induction false} RollEachStep(
      r: Rolled, todo: seq<nat>, k: nat, ready: string -> bool, clock: nat -> DateTime)
    requires k < |todo|
    ensures RollEach(r, todo[..k + 1], ready, clock) ==
      RollStep(RollEach(r, todo[..k], ready, clock), todo[k], ready, clock)
  {
    assert todo[..k + 1][..k] == todo[..k];
  }

  /** One round over the listed rows. */
  function RollRound(r: Rolled, ready: string -> bool, clock: nat -> DateTime): Rolled {
    RollEach(r.(rows := []), r.rows, ready, clock)
  }

  /** A round, and a month more if the plan has still not reached `now`. */
  function RoundAndAdvance(r: Rolled, now: DateTime, ready: string -> bool, clock: nat -> DateTime): Rolled {
    var round := RollRound(r, ready, clock);
    if !round.end.AtMost(now) then round
    else round.(end := AddMonth(round.end), resets := round.resets + [Reset(round.end, AddMonth(round.end))])
  }

  /** One open row per sandbox, the rows to come are distinct and open, and the months so far add up. */
  ghost predicate Sound(first: DateTime, now: DateTime, clock: nat -> DateTime, r: Rolled, todo: seq<nat>) {
    && first.Valid() && now.Valid() && (forall k :: clock(k).Valid())
    && UniqueOpen(r.sessions) && DistinctOpen(r.sessions, todo + r.rows)
    && CaughtUp(first, now, clock, r.end, r.resets)
  }

  lemma StepIsSound(
      first: DateTime, now: DateTime, r: Rolled, i: nat, todo: seq<nat>, ready: string -> bool, clock: nat -> DateTime)
    requires Sound(first, now, clock, r, [i] + todo)
    ensures Sound(first, now, clock, RollStep(r, i, ready, clock), todo)
  {
    var others := todo + r.rows;
    assert [i] + todo + r.rows == [i] + others;
    assert ([i] + others)[0] == i;
    var running := ready(r.sessions[i].sandboxId);
    SplitKeepsOpen(r.sessions, i, others, running, ToTime(r.end), ToTime(clock(r.calls)));
    if !clock(r.calls).AtMost(r.end) {
      StepKeepsCaughtUp(first, now, clock, r.end, r.resets, Some(r.calls));
      assert others + [|r.sessions|] == todo + (r.rows + [|r.sessions|]);
      assert others + [] == others && r.rows + [] == r.rows;
    }
  }

  lemma {:induction false} EachIsSound(
      first: DateTime, now: DateTime, r: Rolled, done: seq<nat>, todo: seq<nat>,
      ready: string -> bool, clock: nat -> DateTime)
    requires Sound(first, now, clock, r, done + todo)
    ensures Sound(first, now, clock, RollEach(r, done, ready, clock), todo)
    decreases |done|
  {
    if done == [] {
      assert done + todo == todo;
    } else {
      var last := |done| - 1;
      assert done + todo == done[..last] + ([done[last]] + todo);
      EachIsSound(first, now, r, done[..last], [done[last]] + todo, ready, clock);
      StepIsSound(first, now, RollEach(r, done[..last], ready, clock), done[last], todo, ready, clock);
    }
  }

  lemma RoundIsSound(first: DateTime, now: DateTime, r: Rolled, ready: string -> bool, clock: nat -> DateTime)
    requires Sound(first, now, clock, r, [])
    ensures Sound(first, now, clock, RoundAndAdvance(r, now, ready, clock), [])
  {
    assert [] + r.rows == r.rows && r.rows + [] == r.rows;
    EachIsSound(first, now, r.(rows := []), r.rows, [], ready, clock);
    var round := RollRound(r, ready, clock);
    assert [] + round.rows == round.rows;
    if round.end.AtMost(now) {
      StepKeepsCaughtUp(first, now, clock, round.end, round.resets, None);
    }
  }

  lemma {:induction false} RoundsGoForward(r: Rolled, todo: seq<nat>, ready: string -> bool, clock: nat -> DateTime)
    requires r.end.Valid()
    ensures var after := RollEach(r, todo, ready, clock);
      && after.end.Valid() && |r.resets| <= |after.resets|
      && (after.end == r.end || (r.end.MonthIndex() < after.end.MonthIndex() && |r.resets| < |after.resets|))
      && |r.sessions| <= |after.sessions| && (InRange(r.sessions, r.rows) ==> InRange(after.sessions, after.rows))
  {
    if todo == [] {
    } else {
      var front := todo[..|todo| - 1];
      RoundsGoForward(r, front, ready, clock);
      AddMonthAdvances(RollEach(r, front, ready, clock).end);
    }
  }

  lemma RoundAdvances(r: Rolled, now: DateTime, ready: string -> bool, clock: nat -> DateTime)
    requires r.end.Valid() && r.end.AtMost(now)
    ensures var after := RoundAndAdvance(r, now, ready, clock);
      && after.end.Valid() && r.end.MonthIndex() < after.end.MonthIndex() && |r.resets| < |after.resets|
      && InRange(after.sessions, after.rows)
  {
    RoundsGoForward(r.(rows := []), r.rows, ready, clock);
    AddMonthAdvances(RollRound(r, ready, clock).end);
  }

  /** Rounds until the plan has passed `now`. */
  function CatchUp(r: Rolled, now: DateTime, ready: string -> bool, clock: nat -> DateTime): Rolled
    decreases if r.end.Valid() && r.end.AtMost(now) then now.MonthIndex() + 1 - r.end.MonthIndex() else 0
  {
    if !r.end.Valid() || !r.end.AtMost(now) then r
    else
      RoundAdvances(r, now, ready, clock);
      CatchUp(RoundAndAdvance(r, now, ready, clock), now, ready, clock)
  }

  lemma {:induction false} CatchUpStep(r: Rolled, now: DateTime, ready: string -> bool, clock: nat -> DateTime)
    requires r.end.Valid() && r.end.AtMost(now)
    ensures CatchUp(r, now, ready, clock) == CatchUp(RoundAndAdvance(r, now, ready, clock), now, ready, clock)
  {
  }

  lemma {:induction false} CatchUpPasses(r: Rolled, now: DateTime, ready: string -> bool, clock: nat -> DateTime)
    requires r.end.Valid()
    ensures CatchUp(r, now, ready, clock).end.Valid() && now.Before(CatchUp(r, now, ready, clock).end)
    decreases if r.end.AtMost(now) then now.MonthIndex() + 1 - r.end.MonthIndex() else 0
  {
    if !r.end.AtMost(now) {
    } else {
      RoundAdvances(r, now, ready, clock);
      CatchUpStep(r, now, ready, clock);
      CatchUpPasses(RoundAndAdvance(r, now, ready, clock), now, ready, clock);
    }
  }

  lemma {:induction false} CatchUpIsSound(
      first: DateTime, now: DateTime, r: Rolled, ready: string -> bool, clock: nat -> DateTime)
    requires Sound(first, now, clock, r, [])
    ensures Sound(first, now, clock, CatchUp(r, now, ready, clock), [])
    ensures r.end.AtMost(now) || r.resets != [] ==> CatchUp(r, now, ready, clock).resets != []
    decreases if r.end.AtMost(now) then now.MonthIndex() + 1 - r.end.MonthIndex() else 0
  {
    if !r.end.AtMost(now) {
    } else {
      RoundAdvances(r, now, ready, clock);
      assert RoundAndAdvance(r, now, ready, clock).resets != [];
      CatchUpStep(r, now, ready, clock);
      RoundIsSound(first, now, r, ready, clock);
      CatchUpIsSound(first, now, RoundAndAdvance(r, now, ready, clock), ready, clock);
    }
  }

  /** The reset comes within the month after the period's end, and no rollover call reads a clock outside it. */
  ghost predicate OneMonthMissed(now: DateTime, end: DateTime, clock: nat -> DateTime) {
    && end.Valid() && end.AtMost(now) && now.Before(AddMonth(end))
    && forall k :: clock(k).Valid() && !clock(k).AtMost(end) && clock(k).AtMost(AddMonth(end))
  }

  /** Once the first split has advanced the plan past the clocks, the rest of the round does nothing. */
  lemma {:induction false} OnlyTheFirstIsSplit(
      r: Rolled, todo: seq<nat>, ready: string -> bool, clock: nat -> DateTime)
    requires todo != []
    requires forall k :: clock(k).AtMost(RollStep(r, todo[0], ready, clock).end)
    ensures RollEach(r, todo, ready, clock) == RollStep(r, todo[0], ready, clock).(calls := r.calls + |todo|)
  {
    var last := |todo| - 1;
    if last == 0 {
      assert todo[..0] == [];
    } else {
      OnlyTheFirstIsSplit(r, todo[..last], ready, clock);
    }
  }

  /** After one missed month the first listed session has been split at the period's end, and no other row touched. */
  lemma {:induction false} OneMonthSplitsTheFirst(
      r: Rolled, now: DateTime, ready: string -> bool, clock: nat -> DateTime)
    requires OneMonthMissed(now, r.end, clock) && now.Valid() && DistinctOpen(r.sessions, r.rows)
    ensures CatchUp(r, now, ready, clock).sessions ==
      if r.rows == [] then r.sessions
      else
        var i := r.rows[0];
        SplitSession(r.sessions, i, ready(r.sessions[i].sandboxId), ToTime(r.end), ToTime(clock(r.calls)))
  {
    AddMonthAdvances(r.end);
    RoundAdvances(r, now, ready, clock);
    if r.rows != [] {
      OnlyTheFirstIsSplit(r.(rows := []), r.rows, ready, clock);
    }
    var after := RoundAndAdvance(r, now, ready, clock);
    assert after.end == AddMonth(r.end);
    CatchUpStep(r, now, ready, clock);
  }

  /**
   So every open session has then been ended at the boundary, and restarted there if still running, if and only if
   the user had at most one: the first split advances the plan past what the other calls read from the clock.
   */
  lemma {:induction false} EverySessionSplitsIff(
      r: Rolled, now: DateTime, ready: string -> bool, clock: nat -> DateTime)
    requires OneMonthMissed(now, r.end, clock) && now.Valid() && DistinctOpen(r.sessions, r.rows)
    ensures
      var after := CatchUp(r, now, ready, clock).sessions;
      && |r.sessions| <= |after|
      && ((forall p :: 0 <= p < |r.rows| ==> after[r.rows[p]].endedAt == Some(ToTime(r.end))) <==> |r.rows| <= 1)
      && (|r.rows| == 1 && ready(r.sessions[r.rows[0]].sandboxId) ==>
            && |after| == |r.sessions| + 1 && after[|r.sessions|].endedAt.None?
            && after[|r.sessions|].startedAt == ToTime(r.end)
            && after[|r.sessions|].sandboxId == r.sessions[r.rows[0]].sandboxId)
  {
    OneMonthSplitsTheFirst(r, now, ready, clock);
    var after := CatchUp(r, now, ready, clock).sessions;
    if |r.rows| > 1 {
      assert after[r.rows[1]] == r.sessions[r.rows[1]];
    }
  }

  // Over any number of months, rows that were not listed are never touched.

  /** What is still to be rolled over is a listed row, or one that a rollover created. */
  ghost predicate OnlyListed(size: nat, listed: seq<nat>, rows: seq<nat>) {
    forall p :: 0 <= p < |rows| ==> rows[p] in listed || size <= rows[p]
  }

  ghost predicate KeepsUnlisted(before: seq<Session>, listed: seq<nat>, after: seq<Session>) {
    |before| <= |after| && forall i :: 0 <= i < |before| && i !in listed ==> after[i] == before[i]
  }

  lemma {:induction false} RoundKeepsUnlisted(
      before: seq<Session>, listed: seq<nat>, r: Rolled, todo: seq<nat>, ready: string -> bool, clock: nat -> DateTime)
    requires KeepsUnlisted(before, listed, r.sessions)
    requires OnlyListed(|before|, listed, r.rows) && OnlyListed(|before|, listed, todo)
    ensures var after := RollEach(r, todo, ready, clock);
      KeepsUnlisted(before, listed, after.sessions) && OnlyListed(|before|, listed, after.rows)
  {
    if todo == [] {
    } else {
      RoundKeepsUnlisted(before, listed, r, todo[..|todo| - 1], ready, clock);
    }
  }

  lemma {:induction false} CatchUpKeepsUnlisted(
      before: seq<Session>, listed: seq<nat>, r: Rolled, now: DateTime, ready: string -> bool, clock: nat -> DateTime)
    requires KeepsUnlisted(before, listed, r.sessions) && OnlyListed(|before|, listed, r.rows)
    ensures KeepsUnlisted(before, listed, CatchUp(r, now, ready, clock).sessions)
    decreases if r.end.Valid() && r.end.AtMost(now) then now.MonthIndex() + 1 - r.end.MonthIndex() else 0
  {
    if !r.end.Valid() || !r.end.AtMost(now) {
    } else {
      RoundAdvances(r, now, ready, clock);
      RoundKeepsUnlisted(before, listed, r.(rows := []), r.rows, ready, clock);
      CatchUpKeepsUnlisted(before, listed, RoundAndAdvance(r, now, ready, clock), now, ready, clock);
    }
  }

  /** The table after the rollover of row `i`: ended at the boundary, and restarted there if still running. */
  function SplitSession(sessions: seq<Session>, i: nat, ready: bool, boundary: Time, now: Time): seq<Session>
    requires i < |sessions|
  {
    sessions[i := EndAtBoundary(sessions[i], boundary, now)]
      + (if ready then [StartAtBoundary(sessions[i], boundary, now)] else [])
  }

  /** Splitting keeps one open row per sandbox, and the other open rows with the new one are still distinct. */
  lemma SplitKeepsOpen(sessions: seq<Session>, i: nat, others: seq<nat>, ready: bool, boundary: Time, now: Time)
    requires UniqueOpen(sessions) && DistinctOpen(sessions, [i] + others)
    ensures i < |sessions| && DistinctOpen(sessions, others)
    ensures var after := SplitSession(sessions, i, ready, boundary, now);
      UniqueOpen(after) && DistinctOpen(after, others + if ready then [|sessions|] else [])
  {
    var all := [i] + others;
    assert all[0] == i;
    assert forall p :: 0 <= p < |others| ==> all[p + 1] == others[p];
  }

  /** No rollover call reads a clock past the end of the month of `now`. */
  ghost predicate ClockStaysInMonth(now: DateTime, clock: nat -> DateTime) {
    forall k :: clock(k).AtMost(ComputePeriodBounds(now).1)
  }

  /** The loop's bookkeeping: month steps from the first boundary, and not past the month of `now`. */
  ghost predicate CaughtUp(first: DateTime, now: DateTime, clock: nat -> DateTime, end: DateTime, resets: seq<Reset>) {
    && end.Valid()
    && MonthSteps(resets, first, end)
    && (resets != [] ==> resets[|resets| - 1].oldPeriodEnd.Valid())
    && (end.IsNatural() <==> first.IsNatural())
    && (first.IsNatural() && ClockStaysInMonth(now, clock) ==> end.MonthIndex() <= now.MonthIndex() + 1)
  }

  /** One more month keeps the bookkeeping when `now`, or the clock read `k`, has passed the boundary. */
  lemma StepKeepsCaughtUp(
      first: DateTime, now: DateTime, clock: nat -> DateTime, end: DateTime, resets: seq<Reset>, k: Option<nat>)
    requires first.Valid() && now.Valid() && CaughtUp(first, now, clock, end, resets)
    requires k.None? ==> end.AtMost(now)
    requires k.Some? ==> clock(k.value).Valid() && !clock(k.value).AtMost(end)
    ensures CaughtUp(first, now, clock, AddMonth(end), resets + [Reset(end, AddMonth(end))])
  {
    AddMonthAdvances(end);
    if first.IsNatural() && ClockStaysInMonth(now, clock) {
      PeriodBoundsAreTheMonth(now);
      assert k.Some? ==> clock(k.value).AtMost(ComputePeriodBounds(now).1);
    }
  }

  /** Once past `now`, the plan is on the month of `now` exactly when it began on a month start. */
  lemma FinishedBounds(
      first: DateTime, now: DateTime, clock: nat -> DateTime, start: DateTime, end: DateTime, resets: seq<Reset>)
    requires first.Valid() && now.Valid() && CaughtUp(first, now, clock, end, resets) && now.Before(end)
    requires resets != [] && resets[|resets| - 1] == Reset(start, end) && start.Valid() && ClockStaysInMonth(now, clock)
    ensures (start, end) == ComputePeriodBounds(now) <==> first.IsNatural()
  {
    PeriodBoundsAreTheMonth(now);
    AddMonthAdvances(start);
    if first.IsNatural() {
      assert end == AddMonth(start);
      NaturalInSameMonth(end, ComputePeriodBounds(now).1);
      NaturalInSameMonth(start, ComputePeriodBounds(now).0);
    }
  }

  /** Rows `open` are distinct and open. */
  ghost predicate DistinctOpen(sessions: seq<Session>, open: seq<nat>) {
    && (forall p :: 0 <= p < |open| ==> open[p] < |sessions| && sessions[open[p]].endedAt.None?)
    && (forall p, q :: 0 <= p < q < |open| ==> open[p] != open[q])
  }
}
