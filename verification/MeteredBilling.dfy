/**
 Metering and credits together: the sessions of all users, one user's account, and every step by which metered
 hours become consumed credits.
 */
module MeteredBilling {
  import opened Common
  import opened ComputeSessions
  import opened MeteringTables
  import opened BillingReset
  import C = Credits

  /** `baseline` is what the user's sessions had booked just after the monthly counters were last reset. */
  datatype Billing = Billing(sessions: seq<Session>, books: C.Books, baseline: real)

  datatype Step =
    /** a metering tick; `grants` is the answer of the user's grant query made at `at`, as in the next case */
    | TickAll(now: Time, conflict: nat -> bool, at: Time, grants: seq<nat>)
    | CloseOne(id: string, now: Time, at: Time, grants: seq<nat>)
    | OpenOne(id: string, owner: string, template: string, now: Time)
    /** a month rollover of row i: its owner's counters are reset */
    | RollOver(i: nat, ready: bool, boundary: Time, now: Time)
    | MonthlyReset
    | IssueGrant(amount: real, expires: Option<Time>)
    | SetLimit(limit: real)

  /** Who is billed, and the template resources in force. */
  datatype Setting = Setting(user: string, cache: Specs)

  predicate AllPriced(sessions: seq<Session>, cache: Specs, conflict: nat -> bool, now: Time) {
    forall i :: 0 <= i < |sessions| ==> !Unpriced(sessions, cache, conflict, now, i)
  }

  predicate IsOpen(sessions: seq<Session>, i: nat) { i < |sessions| && sessions[i].endedAt.None? }

  /** The owner of the row a close finds. */
  predicate ClosesFor(sessions: seq<Session>, id: string, user: string) {
    var row := OpenRow(sessions, id);
    row.Some? && sessions[row.value].userId == user
  }

  /** The table after a step; a tick over a session without a price is rolled back. */
  function SessionsAfter(w: Setting, sessions: seq<Session>, step: Step): seq<Session> {
    match step
    case TickAll(now, conflict, _, _) =>
      if AllPriced(sessions, w.cache, conflict, now) then Ticked(sessions, conflict, now) else sessions
    case CloseOne(id, now, _, _) => CloseIn(sessions, w.cache, id, now).sessions
    case OpenOne(id, owner, template, now) =>
      var opened' := OpenIn(sessions, w.cache, id, owner, template, now);
      if opened'.Some? then opened'.value else sessions
    case RollOver(i, ready, boundary, now) =>
      if IsOpen(sessions, i) then SplitSession(sessions, i, ready, boundary, now) else sessions
    case _ => sessions
  }

  /** The amount handed to consume_compute_credits for the user. */
  function ChargeOf(w: Setting, sessions: seq<Session>, step: Step): real {
    match step
    case TickAll(now, conflict, _, _) =>
      if AllPriced(sessions, w.cache, conflict, now) then UserDelta(sessions, w.cache, conflict, w.user, now) else 0.0
    case CloseOne(id, now, _, _) =>
      if ClosesFor(sessions, id, w.user) then CloseIn(sessions, w.cache, id, now).charge else 0.0
    case _ => 0.0
  }

  predicate Resets(w: Setting, sessions: seq<Session>, step: Step) {
    step.MonthlyReset? || (step.RollOver? && IsOpen(sessions, step.i) && sessions[step.i].userId == w.user)
  }

  /** What the step does to the user's account. */
  function OpOf(w: Setting, sessions: seq<Session>, step: Step): C.Op {
    match step
    case TickAll(_, _, at, grants) => C.Charge(ChargeOf(w, sessions, step), at, grants)
    case CloseOne(_, _, at, grants) => C.Charge(ChargeOf(w, sessions, step), at, grants)
    case IssueGrant(amount, expires) => C.IssueGrant(amount, expires)
    case SetLimit(limit) => C.SetLimit(limit)
    case OpenOne(_, _, _, now) => C.Charge(0.0, now, [])
    case RollOver(_, _, _, now) => if Resets(w, sessions, step) then C.Reset else C.Charge(0.0, now, [])
    case MonthlyReset => C.Reset
  }

  /** The grants a charge is taken from are those the query returned. */
  ghost predicate Enabled(w: Setting, b: Billing, step: Step) {
    step.TickAll? || step.CloseOne? ==> C.IsEligibleOrder(b.books.account.grants, step.at, step.grants)
  }

  ghost function BooksAfter(w: Setting, b: Billing, step: Step): C.Books
    requires Enabled(w, b, step)
  {
    var op := OpOf(w, b.sessions, step);
    if op.Charge? && op.amount <= 0.0 then b.books else C.ApplyOp(b.books, op)
  }

  ghost function Next(w: Setting, b: Billing, step: Step): Billing
    requires Enabled(w, b, step)
  {
    var sessions := SessionsAfter(w, b.sessions, step);
    Billing(sessions, BooksAfter(w, b, step),
            if Resets(w, b.sessions, step) then UserCuHours(sessions, w.user) else b.baseline)
  }

  ghost predicate IsRun(w: Setting, states: seq<Billing>, steps: seq<Step>) {
    && |states| == |steps| + 1
    && states[0].sessions == [] && states[0].baseline == 0.0
    && states[0].books.account.used == states[0].books.account.overage == 0.0
    && states[0].books.account.grants == []
    && states[0].books.consumed == states[0].books.fromGrants == 0.0
    && forall i :: 0 <= i < |steps| ==> Enabled(w, states[i], steps[i]) && states[i + 1] == Next(w, states[i], steps[i])
  }

  // ---------------------------------------------------------------- sums over the table

  lemma {:induction false} UserCuHoursAppend(sessions: seq<Session>, s: Session, user: string)
    ensures UserCuHours(sessions + [s], user) ==
      UserCuHours(sessions, user) + if s.userId == user then s.CuHours() else 0.0
  {
    assert (sessions + [s])[..|sessions|] == sessions;
  }

  lemma {:induction false} UserCuHoursUpdate(sessions: seq<Session>, i: nat, s: Session, user: string)
    requires i < |sessions| && s.userId == sessions[i].userId
    ensures UserCuHours(sessions[i := s], user) ==
      UserCuHours(sessions, user) + if s.userId == user then s.CuHours() - sessions[i].CuHours() else 0.0
  {
    var last := |sessions| - 1;
    var front := sessions[..last];
    if i == last {
      assert sessions[i := s][..last] == front;
    } else {
      UserCuHoursUpdate(front, i, s, user);
      assert sessions[i := s][..last] == front[i := s];
    }
  }

  // ---------------------------------------------------------------- unchanged specs

  predicate NonNegative(spec: Spec) { 0.0 <= spec.vcpu && 0.0 <= spec.memoryGib }

  /** Every session was opened with what its template still asks for. */
  ghost predicate SpecsUnchanged(sessions: seq<Session>, cache: Specs) {
    forall i :: 0 <= i < |sessions| ==> SpecUnchanged(sessions[i], cache)
  }

  predicate SpecUnchanged(s: Session, cache: Specs) {
    ResolveSpec(cache, s.template) == Some(s.request) && NonNegative(s.request)
  }

  ghost predicate ValidSetting(w: Setting) { forall t :: t in w.cache ==> NonNegative(w.cache[t]) }

  lemma ResolvedIsNonNegative(w: Setting, template: string)
    requires ValidSetting(w) && ResolveSpec(w.cache, template).Some?
    ensures NonNegative(ResolveSpec(w.cache, template).value)
  {
  }

  lemma StepKeepsSpecs(w: Setting, sessions: seq<Session>, step: Step)
    requires ValidSetting(w) && SpecsUnchanged(sessions, w.cache)
    ensures SpecsUnchanged(SessionsAfter(w, sessions, step), w.cache)
  {
    var after := SessionsAfter(w, sessions, step);
    if step.OpenOne? && after != sessions {
      ResolvedIsNonNegative(w, step.template);
    }
    forall i | 0 <= i < |after|
      ensures SpecUnchanged(after[i], w.cache)
    {
      assert i < |sessions| ==> SpecUnchanged(sessions[i], w.cache);
      if step.RollOver? && IsOpen(sessions, step.i) {
        assert SpecUnchanged(sessions[step.i], w.cache);
      }
    }
  }

  // ---------------------------------------------------------------- what is charged is what is booked

  lemma {:induction false} UserDeltaIsNonNegative(
      sessions: seq<Session>, cache: Specs, conflict: nat -> bool, user: string, now: Time)
    requires SpecsUnchanged(sessions, cache)
    ensures 0.0 <= UserDelta(sessions, cache, conflict, user, now)
  {
    if sessions == [] {
    } else {
      var last := |sessions| - 1;
      UserDeltaIsNonNegative(sessions[..last], cache, conflict, user, now);
      assert SpecUnchanged(sessions[last], cache);
      if Metered(sessions, conflict, now, last) {
        RateMonotone(CuRate(sessions[last].request), 0, now - sessions[last].lastMeteredAt);
      }
    }
  }

  lemma {:induction false} TickBooksCharge(w: Setting, sessions: seq<Session>, step: Step)
    requires SpecsUnchanged(sessions, w.cache) && step.TickAll?
    ensures 0.0 <= ChargeOf(w, sessions, step)
    ensures UserCuHours(SessionsAfter(w, sessions, step), w.user) ==
      UserCuHours(sessions, w.user) + ChargeOf(w, sessions, step)
  {
    assert forall i :: 0 <= i < |sessions| ==> SpecUnchanged(sessions[i], w.cache);
    TickChargesBookedHours(sessions, w.cache, step.conflict, w.user, step.now);
    UserDeltaIsNonNegative(sessions, w.cache, step.conflict, w.user, step.now);
  }

  lemma {:induction false} CloseBooksCharge(w: Setting, sessions: seq<Session>, step: Step)
    requires SpecsUnchanged(sessions, w.cache) && step.CloseOne?
    ensures 0.0 <= ChargeOf(w, sessions, step)
    ensures UserCuHours(SessionsAfter(w, sessions, step), w.user) ==
      UserCuHours(sessions, w.user) + ChargeOf(w, sessions, step)
  {
    var row := OpenRow(sessions, step.id);
    if row.Some? {
      var s := sessions[row.value];
      assert SpecUnchanged(s, w.cache);
      var r := Close(s, Some(s.request), step.now);
      assert CloseIn(sessions, w.cache, step.id, step.now) ==
        CloseOutcome(sessions[row.value := r.session], r.charge, false);
      CloseChargesBookedIff(s, s.request, step.now);
      UserCuHoursUpdate(sessions, row.value, r.session, w.user);
    }
  }

  lemma {:induction false} OpenBooksNothing(w: Setting, sessions: seq<Session>, step: Step)
    requires step.OpenOne?
    ensures UserCuHours(SessionsAfter(w, sessions, step), w.user) == UserCuHours(sessions, w.user)
  {
    var after := SessionsAfter(w, sessions, step);
    if after != sessions {
      var spec := ResolveSpec(w.cache, step.template).value;
      UserCuHoursAppend(sessions, OpenSession(step.id, step.owner, step.template, spec, step.now, step.now), w.user);
    }
  }

  lemma {:induction false} OthersRolloverBooksNothing(w: Setting, sessions: seq<Session>, step: Step)
    requires step.RollOver? && !Resets(w, sessions, step)
    ensures UserCuHours(SessionsAfter(w, sessions, step), w.user) == UserCuHours(sessions, w.user)
  {
    if IsOpen(sessions, step.i) {
      var s := sessions[step.i];
      var ended := EndAtBoundary(s, step.boundary, step.now);
      UserCuHoursUpdate(sessions, step.i, ended, w.user);
      UserCuHoursAppend(sessions[step.i := ended], StartAtBoundary(s, step.boundary, step.now), w.user);
      assert sessions[step.i := ended] + [] == sessions[step.i := ended];
    }
  }

  ghost predicate Inv(w: Setting, b: Billing) {
    && SpecsUnchanged(b.sessions, w.cache)
    && C.BooksBalance(b.books)
    && b.books.consumed == UserCuHours(b.sessions, w.user) - b.baseline
  }

  lemma BooksStepBalances(w: Setting, b: Billing, step: Step)
    requires Enabled(w, b, step) && C.BooksBalance(b.books)
    ensures var op := OpOf(w, b.sessions, step);
      && C.BooksBalance(BooksAfter(w, b, step))
      && BooksAfter(w, b, step).consumed ==
         if op.Reset? then 0.0 else b.books.consumed + if op.Charge? then MaxReal(0.0, op.amount) else 0.0
  {
    var op := OpOf(w, b.sessions, step);
    if !(op.Charge? && op.amount <= 0.0) {
      C.OpKeepsBalance(b.books, op);
    }
  }

  lemma StepKeepsInv(w: Setting, b: Billing, step: Step)
    requires ValidSetting(w) && Enabled(w, b, step) && Inv(w, b)
    ensures Inv(w, Next(w, b, step))
  {
    StepKeepsSpecs(w, b.sessions, step);
    BooksStepBalances(w, b, step);
    match step
    case TickAll(_, _, _, _) => TickBooksCharge(w, b.sessions, step);
    case CloseOne(_, _, _, _) => CloseBooksCharge(w, b.sessions, step);
    case OpenOne(_, _, _, _) => OpenBooksNothing(w, b.sessions, step);
    case RollOver(_, _, _, _) =>
      if !Resets(w, b.sessions, step) {
        OthersRolloverBooksNothing(w, b.sessions, step);
      }
    case _ =>
  }

  lemma {:induction false} RunKeepsInv(w: Setting, states: seq<Billing>, steps: seq<Step>, i: nat)
    requires ValidSetting(w) && IsRun(w, states, steps) && i < |states|
    ensures Inv(w, states[i])
  {
    if i == 0 {
    } else {
      RunKeepsInv(w, states, steps, i - 1);
      StepKeepsInv(w, states[i - 1], steps[i - 1]);
    }
  }

  /**
   While template specs do not change, at every point of every run of openings, ticks, closes, rollovers, resets,
   grants and limit changes, whoever owns the sessions: what has left the user's monthly pool and grants since the
   last reset, with the overage, is exactly the compute-unit hours the user's sessions have booked since then.
   */
  lemma CreditsPayForBookedHours(w: Setting, states: seq<Billing>, steps: seq<Step>, i: nat)
    requires ValidSetting(w) && IsRun(w, states, steps) && i < |states|
    ensures var Billing(sessions, books, baseline) := states[i];
      books.account.used + books.account.overage + books.fromGrants == UserCuHours(sessions, w.user) - baseline
  {
    RunKeepsInv(w, states, steps, i);
  }

  // ---------------------------------------------------------------- which rows a step changes

  /** A step never removes or reorders rows, and never changes a closed one. */
  lemma StepKeepsClosedRows(w: Setting, sessions: seq<Session>, step: Step, k: nat)
    requires k < |sessions| && sessions[k].endedAt.Some?
    ensures var after := SessionsAfter(w, sessions, step);
      k < |after| && after[k] == sessions[k]
  {
    if step.TickAll? {
      TickMetersOpenRows(sessions, step.conflict, step.now, k);
    }
  }

  /** Once closed, a row of the table never changes again, in any run. */
  lemma {:induction false} ClosedRowsNeverChange(
      w: Setting, states: seq<Billing>, steps: seq<Step>, i: nat, j: nat, k: nat)
    requires IsRun(w, states, steps) && i <= j < |states|
    requires k < |states[i].sessions| && states[i].sessions[k].endedAt.Some?
    ensures k < |states[j].sessions| && states[j].sessions[k] == states[i].sessions[k]
    decreases j - i
  {
    if i == j {
    } else {
      ClosedRowsNeverChange(w, states, steps, i, j - 1, k);
      StepKeepsClosedRows(w, states[j - 1].sessions, steps[j - 1], k);
    }
  }

  ghost predicate OpenRowsAccounted(sessions: seq<Session>) {
    forall k :: 0 <= k < |sessions| && sessions[k].endedAt.None? ==> sessions[k].Accounted()
  }

  lemma StepKeepsOpenRowAccounted(w: Setting, sessions: seq<Session>, step: Step, k: nat)
    requires SpecsUnchanged(sessions, w.cache) && OpenRowsAccounted(sessions)
    requires k < |SessionsAfter(w, sessions, step)| && SessionsAfter(w, sessions, step)[k].endedAt.None?
    ensures SessionsAfter(w, sessions, step)[k].Accounted()
  {
    var t := SessionsAfter(w, sessions, step)[k];
    if k < |sessions| {
      assert SpecUnchanged(sessions[k], w.cache);
      if step.TickAll? {
        TickMetersOpenRows(sessions, step.conflict, step.now, k);
      } else if step.CloseOne? {
        var row := OpenRow(sessions, step.id);
        if row.Some? {
          CloseRowKeepsIdentity(sessions[row.value], ResolveSpec(w.cache, sessions[row.value].template), step.now);
        }
      }
    } else {
      FreshSessionIsAccounted(t);
    }
  }

  lemma {:induction false} StepKeepsOpenRowsAccounted(w: Setting, sessions: seq<Session>, step: Step)
    requires SpecsUnchanged(sessions, w.cache) && OpenRowsAccounted(sessions)
    ensures OpenRowsAccounted(SessionsAfter(w, sessions, step))
  {
    var after := SessionsAfter(w, sessions, step);
    forall k | 0 <= k < |after| && after[k].endedAt.None?
      ensures after[k].Accounted()
    {
      StepKeepsOpenRowAccounted(w, sessions, step, k);
    }
  }

  lemma NextSessions(w: Setting, b: Billing, step: Step)
    requires Enabled(w, b, step)
    ensures Next(w, b, step).sessions == SessionsAfter(w, b.sessions, step)
  {
  }

  /**
   In every run, however ticks, openings, closes and rollovers follow each other, an open row has booked its request
   from its start to its last metering and nothing else.
   */
  lemma {:induction false} OpenRowsStayAccounted(w: Setting, states: seq<Billing>, steps: seq<Step>, i: nat)
    requires ValidSetting(w) && IsRun(w, states, steps) && i < |states|
    ensures OpenRowsAccounted(states[i].sessions)
  {
    if i == 0 {
    } else {
      var (before, step) := (states[i - 1], steps[i - 1]);
      OpenRowsStayAccounted(w, states, steps, i - 1);
      RunKeepsInv(w, states, steps, i - 1);
      StepKeepsOpenRowsAccounted(w, before.sessions, step);
      NextSessions(w, before, step);
      assert states[i] == Next(w, before, step);
    }
  }

  /** A user without an open session is charged nothing. */
  lemma NoOpenRowNoCharge(w: Setting, sessions: seq<Session>, step: Step)
    requires forall k :: 0 <= k < |sessions| && sessions[k].userId == w.user ==> sessions[k].endedAt.Some?
    ensures ChargeOf(w, sessions, step) == 0.0
  {
    if step.TickAll? {
      NoOpenRowNoDelta(sessions, w.cache, step.conflict, w.user, step.now);
    }
  }

  lemma {:induction false} NoOpenRowNoDelta(
      sessions: seq<Session>, cache: Specs, conflict: nat -> bool, user: string, now: Time)
    requires forall k :: 0 <= k < |sessions| && sessions[k].userId == user ==> sessions[k].endedAt.Some?
    ensures UserDelta(sessions, cache, conflict, user, now) == 0.0
  {
    if sessions == [] {
    } else {
      NoOpenRowNoDelta(sessions[..|sessions| - 1], cache, conflict, user, now);
    }
  }
}
