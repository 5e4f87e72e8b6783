/** Compute sessions: opening, metering ticks, the capped close, and what they charge. */
module ComputeSessions {
  import opened Common

  datatype Spec = Spec(vcpu: real, memoryGib: real)

  /** Resources by template name. */
  type Specs = map<string, Spec>

  const TEMPLATE_SPECS: Specs := map[
    "aio-sandbox-tiny" := Spec(0.25, 1.0),
    "aio-sandbox-small" := Spec(0.5, 2.0),
    "aio-sandbox-medium" := Spec(1.0, 4.0),
    "aio-sandbox-large" := Spec(2.0, 8.0),
    "aio-sandbox-xlarge" := Spec(4.0, 16.0)]

  const CU_VCPU_WEIGHT: real := 0.5
  const CU_MEMORY_WEIGHT: real := 0.125
  const MAX_CLOSE_DELTA: Time := 120 * SECOND

  /** The template's resources: the synced cache first, then the static table. */
  function ResolveSpec(cache: Specs, template: string): Option<Spec> {
    if template in cache then Some(cache[template])
    else if template in TEMPLATE_SPECS then Some(TEMPLATE_SPECS[template])
    else None
  }

  function CuRate(spec: Spec): real { CU_VCPU_WEIGHT * spec.vcpu + CU_MEMORY_WEIGHT * spec.memoryGib }

  datatype Session = Session(
    sandboxId: string,
    userId: string,
    template: string,
    request: Spec,
    startedAt: Time,
    endedAt: Option<Time>,
    lastMeteredAt: Time,
    vcpuHours: real,
    memoryGibHours: real,
    gmtUpdated: Time)
  {
    /** Compute-unit hours of the accumulated raw hours. */
    function CuHours(): real { CU_VCPU_WEIGHT * vcpuHours + CU_MEMORY_WEIGHT * memoryGibHours }

    /** The raw hours are exactly the request over the span `metered`. */
    ghost predicate AccountsFor(metered: Time) {
      && vcpuHours == request.vcpu * Hours(metered)
      && memoryGibHours == request.memoryGib * Hours(metered)
    }

    /** An open session's books: everything from its start to its last metering, and nothing else. */
    ghost predicate Accounted() {
      startedAt <= lastMeteredAt && AccountsFor(lastMeteredAt - startedAt)
    }
  }

  function Accrue(s: Session, elapsed: Time): Session {
    s.(vcpuHours := s.vcpuHours + s.request.vcpu * Hours(elapsed),
       memoryGibHours := s.memoryGibHours + s.request.memoryGib * Hours(elapsed))
  }

  lemma AccrueExtends(s: Session, metered: Time, elapsed: Time)
    requires s.AccountsFor(metered)
    ensures Accrue(s, elapsed).AccountsFor(metered + elapsed)
    ensures Accrue(s, elapsed).CuHours() == s.CuHours() + CuRate(s.request) * Hours(elapsed)
  {
    RateOverSpans(s.request.vcpu, metered, elapsed);
    RateOverSpans(s.request.memoryGib, metered, elapsed);
    var h := Hours(elapsed);
    var r := s.request;
    assert CuRate(r) * h == CU_VCPU_WEIGHT * (r.vcpu * h) + CU_MEMORY_WEIGHT * (r.memoryGib * h);
  }

  /** The inserted row; its gmt_updated default is read separately, so it may differ from `now`. */
  function OpenSession(
      sandboxId: string, userId: string, template: string, spec: Spec, now: Time, stamp: Time): Session
  {
    Session(sandboxId, userId, template, spec, now, None, now, 0.0, 0.0, stamp)
  }

  /** One metering tick of one open session; a tick not after the last one does nothing. */
  function Tick(s: Session, now: Time): Session {
    if now <= s.lastMeteredAt then s
    else Accrue(s, now - s.lastMeteredAt).(lastMeteredAt := now, gmtUpdated := now)
  }

  function TickCharge(s: Session, spec: Spec, now: Time): real {
    if now <= s.lastMeteredAt then 0.0 else CuRate(spec) * Hours(now - s.lastMeteredAt)
  }

  /** The span a close accrues: the gap since the last metering, at most 120 s. */
  function CloseSpan(s: Session, now: Time): Time { Min(now - s.lastMeteredAt, MAX_CLOSE_DELTA) }

  datatype CloseResult = Closed(session: Session, charge: real) | Raised(session: Session)

  /**
   close_compute_session on the open row. With an unknown template the call raises after the hours were
   added and before the row is ended, so the caller is left with the half-updated row.
   */
  function Close(s: Session, spec: Option<Spec>, now: Time): CloseResult {
    var span := CloseSpan(s, now);
    var accrued := if span > 0 then Accrue(s, span) else s;
    if span > 0 && spec.None? then Raised(accrued)
    else
      Closed(accrued.(endedAt := Some(now), lastMeteredAt := now, gmtUpdated := now),
             if span > 0 then MaxReal(0.0, CuRate(spec.value) * Hours(span)) else 0.0)
  }

  // ---------------------------------------------------------------- one session from open to close

  /** A session ticked at `times`: its successive states and the credits charged so far. */
  datatype Ticking = Ticking(states: seq<Session>, charged: seq<real>)
  {
    ghost predicate From(s: Session, times: seq<Time>) {
      && |states| == |charged| == |times| + 1
      && states[0] == s && charged[0] == 0.0
      && forall i :: 0 <= i < |times| ==>
           && states[i + 1] == Tick(states[i], times[i])
           && charged[i + 1] == charged[i] + TickCharge(states[i], s.request, times[i])
    }
  }

  function LatestOf(start: Time, times: seq<Time>): Time {
    if times == [] then start else Max(LatestOf(start, times[..|times| - 1]), times[|times| - 1])
  }

  lemma TickExtends(s: Session, now: Time)
    requires s.Accounted()
    ensures Tick(s, now).Accounted() && Tick(s, now).lastMeteredAt == Max(s.lastMeteredAt, now)
    ensures Tick(s, now).CuHours() == s.CuHours() + TickCharge(s, s.request, now)
  {
    if now > s.lastMeteredAt {
      AccrueExtends(s, s.lastMeteredAt - s.startedAt, now - s.lastMeteredAt);
    }
  }

  lemma FreshSessionIsAccounted(s: Session)
    requires s.startedAt == s.lastMeteredAt && s.vcpuHours == s.memoryGibHours == 0.0
    ensures s.Accounted() && s.CuHours() == 0.0
  {
    assert Hours(0) == 0.0;
  }

  /** After any ticks the hours are exactly the request from the start to the latest tick, and so are the charges. */
  lemma {:induction false} TicksTelescope(s: Session, times: seq<Time>, run: Ticking, i: nat)
    requires s.Accounted() && s.startedAt == s.lastMeteredAt && s.CuHours() == 0.0
    requires run.From(s, times) && i <= |times|
    ensures var t := run.states[i];
      && t.Accounted() && t.request == s.request && t.startedAt == s.startedAt && t.endedAt == s.endedAt
      && t.lastMeteredAt == LatestOf(s.startedAt, times[..i])
      && run.charged[i] == t.CuHours()
  {
    if i == 0 {
    } else {
      TicksTelescope(s, times, run, i - 1);
      TickExtends(run.states[i - 1], times[i - 1]);
      assert times[..i][..i - 1] == times[..i - 1];
    }
  }

  /** A close books the final gap, cut to 0..120 s, and charges exactly what it books. */
  lemma CloseExtends(s: Session, now: Time)
    requires s.Accounted() && 0.0 <= s.request.vcpu && 0.0 <= s.request.memoryGib
    ensures var r := Close(s, Some(s.request), now);
      && r.Closed? && r.session.endedAt == Some(now)
      && r.session.AccountsFor(s.lastMeteredAt - s.startedAt + Max(0, CloseSpan(s, now)))
      && r.session.CuHours() == s.CuHours() + r.charge
  {
    var span := CloseSpan(s, now);
    if span > 0 {
      AccrueExtends(s, s.lastMeteredAt - s.startedAt, span);
      RateMonotone(CuRate(s.request), 0, span);
    }
  }

  lemma WithinWallTime(s: Session, metered: Time, wall: Time)
    requires s.AccountsFor(metered) && metered <= wall && 0.0 <= s.request.vcpu && 0.0 <= s.request.memoryGib
    ensures s.vcpuHours <= s.request.vcpu * Hours(wall) && s.memoryGibHours <= s.request.memoryGib * Hours(wall)
  {
    RateMonotone(s.request.vcpu, metered, wall);
    RateMonotone(s.request.memoryGib, metered, wall);
  }

  lemma CloseWithinWallTime(s: Session, now: Time)
    requires s.Accounted() && 0.0 <= s.request.vcpu && 0.0 <= s.request.memoryGib && s.lastMeteredAt <= now
    ensures var closed := Close(s, Some(s.request), now).session;
      && closed.vcpuHours <= s.request.vcpu * Hours(now - s.startedAt)
      && closed.memoryGibHours <= s.request.memoryGib * Hours(now - s.startedAt)
      && (now - s.lastMeteredAt <= MAX_CLOSE_DELTA ==> closed.AccountsFor(now - s.startedAt))
  {
    CloseExtends(s, now);
    var closed := Close(s, Some(s.request), now).session;
    WithinWallTime(closed, s.lastMeteredAt - s.startedAt + Max(0, CloseSpan(s, now)), now - s.startedAt);
  }

  /** A session as open_compute_session inserts it. */
  ghost predicate JustOpened(s: Session) {
    && s == OpenSession(s.sandboxId, s.userId, s.template, s.request, s.startedAt, s.gmtUpdated)
    && 0.0 <= s.request.vcpu && 0.0 <= s.request.memoryGib
  }

  lemma {:induction false} TickedSession(s: Session, times: seq<Time>, run: Ticking)
    requires JustOpened(s) && run.From(s, times)
    ensures var t := run.states[|times|];
      && t.Accounted() && t.request == s.request && t.startedAt == s.startedAt && t.endedAt.None?
      && t.lastMeteredAt == LatestOf(s.startedAt, times)
      && run.charged[|times|] == t.CuHours()
  {
    FreshSessionIsAccounted(s);
    TicksTelescope(s, times, run, |times|);
    assert times[..|times|] == times;
  }

  /**
   A session opened, ticked at any times and closed at `now`: its hours are the request over `booked`, the
   time from the start to the latest tick plus the final gap cut to 0..120 s, and they are exactly what was
   charged. On a clock that has not gone back `booked` never exceeds the wall time, and equals it exactly
   when the final gap is at most 120 s.
   */
  lemma {:induction false} SessionAccounting(s: Session, times: seq<Time>, run: Ticking, now: Time)
    requires JustOpened(s) && run.From(s, times)
    ensures
      var ticked := run.states[|times|];
      var r := Close(ticked, Some(ticked.request), now);
      var gap := now - LatestOf(s.startedAt, times);
      var booked := LatestOf(s.startedAt, times) - s.startedAt + Min(Max(0, gap), 120 * SECOND);
      && r.Closed? && r.session.endedAt == Some(now)
      && r.session.startedAt == s.startedAt && r.session.request == s.request
      && r.session.AccountsFor(booked)
      && 0.5 * r.session.vcpuHours + 0.125 * r.session.memoryGibHours == run.charged[|times|] + r.charge
      && (0 <= gap ==> booked <= now - s.startedAt)
      && (0 <= gap ==> (booked == now - s.startedAt <==> gap <= 120 * SECOND))
  {
    TickedSession(s, times, run);
    CloseExtends(run.states[|times|], now);
  }

  // ---------------------------------------------------------------- the tick over the whole table

  /** The unique index on open sessions: at most one per sandbox. */
  ghost predicate UniqueOpen(sessions: seq<Session>) {
    forall i, j :: 0 <= i < j < |sessions| && sessions[i].endedAt.None? && sessions[j].endedAt.None? ==>
      sessions[i].sandboxId != sessions[j].sandboxId
  }

  /** Open, and not yet metered up to `now`: the tick sends a guarded write. */
  predicate Due(s: Session, now: Time) { s.endedAt.None? && s.lastMeteredAt < now }

  /** Rows the tick really meters: `conflict(i)` says that the guarded write of row i found a newer gmt_updated. */
  predicate Metered(sessions: seq<Session>, conflict: nat -> bool, now: Time, i: nat)
    requires i < |sessions|
  {
    Due(sessions[i], now) && !conflict(i)
  }

  /** The table afterwards, as far as this tick is concerned: a row whose write conflicts is skipped. */
  function Ticked(sessions: seq<Session>, conflict: nat -> bool, now: Time): (r: seq<Session>)
    ensures |r| == |sessions|
  {
    seq(|sessions|, i requires 0 <= i < |sessions| =>
      if Metered(sessions, conflict, now, i) then Tick(sessions[i], now) else sessions[i])
  }

  /** Row by row: closed and conflicting rows stay as they are, every other row is metered up to `now`. */
  lemma TickMetersOpenRows(sessions: seq<Session>, conflict: nat -> bool, now: Time, i: nat)
    requires i < |sessions|
    ensures
      var (s, t) := (sessions[i], Ticked(sessions, conflict, now)[i]);
      && (s.endedAt.Some? || conflict(i) ==> t == s)
      && (s.endedAt.None? && !conflict(i) ==>
            && t.lastMeteredAt == Max(s.lastMeteredAt, now) && t.endedAt.None?
            && t.sandboxId == s.sandboxId && t.userId == s.userId
            && t.request == s.request && t.startedAt == s.startedAt
            && (s.Accounted() ==> t.Accounted()))
  {
    var s := sessions[i];
    if s.Accounted() && Metered(sessions, conflict, now, i) {
      TickExtends(s, now);
    }
  }

  /** A row the tick meters but cannot price. */
  predicate Unpriced(sessions: seq<Session>, cache: Specs, conflict: nat -> bool, now: Time, i: nat)
    requires i < |sessions|
  {
    Metered(sessions, conflict, now, i) && ResolveSpec(cache, sessions[i].template).None?
  }

  /** What one row adds to its user's credit delta in one tick. */
  function RowDelta(sessions: seq<Session>, cache: Specs, conflict: nat -> bool, now: Time, i: nat): real
    requires i < |sessions|
  {
    var spec := ResolveSpec(cache, sessions[i].template);
    if Metered(sessions, conflict, now, i) && spec.Some? then TickCharge(sessions[i], spec.value, now) else 0.0
  }

  /** A user's credit delta in one tick: the rates of its metered sessions over the time they were metered. */
  function UserDelta(sessions: seq<Session>, cache: Specs, conflict: nat -> bool, user: string, now: Time): real {
    if sessions == [] then 0.0
    else
      var last := |sessions| - 1;
      UserDelta(sessions[..last], cache, conflict, user, now)
        + (if sessions[last].userId == user then RowDelta(sessions, cache, conflict, now, last) else 0.0)
  }

  lemma {:induction false} UserDeltaStep(
      sessions: seq<Session>, cache: Specs, conflict: nat -> bool, user: string, now: Time, i: nat)
    requires i < |sessions|
    ensures UserDelta(sessions[..i + 1], cache, conflict, user, now) ==
      UserDelta(sessions[..i], cache, conflict, user, now)
        + (if sessions[i].userId == user then RowDelta(sessions, cache, conflict, now, i) else 0.0)
  {
    assert sessions[..i + 1][..i] == sessions[..i];
  }

  function DeltaOf(deltas: map<string, real>, user: string): real {
    if user in deltas then deltas[user] else 0.0
  }

  class SessionTable {
    var sessions: seq<Session>
    var cache: Specs

    constructor (sessions: seq<Session>, cache: Specs)
      ensures this.sessions == sessions && this.cache == cache
    {
      this.sessions, this.cache := sessions, cache;
    }

    /**
     tick_metering: every open session whose guarded write goes through is metered and the charges are summed per
     user in `deltas`; a conflicting row is skipped and not charged. A metered session of an unknown template
     raises, and then nothing of the tick is committed.
     */
    method TickMetering(now: Time, conflict: nat -> bool) returns (raised: bool, deltas: map<string, real>)
      modifies this`sessions
      ensures raised <==> exists i :: 0 <= i < |old(sessions)| && Unpriced(old(sessions), cache, conflict, now, i)
      ensures raised ==> sessions == old(sessions) && deltas == map[]
      ensures !raised ==> sessions == Ticked(old(sessions), conflict, now)
      ensures !raised ==> forall user :: DeltaOf(deltas, user) == UserDelta(old(sessions), cache, conflict, user, now)
    {
      var work := sessions;
      deltas := map[];
      raised := false;
      var i := 0;
      while i < |work|
        invariant 0 <= i <= |work| == |sessions| && sessions == old(sessions)
        invariant forall j :: 0 <= j < i ==> !Unpriced(sessions, cache, conflict, now, j)
        invariant forall j :: 0 <= j < i ==> work[j] == Ticked(sessions, conflict, now)[j]
        invariant forall j :: i <= j < |work| ==> work[j] == sessions[j]
        invariant forall user :: DeltaOf(deltas, user) == UserDelta(sessions[..i], cache, conflict, user, now)
      {
        var cs := work[i];
        if cs.lastMeteredAt < now && cs.endedAt.None? && !conflict(i) {
          work := work[i := Tick(cs, now)];
          if ResolveSpec(cache, cs.template).None? {
            assert Unpriced(sessions, cache, conflict, now, i);
            return true, map[];
          }
          deltas := AddDelta(deltas, cs.userId, RowDelta(sessions, cache, conflict, now, i));
        }
        forall user
          ensures DeltaOf(deltas, user) == UserDelta(sessions[..i + 1], cache, conflict, user, now)
        {
          UserDeltaStep(sessions, cache, conflict, user, now, i);
        }
        i := i + 1;
      }
      assert sessions[..i] == sessions;
      sessions := work;
    }

    static method AddDelta(deltas: map<string, real>, user: string, amount: real) returns (r: map<string, real>)
      ensures forall u :: DeltaOf(r, u) == DeltaOf(deltas, u) + (if u == user then amount else 0.0)
    {
      r := deltas[user := DeltaOf(deltas, user) + amount];
    }
  }

  /** Compute-unit hours of a user's sessions. */
  function UserCuHours(sessions: seq<Session>, user: string): real {
    if sessions == [] then 0.0
    else
      var last := sessions[|sessions| - 1];
      UserCuHours(sessions[..|sessions| - 1], user) + (if last.userId == user then last.CuHours() else 0.0)
  }

  lemma RowTickBooksCharge(sessions: seq<Session>, cache: Specs, conflict: nat -> bool, now: Time, i: nat)
    requires i < |sessions| && ResolveSpec(cache, sessions[i].template) == Some(sessions[i].request)
    ensures var t := Ticked(sessions, conflict, now)[i];
      && t.userId == sessions[i].userId
      && t.CuHours() == sessions[i].CuHours() + RowDelta(sessions, cache, conflict, now, i)
  {
    if Metered(sessions, conflict, now, i) {
      AccrueBooksCharge(sessions[i], now - sessions[i].lastMeteredAt);
    }
  }

  /** While templates keep the resources sessions were opened with, a tick charges each user the hours it books. */
  lemma {:induction false} TickChargesBookedHours(
      sessions: seq<Session>, cache: Specs, conflict: nat -> bool, user: string, now: Time)
    requires forall i :: 0 <= i < |sessions| ==> ResolveSpec(cache, sessions[i].template) == Some(sessions[i].request)
    ensures UserDelta(sessions, cache, conflict, user, now) ==
      UserCuHours(Ticked(sessions, conflict, now), user) - UserCuHours(sessions, user)
  {
    if sessions == [] {
    } else {
      var last := |sessions| - 1;
      TickChargesBookedHours(sessions[..last], cache, conflict, user, now);
      assert Ticked(sessions, conflict, now)[..last] == Ticked(sessions[..last], conflict, now);
      RowTickBooksCharge(sessions, cache, conflict, now, last);
    }
  }

  lemma AccrueBooksCharge(s: Session, elapsed: Time)
    ensures Accrue(s, elapsed).CuHours() == s.CuHours() + CuRate(s.request) * Hours(elapsed)
  {
    var h := Hours(elapsed);
    var r := s.request;
    assert CuRate(r) * h == CU_VCPU_WEIGHT * (r.vcpu * h) + CU_MEMORY_WEIGHT * (r.memoryGib * h);
  }

  // ---------------------------------------------------------------- the month boundary

  /** handle_period_rollover on one session: the old row ends at the boundary. */
  function EndAtBoundary(s: Session, boundary: Time, now: Time): Session {
    var elapsed := boundary - s.lastMeteredAt;
    var accrued := if elapsed > 0 then Accrue(s, elapsed) else s;
    accrued.(endedAt := Some(boundary), lastMeteredAt := boundary, gmtUpdated := now)
  }

  /** ... and a fresh row starts there. */
  function StartAtBoundary(s: Session, boundary: Time, now: Time): Session {
    Session(s.sandboxId, s.userId, s.template, s.request, boundary, None, boundary, 0.0, 0.0, now)
  }

  /** The ended row books everything up to the boundary, or whatever it had already booked past it. */
  lemma EndedRowBooks(s: Session, boundary: Time, now: Time)
    requires s.Accounted()
    ensures EndAtBoundary(s, boundary, now).AccountsFor(Max(boundary, s.lastMeteredAt) - s.startedAt)
  {
    if s.lastMeteredAt < boundary {
      AccrueExtends(s, s.lastMeteredAt - s.startedAt, boundary - s.lastMeteredAt);
    }
  }

  /** The new row, ticked at any times and closed at most 120 s after the last, books the rest. */
  lemma {:induction false} StartedRowBooks(
      s: Session, boundary: Time, now: Time, times: seq<Time>, run: Ticking, close: Time)
    requires 0.0 <= s.request.vcpu && 0.0 <= s.request.memoryGib
    requires run.From(StartAtBoundary(s, boundary, now), times)
    requires 0 <= close - LatestOf(boundary, times) <= MAX_CLOSE_DELTA
    ensures var r := Close(run.states[|times|], Some(s.request), close);
      r.Closed? && r.session.request == s.request && r.session.AccountsFor(close - boundary)
  {
    var started := StartAtBoundary(s, boundary, now);
    FreshSessionIsAccounted(started);
    TicksTelescope(started, times, run, |times|);
    assert times[..|times|] == times;
    CloseWithinWallTime(run.states[|times|], close);
    CloseExtends(run.states[|times|], close);
  }

  /** Two rows together book the first one's request over exactly `span`. */
  ghost predicate VcpuAddsUp(a: Session, b: Session, span: Time) {
    a.vcpuHours + b.vcpuHours == a.request.vcpu * Hours(span)
  }

  ghost predicate MemoryAddsUp(a: Session, b: Session, span: Time) {
    a.memoryGibHours + b.memoryGibHours == a.request.memoryGib * Hours(span)
  }

  /** Two rows that meet at the boundary book the whole span, plus the overlap once more. */
  lemma AdjacentRowsBook(ended: Session, rest: Session, last: Time, boundary: Time, close: Time)
    requires rest.request == ended.request
    requires ended.AccountsFor(Max(boundary, last) - ended.startedAt) && rest.AccountsFor(close - boundary)
    ensures VcpuAddsUp(ended, rest, close - ended.startedAt) <==> last <= boundary || ended.request.vcpu == 0.0
    ensures MemoryAddsUp(ended, rest, close - ended.startedAt) <==> last <= boundary || ended.request.memoryGib == 0.0
  {
    var booked := Max(boundary, last) - ended.startedAt;
    RolloverArithmetic(ended.request.vcpu, ended.startedAt, boundary, booked, close);
    RolloverArithmetic(ended.request.memoryGib, ended.startedAt, boundary, booked, close);
  }

  /**
   Splitting at the boundary, then ticking and closing in time: the rows meet at the boundary, and the hours of the
   pair are exactly the request over the whole span if and only if the session had not been metered past the
   boundary (or asks for nothing).
   */
  lemma {:induction false} RolloverIsLossless(
      s: Session, boundary: Time, now: Time, times: seq<Time>, run: Ticking, close: Time)
    requires s.Accounted() && 0.0 <= s.request.vcpu && 0.0 <= s.request.memoryGib
    requires run.From(StartAtBoundary(s, boundary, now), times)
    requires 0 <= close - LatestOf(boundary, times) <= MAX_CLOSE_DELTA
    ensures
      var ended := EndAtBoundary(s, boundary, now);
      var r := Close(run.states[|times|], Some(s.request), close);
      && ended.endedAt == Some(run.states[0].startedAt) && run.states[0].endedAt.None? && r.Closed?
      && ended.request == s.request && ended.startedAt == s.startedAt
      && (VcpuAddsUp(ended, r.session, close - s.startedAt) <==> s.lastMeteredAt <= boundary || s.request.vcpu == 0.0)
      && (MemoryAddsUp(ended, r.session, close - s.startedAt) <==>
            s.lastMeteredAt <= boundary || s.request.memoryGib == 0.0)
  {
    EndedRowBooks(s, boundary, now);
    StartedRowBooks(s, boundary, now, times, run, close);
    var ended := EndAtBoundary(s, boundary, now);
    var r := Close(run.states[|times|], Some(s.request), close);
    AdjacentRowsBook(ended, r.session, s.lastMeteredAt, boundary, close);
  }

  /** Hours booked twice when the old row already reaches past the boundary. */
  lemma RolloverArithmetic(rate: real, start: Time, boundary: Time, booked: Time, close: Time)
    requires boundary - start <= booked
    ensures (rate * Hours(booked) + rate * Hours(close - boundary) == rate * Hours(close - start)) <==>
      (booked == boundary - start || rate == 0.0)
  {
    var overlap := booked - (boundary - start);
    RateOverSpans(rate, booked, close - boundary);
    RateOverSpans(rate, close - start, overlap);
    assert booked + (close - boundary) == close - start + overlap;
    if overlap > 0 && rate != 0.0 {
      assert Hours(overlap) > 0.0;
      assert rate * Hours(overlap) / Hours(overlap) == rate;
    }
  }

  /** The ended row books the slice before the boundary on top of what it had. */
  lemma EndBooksSlice(s: Session, boundary: Time, now: Time)
    ensures EndAtBoundary(s, boundary, now).CuHours()
      == s.CuHours() + CuRate(s.request) * Hours(Max(0, boundary - s.lastMeteredAt))
  {
    if s.lastMeteredAt < boundary {
      AccrueBooksCharge(s, boundary - s.lastMeteredAt);
    } else {
      assert Hours(0) == 0.0;
    }
  }

  /** From a fresh row to its close, whatever the gaps, charges and booked hours are the same. */
  lemma {:induction false} FreshRowChargesItsHours(s: Session, times: seq<Time>, run: Ticking, close: Time)
    requires JustOpened(s) && run.From(s, times)
    ensures var r := Close(run.states[|times|], Some(s.request), close);
      r.Closed? && r.session.CuHours() == run.charged[|times|] + r.charge
  {
    TickedSession(s, times, run);
    CloseExtends(run.states[|times|], close);
  }

  /**
   The slice before the boundary is booked and never charged. With everything charged so far, the pair of rows has
   been charged less than it books by exactly that slice, after any ticks and any close; so charges equal booked
   hours if and only if the session had already been metered up to the boundary (or costs nothing).
   */
  lemma {:induction false} RolloverSliceIsNotCharged(
      s: Session, charged: real, boundary: Time, now: Time, times: seq<Time>, run: Ticking, close: Time)
    requires charged == s.CuHours() && 0.0 <= s.request.vcpu && 0.0 <= s.request.memoryGib
    requires run.From(StartAtBoundary(s, boundary, now), times)
    ensures
      var r := Close(run.states[|times|], Some(s.request), close);
      var booked := EndAtBoundary(s, boundary, now).CuHours() + r.session.CuHours();
      var paid := charged + run.charged[|times|] + r.charge;
      && r.Closed?
      && booked == paid + CuRate(s.request) * Hours(Max(0, boundary - s.lastMeteredAt))
      && (booked == paid <==> boundary <= s.lastMeteredAt || CuRate(s.request) == 0.0)
  {
    EndBooksSlice(s, boundary, now);
    FreshRowChargesItsHours(StartAtBoundary(s, boundary, now), times, run, close);
    var slice := Max(0, boundary - s.lastMeteredAt);
    NoCostIff(CuRate(s.request), slice);
  }

  lemma NoCostIff(rate: real, span: Time)
    requires 0 <= span
    ensures rate * Hours(span) == 0.0 <==> span == 0 || rate == 0.0
  {
    if span > 0 && rate != 0.0 {
      assert Hours(span) > 0.0;
      assert rate * Hours(span) / Hours(span) == rate;
    } else {
      assert Hours(0) == 0.0;
    }
  }
}
