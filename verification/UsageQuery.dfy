/** Usage of a billing period: the plain per-session sum, and the split query that lets SQL add up most rows. */
module UsageQuery {
  import opened Common
  import opened ComputeSessions

  // ---------------------------------------------------------------- SQL's three-valued logic

  datatype Tri = Yes | No | Unknown

  function And(a: Tri, b: Tri): Tri {
    if a == No || b == No then No else if a == Yes && b == Yes then Yes else Unknown
  }

  function Or(a: Tri, b: Tri): Tri {
    if a == Yes || b == Yes then Yes else if a == No && b == No then No else Unknown
  }

  function Not(a: Tri): Tri {
    match a case Yes => No case No => Yes case Unknown => Unknown
  }

  function Lit(b: bool): Tri { if b then Yes else No }

  function IsNull(t: Option<Time>): Tri { Lit(t.None?) }

  /** `a <= b` and `a > b`, NULL when the column is. */
  function AtMost(a: Option<Time>, b: Time): Tri { if a.None? then Unknown else Lit(a.value <= b) }

  function After(a: Option<Time>, b: Time): Tri { if a.None? then Unknown else Lit(a.value > b) }

  datatype Period = Period(start: Time, end: Time)

  function Overlapping(s: Session, user: string, p: Period): Tri {
    And(And(Lit(s.userId == user), Lit(s.startedAt < p.end)),
        Or(IsNull(s.endedAt), After(s.endedAt, p.start)))
  }

  function FullyContained(s: Session, p: Period, now: Time): Tri {
    And(Lit(s.startedAt >= p.start),
        Or(AtMost(s.endedAt, p.end), And(IsNull(s.endedAt), Lit(now <= p.end))))
  }

  /** Rows of the two queries. A WHERE clause keeps a row only when it evaluates to true. */
  predicate Plain(s: Session, user: string, p: Period) { Overlapping(s, user, p) == Yes }

  predicate Aggregated(s: Session, user: string, p: Period, now: Time) {
    And(Overlapping(s, user, p), FullyContained(s, p, now)) == Yes
  }

  predicate Remaining(s: Session, user: string, p: Period, now: Time) {
    And(Overlapping(s, user, p), Not(FullyContained(s, p, now))) == Yes
  }

  /** The rows neither query of the split form returns: open, begun in the period, and the period is over. */
  predicate Missed(s: Session, user: string, p: Period, now: Time) {
    Plain(s, user, p) && s.endedAt.None? && p.start <= s.startedAt && p.end < now
  }

  /** The two filters never both hold, and together they give the overlapping rows except the missed ones. */
  lemma FiltersPartition(s: Session, user: string, p: Period, now: Time)
    ensures !(Aggregated(s, user, p, now) && Remaining(s, user, p, now))
    ensures Aggregated(s, user, p, now) || Remaining(s, user, p, now) <==>
      Plain(s, user, p) && !Missed(s, user, p, now)
  {
  }

  // ---------------------------------------------------------------- overlap ratio

  function EndOf(s: Session, now: Time): Time { if s.endedAt.Some? then s.endedAt.value else now }

  function OverlapRatio(s: Session, p: Period, now: Time): real {
    var effectiveEnd := Min(Min(EndOf(s, now), now), p.end);
    if effectiveEnd <= s.startedAt then 0.0
    else
      var overlapStart := Max(s.startedAt, p.start);
      var overlapEnd := Min(effectiveEnd, p.end);
      if overlapEnd <= overlapStart then 0.0
      else (overlapEnd - overlapStart) as real / (effectiveEnd - s.startedAt) as real
  }

  lemma RatioIsAFraction(s: Session, p: Period, now: Time)
    ensures 0.0 <= OverlapRatio(s, p, now) <= 1.0
  {
    var effectiveEnd := Min(Min(EndOf(s, now), now), p.end);
    var part := Min(effectiveEnd, p.end) - Max(s.startedAt, p.start);
    var whole := effectiveEnd - s.startedAt;
    if whole > 0 && part > 0 {
      FractionBounds(part as real, whole as real);
    }
  }

  lemma FractionBounds(a: real, b: real)
    requires 0.0 <= a <= b && 0.0 < b
    ensures 0.0 <= a / b <= 1.0
  {
  }

  /** A row whose books fit its life so far: no time, no hours. */
  ghost predicate WellFormed(s: Session, now: Time) {
    var end := EndOf(s, now);
    && s.startedAt <= end <= now
    && (s.startedAt == end ==> s.vcpuHours == s.memoryGibHours == 0.0)
  }

  /** The row books a span within its life, as SessionAccounting shows of every metered session. */
  ghost predicate Fits(s: Session, booked: Time, now: Time) {
    var end := EndOf(s, now);
    s.AccountsFor(booked) && 0 <= booked <= end - s.startedAt && end <= now
  }

  lemma FittingIsWellFormed(s: Session, booked: Time, now: Time)
    requires Fits(s, booked, now)
    ensures WellFormed(s, now)
  {
    assert Hours(0) == 0.0;
  }

  /** What SQL adds up in full is worth its full hours: the ratio is 1, or there are no hours. */
  lemma AggregatedRowsCountInFull(s: Session, user: string, p: Period, now: Time)
    requires Aggregated(s, user, p, now) && WellFormed(s, now)
    ensures OverlapRatio(s, p, now) == 1.0 || (s.vcpuHours == s.memoryGibHours == 0.0)
    ensures CuShare(s, p, now) == s.CuHours()
  {
    var end := EndOf(s, now);
    if s.startedAt < end {
      assert Min(Min(end, now), p.end) == end && Max(s.startedAt, p.start) == s.startedAt;
      WholeFraction((end - s.startedAt) as real);
      assert OverlapRatio(s, p, now) == 1.0;
    }
  }

  lemma WholeFraction(a: real)
    requires 0.0 < a
    ensures a / a == 1.0
  {
  }

  // ---------------------------------------------------------------- the two computations

  /** A row's raw hours, weighted by how much of it lies in the period. */
  function Share(s: Session, p: Period, now: Time): (real, real) {
    var ratio := OverlapRatio(s, p, now);
    (s.vcpuHours * ratio, s.memoryGibHours * ratio)
  }

  /** A row's compute-unit hours, weighted the same way. */
  function CuShare(s: Session, p: Period, now: Time): real { s.CuHours() * OverlapRatio(s, p, now) }

  /** Sum over the overlapping rows of hours times ratio. */
  function PlainUsage(rows: seq<Session>, user: string, p: Period, now: Time): (real, real) {
    if rows == [] then (0.0, 0.0)
    else
      var last := rows[|rows| - 1];
      var (v, m) := PlainUsage(rows[..|rows| - 1], user, p, now);
      if Plain(last, user, p) then (v + Share(last, p, now).0, m + Share(last, p, now).1) else (v, m)
  }

  lemma {:induction false} PlainUsageStep(rows: seq<Session>, user: string, p: Period, now: Time, i: nat)
    requires i < |rows|
    ensures
      var (v, m) := PlainUsage(rows[..i], user, p, now);
      PlainUsage(rows[..i + 1], user, p, now) ==
      if Plain(rows[i], user, p) then (v + Share(rows[i], p, now).0, m + Share(rows[i], p, now).1) else (v, m)
  {
    assert rows[..i + 1][..i] == rows[..i];
  }

  method GetComputeUsageForPeriod(rows: seq<Session>, user: string, p: Period, now: Time) returns (v: real, m: real)
    ensures (v, m) == PlainUsage(rows, user, p, now)
  {
    v, m := 0.0, 0.0;
    var i := 0;
    while i < |rows|
      invariant 0 <= i <= |rows| && (v, m) == PlainUsage(rows[..i], user, p, now)
    {
      PlainUsageStep(rows, user, p, now, i);
      if Overlapping(rows[i], user, p) == Yes {
        var (vcpu, memory) := Share(rows[i], p, now);
        v, m := v + vcpu, m + memory;
      }
      i := i + 1;
    }
    assert rows[..i] == rows;
  }

  /** coalesce(sum(column), 0) over the aggregated rows. */
  function AggregateSums(rows: seq<Session>, user: string, p: Period, now: Time): (real, real) {
    if rows == [] then (0.0, 0.0)
    else
      var last := rows[|rows| - 1];
      var (v, m) := AggregateSums(rows[..|rows| - 1], user, p, now);
      if Aggregated(last, user, p, now) then (v + last.vcpuHours, m + last.memoryGibHours) else (v, m)
  }

  function RemainingSum(rows: seq<Session>, user: string, p: Period, now: Time): real {
    if rows == [] then 0.0
    else
      var last := rows[|rows| - 1];
      RemainingSum(rows[..|rows| - 1], user, p, now)
        + (if Remaining(last, user, p, now) then CuShare(last, p, now) else 0.0)
  }

  function SplitUsage(rows: seq<Session>, user: string, p: Period, now: Time): real {
    var (v, m) := AggregateSums(rows, user, p, now);
    CU_VCPU_WEIGHT * v + CU_MEMORY_WEIGHT * m + RemainingSum(rows, user, p, now)
  }

  method GetComputeUnitHoursForPeriod(rows: seq<Session>, user: string, p: Period, now: Time) returns (total: real)
    ensures total == SplitUsage(rows, user, p, now)
  {
    var (fullVcpu, fullMemory) := AggregateSums(rows, user, p, now);
    total := CU_VCPU_WEIGHT * fullVcpu + CU_MEMORY_WEIGHT * fullMemory;
    ghost var aggregate := total;
    var i := 0;
    while i < |rows|
      invariant 0 <= i <= |rows| && total == aggregate + RemainingSum(rows[..i], user, p, now)
    {
      assert rows[..i + 1][..i] == rows[..i];
      if And(Overlapping(rows[i], user, p), Not(FullyContained(rows[i], p, now))) == Yes {
        total := total + CuShare(rows[i], p, now);
      }
      i := i + 1;
    }
    assert rows[..i] == rows;
  }

  // ---------------------------------------------------------------- refinement

  function MissedSum(rows: seq<Session>, user: string, p: Period, now: Time): real {
    if rows == [] then 0.0
    else
      var last := rows[|rows| - 1];
      MissedSum(rows[..|rows| - 1], user, p, now)
        + (if Missed(last, user, p, now) then CuShare(last, p, now) else 0.0)
  }

  lemma WeightsDistribute(s: Session, p: Period, now: Time)
    ensures CU_VCPU_WEIGHT * Share(s, p, now).0 + CU_MEMORY_WEIGHT * Share(s, p, now).1 == CuShare(s, p, now)
  {
  }

  /** What the aggregate counts beyond the rows' shares, by taking them in full. */
  function OvercountSum(rows: seq<Session>, user: string, p: Period, now: Time): real {
    if rows == [] then 0.0
    else
      var last := rows[|rows| - 1];
      OvercountSum(rows[..|rows| - 1], user, p, now)
        + (if Aggregated(last, user, p, now) then last.CuHours() - CuShare(last, p, now) else 0.0)
  }

  /**
   For every table, period and moment, without any condition on the rows: the split query is the weighted plain sum,
   less what the missed rows contribute to it, plus what the aggregated rows are overcounted.
   */
  lemma {:induction false} SplitAgainstPlain(rows: seq<Session>, user: string, p: Period, now: Time)
    ensures var (v, m) := PlainUsage(rows, user, p, now);
      SplitUsage(rows, user, p, now) ==
      CU_VCPU_WEIGHT * v + CU_MEMORY_WEIGHT * m - MissedSum(rows, user, p, now) + OvercountSum(rows, user, p, now)
  {
    if rows == [] {
    } else {
      var last := rows[|rows| - 1];
      SplitAgainstPlain(rows[..|rows| - 1], user, p, now);
      FiltersPartition(last, user, p, now);
      WeightsDistribute(last, p, now);
    }
  }

  /** Nothing is overcounted when the rows SQL adds up in full fit their lives. */
  lemma {:induction false} NothingOvercounted(rows: seq<Session>, user: string, p: Period, now: Time)
    requires forall i :: 0 <= i < |rows| && Aggregated(rows[i], user, p, now) ==> WellFormed(rows[i], now)
    ensures OvercountSum(rows, user, p, now) == 0.0
  {
    if rows == [] {
    } else {
      var last := rows[|rows| - 1];
      NothingOvercounted(rows[..|rows| - 1], user, p, now);
      if Aggregated(last, user, p, now) {
        AggregatedRowsCountInFull(last, user, p, now);
      }
    }
  }

  /** With well-formed aggregated rows, the difference is exactly what the missed rows contribute. */
  lemma {:induction false} SplitIsPlainLessMissed(rows: seq<Session>, user: string, p: Period, now: Time)
    requires forall i :: 0 <= i < |rows| && Aggregated(rows[i], user, p, now) ==> WellFormed(rows[i], now)
    ensures var (v, m) := PlainUsage(rows, user, p, now);
      SplitUsage(rows, user, p, now) == CU_VCPU_WEIGHT * v + CU_MEMORY_WEIGHT * m - MissedSum(rows, user, p, now)
  {
    SplitAgainstPlain(rows, user, p, now);
    NothingOvercounted(rows, user, p, now);
  }

  lemma {:induction false} NothingMissedInPeriod(rows: seq<Session>, user: string, p: Period, now: Time)
    requires now <= p.end
    ensures MissedSum(rows, user, p, now) == 0.0
  {
    if rows == [] {
    } else {
      NothingMissedInPeriod(rows[..|rows| - 1], user, p, now);
    }
  }

  /** Up to the end of the period the split query equals 0.5 V + 0.125 M of the plain one. */
  lemma {:induction false} SplitRefinesPlain(rows: seq<Session>, user: string, p: Period, now: Time)
    requires forall i :: 0 <= i < |rows| && Aggregated(rows[i], user, p, now) ==> WellFormed(rows[i], now)
    requires now <= p.end
    ensures var (v, m) := PlainUsage(rows, user, p, now);
      SplitUsage(rows, user, p, now) == CU_VCPU_WEIGHT * v + CU_MEMORY_WEIGHT * m
  {
    SplitIsPlainLessMissed(rows, user, p, now);
    NothingMissedInPeriod(rows, user, p, now);
  }

  /** In particular for sessions whose hours are the request over a span within their life, as metering keeps them. */
  lemma {:induction false} MeteredSessionsRefinePlain(
      rows: seq<Session>, booked: seq<Time>, user: string, p: Period, now: Time)
    requires |booked| == |rows| && now <= p.end
    requires forall i :: 0 <= i < |rows| && Aggregated(rows[i], user, p, now) ==> Fits(rows[i], booked[i], now)
    ensures var (v, m) := PlainUsage(rows, user, p, now);
      SplitUsage(rows, user, p, now) == CU_VCPU_WEIGHT * v + CU_MEMORY_WEIGHT * m
  {
    forall i | 0 <= i < |rows| && Aggregated(rows[i], user, p, now)
      ensures WellFormed(rows[i], now)
    {
      FittingIsWellFormed(rows[i], booked[i], now);
    }
    SplitRefinesPlain(rows, user, p, now);
  }

  // ---------------------------------------------------------------- what a share is worth

  /** The time a session spent inside the period. */
  function Inside(s: Session, p: Period, now: Time): Time {
    Max(0, Min(EndOf(s, now), p.end) - Max(s.startedAt, p.start))
  }

  /** Its life as the ratio sees it: cut at the period's end, though not at its start. */
  function SeenLife(s: Session, p: Period, now: Time): Time { Min(EndOf(s, now), p.end) - s.startedAt }

  /** The request over the time inside. */
  function Worth(s: Session, p: Period, now: Time): (real, real) {
    var hours := Hours(Inside(s, p, now));
    (s.request.vcpu * hours, s.request.memoryGib * hours)
  }

  lemma ProRata(rate: real, booked: Time, inside: Time, life: Time)
    requires 0 < life
    ensures rate * Hours(booked) * (inside as real / life as real) ==
      rate * Hours(inside) * (booked as real / life as real)
  {
    var (b, i, l) := (booked as real, inside as real, life as real);
    assert Hours(booked) * (i / l) == Hours(inside) * (b / l);
  }

  /** A session that booked a span is reported with its worth, scaled by booked over seen life. */
  lemma ShareIsProRata(s: Session, booked: Time, p: Period, now: Time)
    requires s.AccountsFor(booked) && EndOf(s, now) <= now && 0 < SeenLife(s, p, now)
    ensures
      var scale := booked as real / SeenLife(s, p, now) as real;
      && Share(s, p, now).0 == Worth(s, p, now).0 * scale
      && Share(s, p, now).1 == Worth(s, p, now).1 * scale
  {
    var (inside, life) := (Inside(s, p, now), SeenLife(s, p, now));
    ProRata(s.request.vcpu, booked, inside, life);
    ProRata(s.request.memoryGib, booked, inside, life);
    if inside == 0 {
      assert 0 as real / life as real == 0.0;
    }
    assert OverlapRatio(s, p, now) == inside as real / life as real;
  }

  lemma ScaledIsSameIff(x: real, booked: Time, life: Time)
    requires 0 < life
    ensures x * (booked as real / life as real) == x <==> x == 0.0 || booked == life
  {
    var scale := booked as real / life as real;
    assert scale == 1.0 <==> booked == life by {
      assert scale * life as real == booked as real;
    }
    if x != 0.0 && x * scale == x {
      assert x * scale / x == scale;
    }
  }

  /** So it is reported with exactly its worth if and only if it booked its whole seen life (or is worth nothing). */
  lemma ShareIsWorthIff(s: Session, booked: Time, p: Period, now: Time)
    requires s.AccountsFor(booked) && EndOf(s, now) <= now && 0 < SeenLife(s, p, now)
    ensures
      var (share, worth) := (Share(s, p, now), Worth(s, p, now));
      && (share.0 == worth.0 <==> worth.0 == 0.0 || booked == SeenLife(s, p, now))
      && (share.1 == worth.1 <==> worth.1 == 0.0 || booked == SeenLife(s, p, now))
  {
    var (share, worth) := (Share(s, p, now), Worth(s, p, now));
    ShareIsProRata(s, booked, p, now);
    ScaledIsSameIff(worth.0, booked, SeenLife(s, p, now));
    ScaledIsSameIff(worth.1, booked, SeenLife(s, p, now));
  }

  /** A session that booked its whole life and does not reach out of the period's end. */
  ghost predicate BookedWholeLife(s: Session, p: Period, now: Time) {
    && s.startedAt <= EndOf(s, now) <= now
    && (EndOf(s, now) <= p.end || p.end <= s.startedAt)
    && s.AccountsFor(EndOf(s, now) - s.startedAt)
  }

  /** Such a row of the user adds exactly its worth. */
  lemma RowUsage(s: Session, user: string, p: Period, now: Time)
    requires s.userId == user && BookedWholeLife(s, p, now)
    ensures
      var added := if Plain(s, user, p) then Share(s, p, now) else (0.0, 0.0);
      added.0 == Worth(s, p, now).0 && added.1 == Worth(s, p, now).1
  {
    if Plain(s, user, p) && 0 < SeenLife(s, p, now) {
      ShareIsWorthIff(s, EndOf(s, now) - s.startedAt, p, now);
    } else {
      assert Inside(s, p, now) == 0 && Hours(0) == 0.0;
      assert Plain(s, user, p) ==> OverlapRatio(s, p, now) == 0.0;
    }
  }

  /** What a user's sessions are worth in the period; rows of other users do not count. */
  function TimeInside(rows: seq<Session>, user: string, p: Period, now: Time): (real, real) {
    if rows == [] then (0.0, 0.0)
    else
      var last := rows[|rows| - 1];
      var (v, m) := TimeInside(rows[..|rows| - 1], user, p, now);
      if last.userId == user then (v + Worth(last, p, now).0, m + Worth(last, p, now).1) else (v, m)
  }

  /** The plain query reports exactly that, for any table whose rows of this user booked their whole lives. */
  lemma {:induction false} UsageIsTimeInside(rows: seq<Session>, user: string, p: Period, now: Time)
    requires forall i :: 0 <= i < |rows| && rows[i].userId == user ==> BookedWholeLife(rows[i], p, now)
    ensures PlainUsage(rows, user, p, now) == TimeInside(rows, user, p, now)
  {
    if rows == [] {
    } else {
      var last := rows[|rows| - 1];
      UsageIsTimeInside(rows[..|rows| - 1], user, p, now);
      if last.userId == user {
        RowUsage(last, user, p, now);
      } else {
        assert !Plain(last, user, p);
      }
    }
  }

  /** And up to the period's end the split query reports 0.5 and 0.125 of it. */
  lemma {:induction false} SplitUsageIsTimeInside(rows: seq<Session>, user: string, p: Period, now: Time)
    requires now <= p.end
    requires forall i :: 0 <= i < |rows| && rows[i].userId == user ==> BookedWholeLife(rows[i], p, now)
    ensures var (v, m) := TimeInside(rows, user, p, now);
      SplitUsage(rows, user, p, now) == 0.5 * v + 0.125 * m
  {
    UsageIsTimeInside(rows, user, p, now);
    forall i | 0 <= i < |rows| && Aggregated(rows[i], user, p, now)
      ensures WellFormed(rows[i], now)
    {
      assert Hours(0) == 0.0;
    }
    SplitRefinesPlain(rows, user, p, now);
  }

  // ---------------------------------------------------------------- rows the rollover ended

  /** Billing periods lie on one side of a boundary; none straddles it. */
  predicate OnOneSide(p: Period, boundary: Time) { p.end <= boundary || boundary <= p.start }

  /**
   A session opened at or after the boundary, before the reset reached it, is ended not after it started. Its hours
   then belong to no period: neither query ever returns the row.
   */
  lemma LateSessionIsInNoPeriod(s: Session, boundary: Time, now: Time, user: string, p: Period, at: Time)
    requires boundary <= s.startedAt <= s.lastMeteredAt && OnOneSide(p, boundary)
    ensures var ended := EndAtBoundary(s, boundary, now);
      && ended.endedAt.value <= ended.startedAt && ended.CuHours() == s.CuHours()
      && !Plain(ended, user, p) && !Aggregated(ended, user, p, at) && !Remaining(ended, user, p, at)
  {
  }

  /**
   Exactly when a rolled-over row is reported: some period returns it if and only if the session started before the
   boundary, and then the period that ends there does.
   */
  lemma RolledOverRowIsReportedIff(s: Session, boundary: Time, now: Time)
    ensures var ended := EndAtBoundary(s, boundary, now);
      && ((exists p :: OnOneSide(p, boundary) && Plain(ended, s.userId, p)) <==> s.startedAt < boundary)
      && (forall p: Period :: p.start < p.end == boundary ==>
            (Plain(ended, s.userId, p) <==> s.startedAt < boundary))
  {
    var ended := EndAtBoundary(s, boundary, now);
    if s.startedAt < boundary {
      var p := Period(boundary - 1, boundary);
      assert OnOneSide(p, boundary) && Plain(ended, s.userId, p);
    }
  }

  /** And the period it started in reports all of its hours, from the boundary on. */
  lemma RolledOverRowIsReportedInFull(s: Session, boundary: Time, now: Time, p: Period, at: Time)
    requires p.start <= s.startedAt < p.end == boundary <= at
    ensures var ended := EndAtBoundary(s, boundary, now);
      Aggregated(ended, s.userId, p, at) && CuShare(ended, p, at) == ended.CuHours()
  {
    AggregatedRowsCountInFull(EndAtBoundary(s, boundary, now), s.userId, p, at);
  }
}
