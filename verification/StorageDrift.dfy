/** How far the recorded GiB-hours of a storage ledger can drift from the exact value through rounding. */
module StorageDrift {
  import opened Common
  import opened Rounding
  import opened MeteringTables

  /** What can happen to a ledger entry: a bulk tick, or its release. */
  datatype Step = TickAt(now: Time) | ReleaseAt(now: Time)

  function Apply(l: Ledger, step: Step): Ledger {
    match step
    case TickAt(now) => TickLedger(l, now)
    case ReleaseAt(now) => if l.state == Active then ReleaseLedger(l, now) else l
  }

  /** Does the step add a rounded slice? */
  predicate Accrues(l: Ledger, step: Step) { l.state == Active && l.lastMeteredAt < step.now }

  ghost predicate IsRun(states: seq<Ledger>, steps: seq<Step>) {
    && |states| == |steps| + 1
    && states[0].state == Active && states[0].lastMeteredAt == states[0].allocatedAt && states[0].gibHours == 0.0
    && forall i :: 0 <= i < |steps| ==> states[i + 1] == Apply(states[i], steps[i])
  }

  /** A release does not read a clock behind the entry's last metering. */
  ghost predicate ClockNotBack(states: seq<Ledger>, steps: seq<Step>)
    requires |states| == |steps| + 1
  {
    forall i :: 0 <= i < |steps| && steps[i].ReleaseAt? && states[i].state == Active ==>
      states[i].lastMeteredAt <= steps[i].now
  }

  /** The number of rounded slices among the first `i` steps. */
  ghost function Accruals(states: seq<Ledger>, steps: seq<Step>, i: nat): nat
    requires |states| == |steps| + 1 && i <= |steps|
  {
    if i == 0 then 0
    else Accruals(states, steps, i - 1) + (if Accrues(states[i - 1], steps[i - 1]) then 1 else 0)
  }

  function ExactHours(l: Ledger): real { l.sizeGib as real * Hours(l.lastMeteredAt - l.allocatedAt) }

  /** One more rounded slice widens the error by half a unit. */
  lemma SlicesAddErrors(gib: real, exact: real, rounded: real, slice: real, n: nat)
    requires Within(gib, exact, n as real / 20000.0) && Within(rounded, slice, 1.0 / 20000.0)
    ensures Within(gib + rounded, exact + slice, (n + 1) as real / 20000.0)
  {
    assert (n + 1) as real == n as real + 1.0;
  }

  /** One more slice of the exact value. */
  lemma ExactSlice(l: Ledger, now: Time)
    ensures ExactHours(l.(lastMeteredAt := now)) == ExactHours(l) + Slice(l, now)
  {
    RateOverSpans(l.sizeGib as real, l.lastMeteredAt - l.allocatedAt, now - l.lastMeteredAt);
    assert now - l.allocatedAt == (l.lastMeteredAt - l.allocatedAt) + (now - l.lastMeteredAt);
  }

  /** What a step adds to an entry it accrues to is within half a unit of the exact slice. */
  lemma StepAddsRounded(l: Ledger, step: Step)
    requires Accrues(l, step)
    ensures Apply(l, step).gibHours ==
      l.gibHours + if step.TickAt? then RoundHalfAway(Slice(l, step.now)) else RoundHalfEven(Slice(l, step.now))
  {
  }

  /** An entry metered up to `now` with a slice that is within half a unit. */
  lemma AccrualDrift(l: Ledger, after: Ledger, now: Time, n: nat)
    requires Within(l.gibHours, ExactHours(l), n as real / 20000.0)
    requires Within(after.gibHours - l.gibHours, Slice(l, now), 1.0 / 20000.0)
    requires after.lastMeteredAt == now && after.sizeGib == l.sizeGib && after.allocatedAt == l.allocatedAt
    ensures Within(after.gibHours, ExactHours(after), (n + 1) as real / 20000.0)
  {
    var slice := Slice(l, now);
    ExactSlice(l, now);
    SlicesAddErrors(l.gibHours, ExactHours(l), after.gibHours - l.gibHours, slice, n);
    assert ExactHours(after) == ExactHours(l.(lastMeteredAt := now));
  }

  lemma StepDrift(l: Ledger, step: Step, n: nat)
    requires step.ReleaseAt? && l.state == Active ==> l.lastMeteredAt <= step.now
    requires Within(l.gibHours, ExactHours(l), n as real / 20000.0)
    ensures var n' := if Accrues(l, step) then n + 1 else n;
      Within(Apply(l, step).gibHours, ExactHours(Apply(l, step)), n' as real / 20000.0)
  {
    if Accrues(l, step) {
      StepAddsRounded(l, step);
      RoundingError(Slice(l, step.now));
      AccrualDrift(l, Apply(l, step), step.now, n);
    } else {
      assert Apply(l, step).gibHours == l.gibHours;
      assert Apply(l, step).lastMeteredAt == l.lastMeteredAt;
      assert ExactHours(Apply(l, step)) == ExactHours(l);
    }
  }

  /**
   After any ticks and a release on a clock that does not go back, the recorded GiB-hours differ from
   size x (last metered - allocated) / 3600 by at most n / 20000, n the number of rounded slices.
   */
  lemma {:induction false} DriftIsBounded(states: seq<Ledger>, steps: seq<Step>, i: nat)
    requires IsRun(states, steps) && ClockNotBack(states, steps) && i <= |steps|
    ensures Within(states[i].gibHours, ExactHours(states[i]), Accruals(states, steps, i) as real / 20000.0)
  {
    if i == 0 {
      assert Hours(0) == 0.0;
    } else {
      DriftIsBounded(states, steps, i - 1);
      StepDrift(states[i - 1], steps[i - 1], Accruals(states, steps, i - 1));
    }
  }

  // ---------------------------------------------------------------- the bound is sharp

  const HALF_UNIT: Time := 180000

  /** `n` ticks of an entry, 0.18 s apart. */
  function HalfUnitTicks(l: Ledger, n: nat): (steps: seq<Step>)
    ensures |steps| == n
  {
    seq(n, i requires 0 <= i < n => TickAt(l.allocatedAt + (i + 1) * HALF_UNIT))
  }

  /** The entry before, between and after those ticks. */
  function HalfUnitStates(l: Ledger, n: nat): (states: seq<Ledger>)
    ensures |states| == n + 1 && states[0] == l
  {
    if n == 0 then [l]
    else
      var states := HalfUnitStates(l, n - 1);
      states + [TickLedger(states[n - 1], l.allocatedAt + n * HALF_UNIT)]
  }

  lemma {:induction false} HalfUnitStatesAreARun(l: Ledger, n: nat)
    requires l.state == Active && l.lastMeteredAt == l.allocatedAt && l.gibHours == 0.0
    ensures IsRun(HalfUnitStates(l, n), HalfUnitTicks(l, n))
  {
    if n == 0 {
    } else {
      HalfUnitStatesAreARun(l, n - 1);
      var states, steps := HalfUnitStates(l, n), HalfUnitTicks(l, n);
      forall i | 0 <= i < n
        ensures states[i + 1] == Apply(states[i], steps[i])
      {
        if i < n - 1 {
          assert HalfUnitTicks(l, n - 1)[i] == steps[i];
        }
      }
    }
  }

  /** After each such tick of a 1 GiB disk the record is ahead by one more half unit. */
  lemma {:induction false} HalfUnitRunDrifts(l: Ledger, n: nat, i: nat)
    requires l.state == Active && l.lastMeteredAt == l.allocatedAt && l.gibHours == 0.0 && l.sizeGib == 1
    requires i <= n && IsRun(HalfUnitStates(l, n), HalfUnitTicks(l, n))
    ensures
      var at := HalfUnitStates(l, n)[i];
      && at.state == Active && at.sizeGib == 1 && at.allocatedAt == l.allocatedAt
      && at.lastMeteredAt == l.allocatedAt + i * HALF_UNIT
      && Accruals(HalfUnitStates(l, n), HalfUnitTicks(l, n), i) == i
      && at.gibHours - ExactHours(at) == i as real / 20000.0
  {
    if i == 0 {
      assert Hours(0) == 0.0;
    } else {
      HalfUnitRunDrifts(l, n, i - 1);
      var was := HalfUnitStates(l, n)[i - 1];
      assert HalfUnitTicks(l, n)[i - 1] == TickAt(was.lastMeteredAt + HALF_UNIT);
      HalfUnitTick(was);
      assert i as real == (i - 1) as real + 1.0;
    }
  }

  /** For every `n` some run of `n` rounded slices is off by exactly n / 20000. */
  lemma {:induction false} DriftReachesBound(n: nat)
    ensures exists states: seq<Ledger>, steps: seq<Step> ::
      && IsRun(states, steps) && ClockNotBack(states, steps) && |steps| == n
      && Accruals(states, steps, n) == n
      && states[n].gibHours - ExactHours(states[n]) == n as real / 20000.0
  {
    var l := Ledger(None, "user", 1, Active, "live_disk", 0, None, 0, 0.0);
    var states, steps := HalfUnitStates(l, n), HalfUnitTicks(l, n);
    HalfUnitStatesAreARun(l, n);
    HalfUnitRunDrifts(l, n, n);
    assert ClockNotBack(states, steps);
  }

  lemma HalfUnitTick(l: Ledger)
    requires l.state == Active && l.sizeGib == 1
    ensures var t := TickLedger(l, l.lastMeteredAt + HALF_UNIT);
      && t.gibHours - ExactHours(t) == l.gibHours - ExactHours(l) + 1.0 / 20000.0
  {
    var slice := Hours(180000);
    assert slice == 0.00005;
    assert slice * 10000.0 + 0.5 == 1.0;
    assert RoundHalfAway(slice) == 0.0001;
    ExactSlice(l, l.lastMeteredAt + HALF_UNIT);
  }
}
