/**
 Several leaders metering one compute session at once. A tick reads the row in one step and writes it in a later
 one, guarded only by the gmt_updated it read; closes lock the row and are atomic.
 */
module OverlappingLeaders {
  import opened Common
  import opened ComputeSessions

  /** A tick that has read the row: its clock reading and the row it saw. */
  datatype Reading = Reading(now: Time, seen: Session)

  datatype State = State(
    row: Session,
    readings: map<nat, Reading>,
    /** every gmt_updated the row has had */
    stamps: set<Time>,
    /** credits charged for the row */
    charged: real,
    /** the row as it was when it was closed */
    final: Option<Session>)

  datatype Step =
    | Read(tick: nat, now: Time)
    | Write(tick: nat)
    | CloseRow(now: Time)

  /** The guarded UPDATE: increments are relative to the row, the span comes from what the tick had read. */
  function TickWrite(row: Session, r: Reading): Session {
    Accrue(row, r.now - r.seen.lastMeteredAt).(lastMeteredAt := r.now, gmtUpdated := r.now)
  }

  predicate WriteApplies(s: State, tick: nat) {
    && tick in s.readings
    && s.readings[tick].seen.gmtUpdated == s.row.gmtUpdated
  }

  function Apply(s: State, step: Step): State {
    match step
    case Read(tick, now) =>
      if s.row.endedAt.None? && s.row.lastMeteredAt < now
      then s.(readings := s.readings[tick := Reading(now, s.row)])
      else s.(readings := s.readings - {tick})
    case Write(tick) =>
      var done := s.(readings := s.readings - {tick});
      if !WriteApplies(s, tick) then done
      else
        var r := s.readings[tick];
        done.(row := TickWrite(s.row, r),
              stamps := s.stamps + {r.now},
              charged := s.charged + CuRate(r.seen.request) * Hours(r.now - r.seen.lastMeteredAt))
    case CloseRow(now) =>
      if s.row.endedAt.Some? then s
      else
        var r := Close(s.row, Some(s.row.request), now);
        s.(row := r.session, stamps := s.stamps + {now},
           charged := s.charged + (if r.Closed? then r.charge else 0.0), final := Some(r.session))
  }

  /** The stamp a step would write, if it writes. */
  function StampOf(s: State, step: Step): Option<Time> {
    match step
    case Read(_, _) => None
    case Write(tick) => if WriteApplies(s, tick) then Some(s.readings[tick].now) else None
    case CloseRow(now) => if s.row.endedAt.None? then Some(now) else None
  }

  /** Each write stamps a gmt_updated the row never had before. */
  predicate Fresh(s: State, step: Step) {
    StampOf(s, step).Some? ==> StampOf(s, step).value !in s.stamps
  }

  function Init(row: Session): State { State(row, map[], {row.gmtUpdated}, 0.0, None) }

  ghost predicate IsRun(states: seq<State>, steps: seq<Step>) {
    && |states| == |steps| + 1
    && states[0] == Init(states[0].row) && JustOpened(states[0].row)
    && forall i :: 0 <= i < |steps| ==> states[i + 1] == Apply(states[i], steps[i])
  }

  ghost predicate AllFresh(states: seq<State>, steps: seq<Step>) {
    |states| == |steps| + 1 && forall i :: 0 <= i < |steps| ==> Fresh(states[i], steps[i])
  }

  ghost predicate ReadingInv(s: State, tick: nat)
    requires tick in s.readings
  {
    var r := s.readings[tick];
    && r.seen.endedAt.None? && r.seen.lastMeteredAt < r.now
    && r.seen.gmtUpdated in s.stamps
    && (r.seen.gmtUpdated == s.row.gmtUpdated ==> r.seen == s.row)
  }

  ghost predicate Inv(s: State) {
    && s.row.gmtUpdated in s.stamps
    && 0.0 <= s.row.request.vcpu && 0.0 <= s.row.request.memoryGib
    && s.charged == s.row.CuHours()
    && (s.row.endedAt.None? ==> s.row.Accounted() && s.final.None?)
    && (s.row.endedAt.Some? ==> s.final == Some(s.row))
    && (forall tick :: tick in s.readings ==> ReadingInv(s, tick))
  }

  lemma WriteKeepsInv(s: State, tick: nat)
    requires Inv(s) && Fresh(s, Write(tick))
    ensures Inv(Apply(s, Write(tick)))
  {
    if WriteApplies(s, tick) {
      var r := s.readings[tick];
      assert ReadingInv(s, tick);
      assert TickWrite(s.row, r) == Tick(s.row, r.now);
      TickExtends(s.row, r.now);
    }
    var s' := Apply(s, Write(tick));
    forall other | other in s'.readings
      ensures ReadingInv(s', other)
    {
      assert ReadingInv(s, other);
    }
  }

  lemma CloseKeepsInv(s: State, now: Time)
    requires Inv(s) && Fresh(s, CloseRow(now))
    ensures Inv(Apply(s, CloseRow(now)))
  {
    if s.row.endedAt.None? {
      CloseExtends(s.row, now);
    }
    var s' := Apply(s, CloseRow(now));
    forall other | other in s'.readings
      ensures ReadingInv(s', other)
    {
      assert ReadingInv(s, other);
    }
  }

  lemma ReadKeepsInv(s: State, tick: nat, now: Time)
    requires Inv(s)
    ensures Inv(Apply(s, Read(tick, now)))
  {
    var s' := Apply(s, Read(tick, now));
    forall other | other in s'.readings
      ensures ReadingInv(s', other)
    {
      assert other != tick ==> ReadingInv(s, other);
    }
  }

  lemma {:induction false} RunKeepsInv(states: seq<State>, steps: seq<Step>, i: nat)
    requires IsRun(states, steps) && AllFresh(states, steps) && i < |states|
    ensures Inv(states[i])
  {
    if i == 0 {
      FreshSessionIsAccounted(states[0].row);
    } else {
      RunKeepsInv(states, steps, i - 1);
      var s := states[i - 1];
      match steps[i - 1]
      case Read(tick, now) => ReadKeepsInv(s, tick, now);
      case Write(tick) => WriteKeepsInv(s, tick);
      case CloseRow(now) => CloseKeepsInv(s, now);
    }
  }

  /**
   However ticks and closes interleave, an open session has booked exactly the request from its start to its
   last metering (no slice twice, none missing) and been charged exactly that.
   */
  lemma NoSliceIsMeteredTwice(states: seq<State>, steps: seq<Step>, i: nat)
    requires IsRun(states, steps) && AllFresh(states, steps) && i < |states|
    ensures states[i].row.endedAt.None? ==> states[i].row.Accounted()
    ensures states[i].charged == states[i].row.CuHours()
  {
    RunKeepsInv(states, steps, i);
  }

  /** Once closed, a session never changes again, whatever stale ticks still arrive. */
  lemma {:induction false} ClosedSessionIsFrozen(states: seq<State>, steps: seq<Step>, i: nat, j: nat)
    requires IsRun(states, steps) && AllFresh(states, steps) && i <= j < |states|
    requires states[i].row.endedAt.Some?
    ensures states[j].row == states[i].row && states[j].charged == states[i].charged
    decreases j - i
  {
    if i == j {
    } else {
      ClosedSessionIsFrozen(states, steps, i, j - 1);
      RunKeepsInv(states, steps, j - 1);
      var s := states[j - 1];
      if steps[j - 1].Write? && steps[j - 1].tick in s.readings {
        assert ReadingInv(s, steps[j - 1].tick);
      }
    }
  }

  // ---------------------------------------------------------------- undisturbed steps take effect

  /** An undisturbed tick of an open row meters and charges it up to the tick's clock. */
  lemma UndisturbedTickMeters(s: State, tick: nat, now: Time)
    requires s.row.endedAt.None? && s.row.lastMeteredAt < now
    ensures
      var after := Apply(Apply(s, Read(tick, now)), Write(tick));
      && after.row == Tick(s.row, now) && after.row.lastMeteredAt == now && after.row.gmtUpdated == now
      && after.charged == s.charged + TickCharge(s.row, s.row.request, now)
  {
  }

  // ---------------------------------------------------------------- when stamps repeat

  /** A guarded tick write keeps the books exactly when the tick had read the row's current last metering. */
  lemma TickWriteIsExact(row: Session, r: Reading)
    requires row.Accounted() && 0.0 < row.request.vcpu && row.startedAt <= r.now
    ensures TickWrite(row, r).Accounted() <==> r.seen.lastMeteredAt == row.lastMeteredAt
  {
    var span := r.now - r.seen.lastMeteredAt;
    AccrueExtends(row, row.lastMeteredAt - row.startedAt, span);
    var wanted := r.now - row.startedAt;
    var got := row.lastMeteredAt - row.startedAt + span;
    if got != wanted {
      RateOverSpans(row.request.vcpu, wanted, got - wanted);
      assert Hours(got - wanted) != 0.0;
      assert row.request.vcpu * Hours(got - wanted) != 0.0;
    }
  }

  /**
   Without fresh stamps a slice is metered twice: the row was inserted at 0 and stamped at 5, one tick's clock
   also reads 5, so its write leaves the stamp as it was and a second tick that had read the old row still passes
   the guard.
   */
  lemma RepeatedStampMetersTwice(row: Session)
    requires JustOpened(row) && row.startedAt == 0 && row.gmtUpdated == 5 && row.request == Spec(1.0, 4.0)
    ensures
      var s0 := Init(row);
      var s1 := Apply(s0, Read(1, 5));
      var s2 := Apply(s1, Read(2, 9));
      var s3 := Apply(s2, Write(1));
      var s4 := Apply(s3, Write(2));
      && s4.row.endedAt.None? && s4.row.lastMeteredAt == 9
      && s4.row.vcpuHours == Hours(14) && !s4.row.Accounted()
  {
    assert Hours(5) + Hours(9) == Hours(14);
    assert Hours(14) != Hours(9);
  }
}
