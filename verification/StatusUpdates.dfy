/**
 Watch handlers and reconcile passes writing row statuses at the same time. Each reads a row in one step and
 writes in a later one, under the version it read; anything may happen in between.
 */
module StatusUpdates {
  import opened Common
  import opened SandboxSync

  /** Why a handler looks at a row. */
  datatype Cause =
    | WatchUpsert(cr: Cr)
    | WatchDeleted(resourceVersion: Option<string>)
    | ReconcileWithCr(cr: Cr)
    | ReconcileMissing

  /** ADDED, MODIFIED and reconcile-with-CR: the causes that check the state machine. */
  predicate FromCr(cause: Cause) { cause.WatchUpsert? || cause.ReconcileWithCr? }

  /** The status a handler sets out to write after looking at a row, if any. */
  function Intent(row: Row, cause: Cause): Option<Status> {
    match cause
    case WatchUpsert(cr) => UpsertIntent(row, cr)
    case ReconcileWithCr(cr) => if IsStale(cr.resourceVersion, row.resourceVersion) then None else UpsertIntent(row, cr)
    case WatchDeleted(_) =>
      if row.pending == Some(Snapshotting) || row.status == Cold || row.status == Deleting then None else Some(Error)
    case ReconcileMissing => if row.status == Deleted then Some(Error) else None
  }

  function UpsertIntent(row: Row, cr: Cr): Option<Status> {
    var status := DeriveStatus(cr).0;
    if Suppressed(row) || row.status == status || !IsValidTransition(row.status, status) then None else Some(status)
  }

  function Message(cause: Cause): Option<string> {
    match cause
    case WatchUpsert(cr) => Some(DeriveStatus(cr).1)
    case ReconcileWithCr(cr) => Some(DeriveStatus(cr).1)
    case _ => None
  }

  function Revision(cause: Cause): Option<string> {
    match cause
    case WatchUpsert(cr) => cr.resourceVersion
    case ReconcileWithCr(cr) => cr.resourceVersion
    case WatchDeleted(rv) => rv
    case ReconcileMissing => None
  }

  /** A handler that has read a row and is about to write `to` under the version it saw. */
  datatype Pending = Pending(id: string, seen: Row, to: Status, cause: Cause)

  /** An applied write: the version it consumed and the status the row really held. */
  datatype Applied = Applied(id: string, version: int, from: Status, to: Status, cause: Cause)

  datatype State = State(rows: map<string, Row>, pending: map<nat, Pending>, log: seq<Applied>)

  datatype Step =
    | Look(handler: nat, id: string, cause: Cause)
    | Write(handler: nat, now: Time)
    | Annotate(id: string, cr: Cr, now: Time)

  function Apply(s: State, step: Step): State {
    match step
    case Look(h, id, cause) =>
      if id !in s.rows || Intent(s.rows[id], cause).None? then s.(pending := s.pending - {h})
      else s.(pending := s.pending[h := Pending(id, s.rows[id], Intent(s.rows[id], cause).value, cause)])
    case Write(h, now) =>
      if h !in s.pending then s
      else
        var p := s.pending[h];
        var done := s.(pending := s.pending - {h});
        if p.id !in s.rows || s.rows[p.id].version != p.seen.version then done
        else
          var row := s.rows[p.id];
          done.(rows := s.rows[p.id := WriteStatus(row, p.to, Revision(p.cause), Message(p.cause), now)],
                log := s.log + [Applied(p.id, row.version, row.status, p.to, p.cause)])
    case Annotate(id, cr, now) =>
      if id !in s.rows then s
      else s.(rows := s.rows[id := WriteMetadata(Tag(s.rows[id], cr), cr.resourceVersion, now)])
  }

  function Run(rows: map<string, Row>, steps: seq<Step>): State {
    if steps == [] then State(rows, map[], [])
    else Apply(Run(rows, steps[..|steps| - 1]), steps[|steps| - 1])
  }

  /** Replaying the log on the initial rows: the version and status a row must have. */
  function Replay(row: Row, id: string, log: seq<Applied>): (int, Status) {
    if log == [] then (row.version, row.status)
    else
      var last := log[|log| - 1];
      var (version, status) := Replay(row, id, log[..|log| - 1]);
      if last.id == id then (version + 1, last.to) else (version, status)
  }

  ghost predicate EntryInv(rows: map<string, Row>, log: seq<Applied>, i: nat)
    requires i < |log|
  {
    var e := log[i];
    && e.id in rows
    && (e.version, e.from) == Replay(rows[e.id], e.id, log[..i])
    && (FromCr(e.cause) ==> IsValidTransition(e.from, e.to))
  }

  ghost predicate PendingInv(s: State, h: nat)
    requires h in s.pending
  {
    var p := s.pending[h];
    && p.id in s.rows
    && (FromCr(p.cause) ==> IsValidTransition(p.seen.status, p.to))
    && p.seen.version <= s.rows[p.id].version
    && (p.seen.version == s.rows[p.id].version ==> p.seen.status == s.rows[p.id].status)
  }

  ghost predicate Inv(rows: map<string, Row>, s: State) {
    && s.rows.Keys == rows.Keys
    && (forall id :: id in rows ==> (s.rows[id].version, s.rows[id].status) == Replay(rows[id], id, s.log))
    && (forall i :: 0 <= i < |s.log| ==> EntryInv(rows, s.log, i))
    && (forall h :: h in s.pending ==> PendingInv(s, h))
  }

  /** An applied write adds one entry that replays to the row's new version and status. */
  lemma EntryExtendsLog(rows: map<string, Row>, s: State, e: Applied)
    requires Inv(rows, s) && e.id in rows
    requires (e.version, e.from) == (s.rows[e.id].version, s.rows[e.id].status)
    requires FromCr(e.cause) ==> IsValidTransition(e.from, e.to)
    ensures forall i :: 0 <= i <= |s.log| ==> EntryInv(rows, s.log + [e], i)
    ensures forall id :: id in rows ==>
      Replay(rows[id], id, s.log + [e]) ==
      (if id == e.id then (e.version + 1, e.to) else (s.rows[id].version, s.rows[id].status))
  {
    var log := s.log + [e];
    assert log[..|s.log|] == s.log;
    forall i | 0 <= i <= |s.log|
      ensures EntryInv(rows, log, i)
    {
      assert log[..i] == s.log[..i];
      if i < |s.log| {
        assert EntryInv(rows, s.log, i);
      }
    }
  }

  /** A write leaves the other handlers' readings right, or outdates them. */
  lemma WriteKeepsPending(s: State, h: nat, now: Time, g: nat)
    requires h in s.pending && g in s.pending && g != h && PendingInv(s, g)
    ensures g in Apply(s, Write(h, now)).pending && PendingInv(Apply(s, Write(h, now)), g)
  {
  }

  lemma WriteKeepsRows(rows: map<string, Row>, s: State, h: nat, now: Time)
    requires Inv(rows, s) && h in s.pending
    ensures
      var s' := Apply(s, Write(h, now));
      && s'.rows.Keys == rows.Keys
      && (forall id :: id in rows ==> (s'.rows[id].version, s'.rows[id].status) == Replay(rows[id], id, s'.log))
      && (forall i :: 0 <= i < |s'.log| ==> EntryInv(rows, s'.log, i))
  {
    var p := s.pending[h];
    assert PendingInv(s, h);
    if s.rows[p.id].version == p.seen.version {
      EntryExtendsLog(rows, s, Applied(p.id, s.rows[p.id].version, s.rows[p.id].status, p.to, p.cause));
    }
  }

  lemma WriteKeepsInv(rows: map<string, Row>, s: State, h: nat, now: Time)
    requires Inv(rows, s)
    ensures Inv(rows, Apply(s, Write(h, now)))
  {
    if h in s.pending {
      WriteKeepsRows(rows, s, h, now);
      forall g | g in Apply(s, Write(h, now)).pending
        ensures PendingInv(Apply(s, Write(h, now)), g)
      {
        WriteKeepsPending(s, h, now, g);
      }
    }
  }

  lemma StepKeepsInv(rows: map<string, Row>, s: State, step: Step)
    requires Inv(rows, s)
    ensures Inv(rows, Apply(s, step))
  {
    if step.Write? {
      WriteKeepsInv(rows, s, step.handler, step.now);
    } else {
      var s' := Apply(s, step);
      forall g | g in s'.pending
        ensures PendingInv(s', g)
      {
        assert g in s.pending ==> PendingInv(s, g);
      }
    }
  }

  lemma {:induction false} RunKeepsInv(rows: map<string, Row>, steps: seq<Step>)
    ensures Inv(rows, Run(rows, steps))
  {
    if steps == [] {
    } else {
      RunKeepsInv(rows, steps[..|steps| - 1]);
      StepKeepsInv(rows, Run(rows, steps[..|steps| - 1]), steps[|steps| - 1]);
    }
  }

  lemma {:induction false} ReplayVersionGrows(row: Row, id: string, log: seq<Applied>, i: nat)
    requires i <= |log|
    ensures Replay(row, id, log[..i]).0 <= Replay(row, id, log).0
    ensures i < |log| && log[i].id == id ==> Replay(row, id, log[..i]).0 < Replay(row, id, log).0
  {
    if i < |log| {
      var front := log[..|log| - 1];
      if i == |front| {
        assert log[..i] == front;
      } else {
        assert front[..i] == log[..i];
        ReplayVersionGrows(row, id, front, i);
      }
    } else {
      assert log[..i] == log;
    }
  }

  /** Each version of a row is consumed by at most one applied write. */
  lemma {:induction false} VersionsAreConsumedOnce(rows: map<string, Row>, steps: seq<Step>, i: nat, j: nat)
    requires i < j < |Run(rows, steps).log|
    requires Run(rows, steps).log[i].id == Run(rows, steps).log[j].id
    ensures Run(rows, steps).log[i].version < Run(rows, steps).log[j].version
  {
    RunKeepsInv(rows, steps);
    var log := Run(rows, steps).log;
    assert EntryInv(rows, log, i) && EntryInv(rows, log, j);
    assert log[..j][..i] == log[..i] && log[..j][i] == log[i];
    ReplayVersionGrows(rows[log[i].id], log[i].id, log[..j], i);
  }

  /**
   No update is lost and none acts on a stale read: every row holds what replaying the applied writes in order
   gives, and every applied ADDED, MODIFIED or reconcile-with-CR write is a valid transition from the status
   the row truly held at that moment.
   */
  lemma {:induction false} NoLostStatusUpdates(rows: map<string, Row>, steps: seq<Step>)
    ensures var s := Run(rows, steps);
      && s.rows.Keys == rows.Keys
      && (forall id :: id in rows ==> (s.rows[id].version, s.rows[id].status) == Replay(rows[id], id, s.log))
      && forall i :: 0 <= i < |s.log| ==>
           && s.log[i].id in rows
           && s.log[i].from == Replay(rows[s.log[i].id], s.log[i].id, s.log[..i]).1
           && (FromCr(s.log[i].cause) ==>
                 IsValidTransition(s.log[i].from, s.log[i].to))
  {
    RunKeepsInv(rows, steps);
    var s := Run(rows, steps);
    forall i | 0 <= i < |s.log|
      ensures s.log[i].id in rows && s.log[i].from == Replay(rows[s.log[i].id], s.log[i].id, s.log[..i]).1
      ensures FromCr(s.log[i].cause) ==> IsValidTransition(s.log[i].from, s.log[i].to)
    {
      assert EntryInv(rows, s.log, i);
    }
  }

  // ---------------------------------------------------------------- what is written, and when

  /** The status a cause asks for: what its CR says, or an error when the CR has disappeared. */
  function Target(cause: Cause): Status {
    match cause
    case WatchUpsert(cr) => DeriveStatus(cr).0
    case ReconcileWithCr(cr) => DeriveStatus(cr).0
    case WatchDeleted(_) => Error
    case ReconcileMissing => Error
  }

  ghost predicate OnTarget(s: State) {
    && (forall h :: h in s.pending ==> s.pending[h].to == Target(s.pending[h].cause))
    && (forall i :: 0 <= i < |s.log| ==> s.log[i].to == Target(s.log[i].cause))
  }

  lemma StepKeepsOnTarget(s: State, step: Step)
    requires OnTarget(s)
    ensures OnTarget(Apply(s, step))
  {
  }

  /** In every run each applied write sets the status its cause asks for. */
  lemma {:induction false} AppliedWritesFollowTheirCause(rows: map<string, Row>, steps: seq<Step>)
    ensures OnTarget(Run(rows, steps))
  {
    if steps == [] {
    } else {
      AppliedWritesFollowTheirCause(rows, steps[..|steps| - 1]);
      StepKeepsOnTarget(Run(rows, steps[..|steps| - 1]), steps[|steps| - 1]);
    }
  }

  /** A change is due: nothing pending holds it back, the state machine allows it, and the news is not old. */
  predicate ChangeIsDue(row: Row, cause: Cause) {
    match cause
    case WatchUpsert(cr) => row.pending.None? && IsValidTransition(row.status, Target(cause))
    case ReconcileWithCr(cr) =>
      && row.pending.None? && IsValidTransition(row.status, Target(cause))
      && !IsStale(cr.resourceVersion, row.resourceVersion)
    case WatchDeleted(_) => row.pending != Some(Snapshotting) && row.status !in {Cold, Deleting}
    case ReconcileMissing => row.status == Deleted
  }

  lemma NoSelfTransition(status: Status)
    ensures !IsValidTransition(status, status)
  {
  }

  /** An undisturbed handler writes its cause's status if and only if the change is due; otherwise it writes nothing. */
  lemma UndisturbedHandlerWritesIff(s: State, h: nat, id: string, cause: Cause, now: Time)
    requires id in s.rows
    ensures
      var row := s.rows[id];
      var after := Apply(Apply(s, Look(h, id, cause)), Write(h, now));
      if ChangeIsDue(row, cause) then
        && after.rows == s.rows[id := after.rows[id]] && after.rows[id].status == Target(cause)
        && after.rows[id].version == row.version + 1
        && after.log == s.log + [Applied(id, row.version, row.status, Target(cause), cause)]
      else after.rows == s.rows && after.log == s.log
  {
    NoSelfTransition(s.rows[id].status);
  }
}
