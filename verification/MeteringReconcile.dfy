/** The reconcile hooks that bring sessions and storage ledgers back in line with the sandboxes. */
module MeteringReconcile {
  import opened Common
  import opened ComputeSessions
  import opened MeteringTables
  import opened StorageSize
  import SandboxSync

  datatype Sandbox = Sandbox(
    ownerId: string,
    template: string,
    status: SandboxSync.Status,
    persist: bool,
    storageSize: Option<string>,
    backendMode: Option<string>,
    gmtDeleted: Option<Time>)
  {
    predicate OnItsWayOut() { status == SandboxSync.Deleting || status == SandboxSync.Deleted }

    /** A live sandbox whose disk has to be metered. */
    predicate NeedsLedger() { persist && !OnItsWayOut() && storageSize.Some? && gmtDeleted.None? }

    function Mode(): string {
      if backendMode.None? || backendMode.value == "" then "live_disk" else backendMode.value
    }
  }

  type Sandboxes = map<string, Sandbox>

  /** What each sandbox's service call reads from the clock. */
  type Clock = string -> Time

  predicate IsReady(sandboxes: Sandboxes, id: string) {
    id in sandboxes && sandboxes[id].status == SandboxSync.Ready
  }

  predicate IsGone(sandboxes: Sandboxes, id: string) {
    id !in sandboxes || sandboxes[id].OnItsWayOut()
  }

  predicate NeedsLedger(sandboxes: Sandboxes, id: string) {
    id in sandboxes && sandboxes[id].NeedsLedger()
  }

  /** An open session whose sandbox is missing or not READY. */
  predicate StaleSession(sandboxes: Sandboxes, s: Session) {
    s.endedAt.None? && !IsReady(sandboxes, s.sandboxId)
  }

  function CloseOf(cache: Specs, clock: Clock, s: Session): CloseResult {
    Close(s, ResolveSpec(cache, s.template), clock(s.sandboxId))
  }

  /** What the closing loop makes of one row. */
  function Repaired(sandboxes: Sandboxes, cache: Specs, clock: Clock, s: Session): Session {
    if StaleSession(sandboxes, s) then CloseOf(cache, clock, s).session else s
  }

  /** A stale session whose close raises: unknown template, and time to account for. */
  predicate Stuck(sandboxes: Sandboxes, cache: Specs, clock: Clock, s: Session) {
    StaleSession(sandboxes, s) && ResolveSpec(cache, s.template).None? && CloseSpan(s, clock(s.sandboxId)) > 0
  }

  predicate HasStuck(sandboxes: Sandboxes, cache: Specs, clock: Clock, sessions: seq<Session>, id: string) {
    exists i :: 0 <= i < |sessions| && sessions[i].sandboxId == id && Stuck(sandboxes, cache, clock, sessions[i])
  }

  /** What the closing loop charges a user for the rows `sessions`. */
  function RepairCharge(
      sandboxes: Sandboxes, cache: Specs, clock: Clock, sessions: seq<Session>, user: string): real
  {
    if sessions == [] then 0.0
    else
      var last := sessions[|sessions| - 1];
      RepairCharge(sandboxes, cache, clock, sessions[..|sessions| - 1], user)
        + (if last.userId == user then RowCharge(sandboxes, cache, clock, last) else 0.0)
  }

  function RowCharge(sandboxes: Sandboxes, cache: Specs, clock: Clock, s: Session): real {
    if !StaleSession(sandboxes, s) then 0.0
    else
      var r := CloseOf(cache, clock, s);
      if r.Closed? then r.charge else 0.0
  }

  /** Every sandbox has an open session exactly when it is READY. */
  ghost predicate Settled(sandboxes: Sandboxes, sessions: seq<Session>) {
    forall id :: HasOpen(sessions, id) <==> IsReady(sandboxes, id)
  }

  /** The pass meets no error: every template it needs is known. */
  ghost predicate FaultFree(sandboxes: Sandboxes, cache: Specs, clock: Clock, sessions: seq<Session>) {
    forall id ::
      && (IsReady(sandboxes, id) && !HasOpen(sessions, id) ==> ResolveSpec(cache, sandboxes[id].template).Some?)
      && !HasStuck(sandboxes, cache, clock, sessions, id)
  }

  /** A row the opening loop inserted. */
  ghost predicate JustOpenedFor(sandboxes: Sandboxes, cache: Specs, clock: Clock, s: Session) {
    && IsReady(sandboxes, s.sandboxId)
    && var sandbox := sandboxes[s.sandboxId];
    && ResolveSpec(cache, sandbox.template) == Some(s.request)
    && var now := clock(s.sandboxId);
    && s == OpenSession(s.sandboxId, sandbox.ownerId, sandbox.template, s.request, now, now)
  }

  predicate StaleLedger(sandboxes: Sandboxes, l: Ledger) {
    l.state == Active && l.sandboxId.Some? && IsGone(sandboxes, l.sandboxId.value)
  }

  /** What the releasing loop makes of one entry. */
  function Swept(sandboxes: Sandboxes, clock: Clock, l: Ledger): Ledger {
    if StaleLedger(sandboxes, l) then ReleaseLedger(l, clock(l.sandboxId.value)) else l
  }

  /** Every sandbox that needs a ledger has an active one, and no sandbox that is gone has. */
  ghost predicate StorageSettled(sandboxes: Sandboxes, ledgers: seq<Ledger>) {
    forall id ::
      && (NeedsLedger(sandboxes, id) ==> HasActive(ledgers, id))
      && (HasActive(ledgers, id) ==> !IsGone(sandboxes, id))
  }

  function SizeOf(sandbox: Sandbox): Option<int>
    requires sandbox.storageSize.Some?
  {
    ParseStorageSizeGib(sandbox.storageSize.value)
  }

  ghost predicate SizesParse(sandboxes: Sandboxes, ledgers: seq<Ledger>) {
    forall id :: NeedsLedger(sandboxes, id) && !HasActive(ledgers, id) ==> SizeOf(sandboxes[id]).Some?
  }

  ghost predicate JustAllocatedFor(sandboxes: Sandboxes, clock: Clock, l: Ledger) {
    && l.sandboxId.Some? && NeedsLedger(sandboxes, l.sandboxId.value)
    && var id := l.sandboxId.value;
    && SizeOf(sandboxes[id]) == Some(l.sizeGib)
    && l == NewLedger(id, sandboxes[id].ownerId, l.sizeGib, l.backendMode, clock(id))
    && (sandboxes[id].backendMode in {None, Some("")} ==> l.backendMode == "live_disk")
    && (sandboxes[id].backendMode !in {None, Some("")} ==> Some(l.backendMode) == sandboxes[id].backendMode)
  }

  // ---------------------------------------------------------------- the open rows after a pass

  /** After the closing loop, an id still has an open row if its sandbox is READY or its close raised. */
  lemma OpenAfterRepair(
      sandboxes: Sandboxes, cache: Specs, clock: Clock, before: seq<Session>, after: seq<Session>, id: string)
    requires |after| == |before|
    requires forall i :: 0 <= i < |before| ==> after[i] == Repaired(sandboxes, cache, clock, before[i])
    ensures HasOpen(after, id) <==>
      (IsReady(sandboxes, id) && HasOpen(before, id)) || HasStuck(sandboxes, cache, clock, before, id)
  {
    forall i | 0 <= i < |before|
      ensures IsOpenFor(after[i], id) <==>
        IsOpenFor(before[i], id) && (IsReady(sandboxes, id) || Stuck(sandboxes, cache, clock, before[i]))
    {
      CloseRowKeepsIdentity(before[i], ResolveSpec(cache, before[i].template), clock(before[i].sandboxId));
    }
    if HasOpen(after, id) {
      var i :| 0 <= i < |after| && IsOpenFor(after[i], id);
      assert IsOpenFor(before[i], id);
    }
    if IsReady(sandboxes, id) && HasOpen(before, id) {
      var i :| 0 <= i < |before| && IsOpenFor(before[i], id);
      assert IsOpenFor(after[i], id);
    }
    if HasStuck(sandboxes, cache, clock, before, id) {
      var i :| 0 <= i < |before| && before[i].sandboxId == id && Stuck(sandboxes, cache, clock, before[i]);
      assert IsOpenFor(after[i], id);
    }
  }

  /** Rows added for READY sandboxes cannot be stuck. */
  lemma StuckRowsAreOld(
      sandboxes: Sandboxes, cache: Specs, clock: Clock, before: seq<Session>, opened': seq<Session>, id: string)
    requires |before| <= |opened'| && opened'[..|before|] == before
    requires forall i :: |before| <= i < |opened'| ==> IsReady(sandboxes, opened'[i].sandboxId)
    ensures HasStuck(sandboxes, cache, clock, opened', id) <==> HasStuck(sandboxes, cache, clock, before, id)
  {
    if HasStuck(sandboxes, cache, clock, opened', id) {
      var i :| 0 <= i < |opened'| && opened'[i].sandboxId == id && Stuck(sandboxes, cache, clock, opened'[i]);
      assert i < |before| && before[i] == opened'[i];
    }
    if HasStuck(sandboxes, cache, clock, before, id) {
      var i :| 0 <= i < |before| && before[i].sandboxId == id && Stuck(sandboxes, cache, clock, before[i]);
      assert opened'[i] == before[i];
    }
  }

  /** A stuck row is an open row of a sandbox that is not READY. */
  lemma StuckIsOpen(sandboxes: Sandboxes, cache: Specs, clock: Clock, sessions: seq<Session>, id: string)
    requires HasStuck(sandboxes, cache, clock, sessions, id)
    ensures HasOpen(sessions, id) && !IsReady(sandboxes, id)
  {
    var i :| 0 <= i < |sessions| && sessions[i].sandboxId == id && Stuck(sandboxes, cache, clock, sessions[i]);
    assert IsOpenFor(sessions[i], id);
  }

  /** The pass settles the sessions exactly when it meets no error. */
  lemma SettledIffFaultFree(
      sandboxes: Sandboxes, cache: Specs, clock: Clock, before: seq<Session>, after: seq<Session>)
    requires forall id :: HasOpen(after, id) <==>
      (IsReady(sandboxes, id) && (HasOpen(before, id) || ResolveSpec(cache, sandboxes[id].template).Some?))
        || HasStuck(sandboxes, cache, clock, before, id)
    ensures Settled(sandboxes, after) <==> FaultFree(sandboxes, cache, clock, before)
  {
    forall id
      ensures HasStuck(sandboxes, cache, clock, before, id) ==> !IsReady(sandboxes, id)
    {
      if HasStuck(sandboxes, cache, clock, before, id) {
        StuckIsOpen(sandboxes, cache, clock, before, id);
      }
    }
    if FaultFree(sandboxes, cache, clock, before) {
      forall id
        ensures HasOpen(after, id) <==> IsReady(sandboxes, id)
      {
      }
    }
    if Settled(sandboxes, after) {
      forall id
        ensures !HasStuck(sandboxes, cache, clock, before, id)
        ensures IsReady(sandboxes, id) && !HasOpen(before, id) ==> ResolveSpec(cache, sandboxes[id].template).Some?
      {
        assert HasOpen(after, id) <==> IsReady(sandboxes, id);
      }
    }
  }

  lemma ActiveAfterRelease(
      sandboxes: Sandboxes, clock: Clock, before: seq<Ledger>, after: seq<Ledger>, id: string)
    requires |after| == |before|
    requires forall i :: 0 <= i < |before| ==> after[i] == Swept(sandboxes, clock, before[i])
    ensures HasActive(after, id) <==> HasActive(before, id) && !IsGone(sandboxes, id)
  {
    if HasActive(after, id) {
      var i :| 0 <= i < |after| && IsActiveFor(after[i], id);
      assert IsActiveFor(before[i], id);
    }
    if HasActive(before, id) && !IsGone(sandboxes, id) {
      var i :| 0 <= i < |before| && IsActiveFor(before[i], id);
      assert IsActiveFor(after[i], id);
    }
  }

  // ---------------------------------------------------------------- one turn of an opening loop

  /** Rows have only been added, for sandboxes no longer in `todo`. */
  ghost predicate Opening(
      sandboxes: Sandboxes, cache: Specs, clock: Clock, before: seq<Session>, sessions: seq<Session>, todo: set<string>)
  {
    && UniqueOpen(sessions)
    && |before| <= |sessions| && sessions[..|before|] == before
    && (forall i :: |before| <= i < |sessions| ==> JustOpenedFor(sandboxes, cache, clock, sessions[i]))
    && (forall id :: id in todo ==> IsReady(sandboxes, id) && !HasOpen(sessions, id) && !HasOpen(before, id))
    && (forall id :: id !in todo ==> (HasOpen(sessions, id) <==> HasOpen(before, id) || Openable(sandboxes, cache, id)))
  }

  predicate Openable(sandboxes: Sandboxes, cache: Specs, id: string) {
    IsReady(sandboxes, id) && ResolveSpec(cache, sandboxes[id].template).Some?
  }

  lemma OpenOne(
      sandboxes: Sandboxes, cache: Specs, clock: Clock, before: seq<Session>, sessions: seq<Session>, todo: set<string>,
      id: string)
    requires Opening(sandboxes, cache, clock, before, sessions, todo) && id in todo
    ensures
      var next := OpenIn(sessions, cache, id, sandboxes[id].ownerId, sandboxes[id].template, clock(id));
      Opening(sandboxes, cache, clock, before, if next.Some? then next.value else sessions, todo - {id})
  {
    OpenKeepsUnique(sessions, cache, id, sandboxes[id].ownerId, sandboxes[id].template, clock(id));
    var next := OpenIn(sessions, cache, id, sandboxes[id].ownerId, sandboxes[id].template, clock(id));
    if next.Some? {
      assert next.value[..|sessions|] == sessions;
      assert next.value[..|before|] == sessions[..|before|];
      assert JustOpenedFor(sandboxes, cache, clock, next.value[|sessions|]);
    }
  }

  ghost predicate Allocating(
      sandboxes: Sandboxes, clock: Clock, before: seq<Ledger>, ledgers: seq<Ledger>, todo: set<string>)
  {
    && UniqueActive(ledgers)
    && |before| <= |ledgers| && ledgers[..|before|] == before
    && (forall i :: |before| <= i < |ledgers| ==> JustAllocatedFor(sandboxes, clock, ledgers[i]))
    && (forall id :: id in todo ==> NeedsLedger(sandboxes, id) && !HasActive(ledgers, id) && !HasActive(before, id))
    && (forall id :: id !in todo ==> (HasActive(ledgers, id) <==> HasActive(before, id) || Allocatable(sandboxes, id)))
  }

  predicate Allocatable(sandboxes: Sandboxes, id: string) {
    NeedsLedger(sandboxes, id) && SizeOf(sandboxes[id]).Some?
  }

  /** The ledger the loop creates for one sandbox; a size that does not parse is logged and skipped. */
  function WithLedger(sandboxes: Sandboxes, clock: Clock, ledgers: seq<Ledger>, id: string): seq<Ledger>
    requires NeedsLedger(sandboxes, id)
  {
    var sandbox := sandboxes[id];
    var size := SizeOf(sandbox);
    if size.None? then ledgers
    else AllocateIn(ledgers, sandbox.ownerId, id, size.value, sandbox.Mode(), clock(id))
  }

  lemma AllocateOne(
      sandboxes: Sandboxes, clock: Clock, before: seq<Ledger>, ledgers: seq<Ledger>, todo: set<string>, id: string)
    requires Allocating(sandboxes, clock, before, ledgers, todo) && id in todo
    ensures Allocating(sandboxes, clock, before, WithLedger(sandboxes, clock, ledgers, id), todo - {id})
  {
    var sandbox := sandboxes[id];
    var size := SizeOf(sandbox);
    var next := WithLedger(sandboxes, clock, ledgers, id);
    if size.None? {
      assert next == ledgers && !Allocatable(sandboxes, id);
    } else {
      AllocateKeepsUnique(ledgers, sandbox.ownerId, id, size.value, sandbox.Mode(), clock(id));
      assert next == ledgers + [NewLedger(id, sandbox.ownerId, size.value, sandbox.Mode(), clock(id))];
      assert next[..|ledgers|] == ledgers;
      assert next[..|before|] == ledgers[..|before|];
      assert JustAllocatedFor(sandboxes, clock, next[|ledgers|]);
    }
  }

  // ---------------------------------------------------------------- the hooks

  class MeteringDb {
    const sandboxes: Sandboxes
    const cache: Specs
    var sessions: seq<Session>
    var ledgers: seq<Ledger>
    /** credits charged so far, per user */
    var charged: map<string, real>

    constructor (sandboxes: Sandboxes, cache: Specs, sessions: seq<Session>, ledgers: seq<Ledger>)
      ensures this.sandboxes == sandboxes && this.cache == cache
      ensures this.sessions == sessions && this.ledgers == ledgers && charged == map[]
    {
      this.sandboxes, this.cache, this.sessions, this.ledgers, charged := sandboxes, cache, sessions, ledgers, map[];
    }

    /** First repair loop: READY sandboxes without an open session get one. Unknown templates are skipped. */
    method OpenMissing(clock: Clock)
      requires UniqueOpen(sessions)
      modifies this`sessions
      ensures UniqueOpen(sessions)
      ensures |old(sessions)| <= |sessions| && sessions[..|old(sessions)|] == old(sessions)
      ensures forall i :: |old(sessions)| <= i < |sessions| ==> JustOpenedFor(sandboxes, cache, clock, sessions[i])
      ensures forall id :: HasOpen(sessions, id) <==>
        HasOpen(old(sessions), id) || Openable(sandboxes, cache, id)
      ensures (forall id :: IsReady(sandboxes, id) ==> HasOpen(old(sessions), id)) ==> sessions == old(sessions)
    {
      var todo := set id | id in sandboxes && sandboxes[id].status == SandboxSync.Ready && !HasOpen(sessions, id);
      ghost var before := sessions;
      while todo != {}
        invariant Opening(sandboxes, cache, clock, before, sessions, todo)
        invariant (forall id :: IsReady(sandboxes, id) ==> HasOpen(before, id)) ==> todo == {} && sessions == before
        decreases |todo|
      {
        var id :| id in todo;
        var sandbox := sandboxes[id];
        OpenOne(sandboxes, cache, clock, before, sessions, todo, id);
        var next := OpenIn(sessions, cache, id, sandbox.ownerId, sandbox.template, clock(id));
        sessions := if next.Some? then next.value else sessions;
        todo := todo - {id};
      }
    }

    /** Second repair loop: open sessions of sandboxes that are missing or not READY are closed and charged. */
    method CloseStale(clock: Clock)
      requires UniqueOpen(sessions)
      modifies this`sessions, this`charged
      ensures UniqueOpen(sessions) && |sessions| == |old(sessions)|
      ensures forall i :: 0 <= i < |sessions| ==> sessions[i] == Repaired(sandboxes, cache, clock, old(sessions)[i])
      ensures forall user ::
        DeltaOf(charged, user) ==
        DeltaOf(old(charged), user) + RepairCharge(sandboxes, cache, clock, old(sessions), user)
    {
      var stale := sessions;
      var i := 0;
      while i < |stale|
        invariant 0 <= i <= |stale| == |sessions| && UniqueOpen(sessions)
        invariant forall j :: 0 <= j < i ==> sessions[j] == Repaired(sandboxes, cache, clock, stale[j])
        invariant forall j :: i <= j < |stale| ==> sessions[j] == stale[j]
        invariant forall user ::
          DeltaOf(charged, user) ==
          DeltaOf(old(charged), user) + RepairCharge(sandboxes, cache, clock, stale[..i], user)
      {
        assert stale[..i + 1][..i] == stale[..i];
        var cs := stale[i];
        if cs.endedAt.None? &&
           (cs.sandboxId !in sandboxes || sandboxes[cs.sandboxId].status != SandboxSync.Ready) {
          var id := cs.sandboxId;
          assert IsOpenFor(sessions[i], id);
          OpenRowIsTheOne(sessions, id, i);
          CloseKeepsUnique(sessions, cache, id, clock(id));
          var outcome := CloseIn(sessions, cache, id, clock(id));
          assert outcome.charge == RowCharge(sandboxes, cache, clock, cs);
          sessions := outcome.sessions;
          charged := SessionTable.AddDelta(charged, cs.userId, outcome.charge);
        }
        i := i + 1;
      }
      assert stale[..i] == stale;
    }

    /**
     reconcile_metering, from any drifted table. Afterwards a sandbox has an open session exactly when it is
     READY (and had one, or its template is known), or its close raised; so the pass settles the table if
     and only if it meets no error, and on a settled table it does nothing.
     */
    method ReconcileMetering(clock: Clock)
      requires UniqueOpen(sessions)
      modifies this`sessions, this`charged
      ensures UniqueOpen(sessions)
      ensures |old(sessions)| <= |sessions|
      ensures forall i :: 0 <= i < |old(sessions)| ==>
        sessions[i] == Repaired(sandboxes, cache, clock, old(sessions)[i])
      ensures forall i :: |old(sessions)| <= i < |sessions| ==> JustOpenedFor(sandboxes, cache, clock, sessions[i])
      ensures forall id :: HasOpen(sessions, id) <==>
        (IsReady(sandboxes, id) && (HasOpen(old(sessions), id) || ResolveSpec(cache, sandboxes[id].template).Some?))
          || HasStuck(sandboxes, cache, clock, old(sessions), id)
      ensures forall user ::
        DeltaOf(charged, user) ==
        DeltaOf(old(charged), user) + RepairCharge(sandboxes, cache, clock, old(sessions), user)
      ensures Settled(sandboxes, sessions) <==> FaultFree(sandboxes, cache, clock, old(sessions))
      ensures Settled(sandboxes, old(sessions)) ==>
        sessions == old(sessions) && forall user :: DeltaOf(charged, user) == DeltaOf(old(charged), user)
    {
      ghost var before := sessions;
      OpenMissing(clock);
      ghost var filled := sessions;
      ghost var was := charged;
      CloseStale(clock);
      forall i | |before| <= i < |sessions|
        ensures sessions[i] == filled[i]
      {
        assert JustOpenedFor(sandboxes, cache, clock, filled[i]);
      }
      assert forall i :: 0 <= i < |before| ==> filled[i] == before[i];
      forall id
        ensures HasOpen(sessions, id) <==>
          (IsReady(sandboxes, id) && (HasOpen(before, id) || ResolveSpec(cache, sandboxes[id].template).Some?))
            || HasStuck(sandboxes, cache, clock, before, id)
      {
        OpenAfterRepair(sandboxes, cache, clock, filled, sessions, id);
        StuckRowsAreOld(sandboxes, cache, clock, before, filled, id);
      }
      forall user
        ensures RepairCharge(sandboxes, cache, clock, filled, user) ==
          RepairCharge(sandboxes, cache, clock, before, user)
      {
        NewRowsChargeNothing(sandboxes, cache, clock, before, filled, user);
      }
      SettledIffFaultFree(sandboxes, cache, clock, before, sessions);
      if Settled(sandboxes, before) {
        SettledHasNothingStale(sandboxes, before);
        assert sessions == before;
        forall user
          ensures RepairCharge(sandboxes, cache, clock, before, user) == 0.0
        {
          NothingStaleChargesNothing(sandboxes, cache, clock, before, user);
        }
      }
    }

    /** Two passes in a row: when the first meets no error, the second changes nothing and charges nobody. */
    method ReconcileMeteringTwice(clock: Clock, later: Clock)
        returns (once: seq<Session>, onceCharged: map<string, real>)
      requires UniqueOpen(sessions)
      modifies this`sessions, this`charged
      ensures FaultFree(sandboxes, cache, clock, old(sessions)) ==>
        && Settled(sandboxes, sessions) && sessions == once
        && forall user :: DeltaOf(charged, user) == DeltaOf(onceCharged, user)
    {
      ReconcileMetering(clock);
      once, onceCharged := sessions, charged;
      ReconcileMetering(later);
    }

    /** First storage loop: sandboxes that need a ledger and lack one get it. Unreadable sizes are skipped. */
    method AllocateMissing(clock: Clock)
      requires UniqueActive(ledgers)
      modifies this`ledgers
      ensures UniqueActive(ledgers)
      ensures |old(ledgers)| <= |ledgers| && ledgers[..|old(ledgers)|] == old(ledgers)
      ensures forall i :: |old(ledgers)| <= i < |ledgers| ==> JustAllocatedFor(sandboxes, clock, ledgers[i])
      ensures forall id :: HasActive(ledgers, id) <==>
        HasActive(old(ledgers), id) || Allocatable(sandboxes, id)
      ensures (forall id :: NeedsLedger(sandboxes, id) ==> HasActive(old(ledgers), id)) ==> ledgers == old(ledgers)
    {
      var todo := set id |
        && id in sandboxes && sandboxes[id].persist
        && sandboxes[id].status != SandboxSync.Deleting && sandboxes[id].status != SandboxSync.Deleted
        && sandboxes[id].storageSize.Some? && sandboxes[id].gmtDeleted.None?
        && !HasActive(ledgers, id);
      ghost var before := ledgers;
      while todo != {}
        invariant Allocating(sandboxes, clock, before, ledgers, todo)
        invariant (forall id :: NeedsLedger(sandboxes, id) ==> HasActive(before, id)) ==>
          todo == {} && ledgers == before
        decreases |todo|
      {
        var id :| id in todo;
        AllocateOne(sandboxes, clock, before, ledgers, todo, id);
        ledgers := WithLedger(sandboxes, clock, ledgers, id);
        todo := todo - {id};
      }
    }

    /** Second storage loop: active ledgers of sandboxes that are gone are released; NULL sandbox ids are skipped. */
    method ReleaseStale(clock: Clock)
      requires UniqueActive(ledgers)
      modifies this`ledgers
      ensures UniqueActive(ledgers) && |ledgers| == |old(ledgers)|
      ensures forall i :: 0 <= i < |ledgers| ==> ledgers[i] == Swept(sandboxes, clock, old(ledgers)[i])
    {
      var stale := ledgers;
      var i := 0;
      while i < |stale|
        invariant 0 <= i <= |stale| == |ledgers| && UniqueActive(ledgers)
        invariant forall j :: 0 <= j < i ==> ledgers[j] == Swept(sandboxes, clock, stale[j])
        invariant forall j :: i <= j < |stale| ==> ledgers[j] == stale[j]
      {
        var ledger := stale[i];
        if ledger.state == Active && ledger.sandboxId.Some? &&
           (ledger.sandboxId.value !in sandboxes
            || sandboxes[ledger.sandboxId.value].status in {SandboxSync.Deleting, SandboxSync.Deleted}) {
          var id := ledger.sandboxId.value;
          assert IsActiveFor(ledgers[i], id);
          ActiveRowIsTheOne(ledgers, id, i);
          ReleaseKeepsUnique(ledgers, id, clock(id));
          ledgers := ReleaseIn(ledgers, id, clock(id));
        }
        i := i + 1;
      }
    }

    /**
     reconcile_storage_metering, from any drifted table. It settles the ledgers if and only if every size it
     needs can be read, never touches an entry without a sandbox id, and does nothing on settled ledgers.
     */
    method ReconcileStorageMetering(clock: Clock)
      requires UniqueActive(ledgers)
      modifies this`ledgers
      ensures UniqueActive(ledgers)
      ensures |old(ledgers)| <= |ledgers|
      ensures forall i :: 0 <= i < |old(ledgers)| ==> ledgers[i] == Swept(sandboxes, clock, old(ledgers)[i])
      ensures forall i :: |old(ledgers)| <= i < |ledgers| ==> JustAllocatedFor(sandboxes, clock, ledgers[i])
      ensures forall id :: HasActive(ledgers, id) <==>
        !IsGone(sandboxes, id) && (HasActive(old(ledgers), id) || Allocatable(sandboxes, id))
      ensures StorageSettled(sandboxes, ledgers) <==> SizesParse(sandboxes, old(ledgers))
      ensures StorageSettled(sandboxes, old(ledgers)) ==> ledgers == old(ledgers)
    {
      ghost var before := ledgers;
      AllocateMissing(clock);
      ghost var filled := ledgers;
      ReleaseStale(clock);
      assert forall i :: 0 <= i < |before| ==> filled[i] == before[i];
      forall i | |before| <= i < |ledgers|
        ensures ledgers[i] == filled[i]
      {
        assert JustAllocatedFor(sandboxes, clock, filled[i]);
      }
      forall id
        ensures HasActive(ledgers, id) <==>
          !IsGone(sandboxes, id) && (HasActive(before, id) || Allocatable(sandboxes, id))
      {
        ActiveAfterRelease(sandboxes, clock, filled, ledgers, id);
      }
      SettledIffSizesParse(sandboxes, before, ledgers);
      if StorageSettled(sandboxes, before) {
        SettledHasNoStaleLedger(sandboxes, before);
      }
    }

    method ReconcileStorageMeteringTwice(clock: Clock, later: Clock) returns (once: seq<Ledger>)
      requires UniqueActive(ledgers)
      modifies this`ledgers
      ensures SizesParse(sandboxes, old(ledgers)) ==> StorageSettled(sandboxes, ledgers) && ledgers == once
    {
      ReconcileStorageMetering(clock);
      once := ledgers;
      ReconcileStorageMetering(later);
    }
  }

  // ---------------------------------------------------------------- settled tables need nothing

  lemma SettledHasNothingStale(sandboxes: Sandboxes, sessions: seq<Session>)
    requires Settled(sandboxes, sessions)
    ensures forall i :: 0 <= i < |sessions| ==> !StaleSession(sandboxes, sessions[i])
  {
    forall i | 0 <= i < |sessions|
      ensures !StaleSession(sandboxes, sessions[i])
    {
      if sessions[i].endedAt.None? {
        assert IsOpenFor(sessions[i], sessions[i].sandboxId);
      }
    }
  }

  lemma {:induction false} NothingStaleChargesNothing(
      sandboxes: Sandboxes, cache: Specs, clock: Clock, sessions: seq<Session>, user: string)
    requires forall i :: 0 <= i < |sessions| ==> !StaleSession(sandboxes, sessions[i])
    ensures RepairCharge(sandboxes, cache, clock, sessions, user) == 0.0
  {
    if sessions == [] {
    } else {
      NothingStaleChargesNothing(sandboxes, cache, clock, sessions[..|sessions| - 1], user);
    }
  }

  lemma {:induction false} NewRowsChargeNothing(
      sandboxes: Sandboxes, cache: Specs, clock: Clock, before: seq<Session>, filled: seq<Session>, user: string)
    requires |before| <= |filled| && filled[..|before|] == before
    requires forall i :: |before| <= i < |filled| ==> IsReady(sandboxes, filled[i].sandboxId)
    ensures RepairCharge(sandboxes, cache, clock, filled, user) == RepairCharge(sandboxes, cache, clock, before, user)
    decreases |filled|
  {
    if |before| < |filled| {
      var front := filled[..|filled| - 1];
      assert front[..|before|] == before;
      NewRowsChargeNothing(sandboxes, cache, clock, before, front, user);
    } else {
      assert filled == before;
    }
  }

  lemma SettledIffSizesParse(sandboxes: Sandboxes, before: seq<Ledger>, after: seq<Ledger>)
    requires forall id :: HasActive(after, id) <==>
      !IsGone(sandboxes, id) && (HasActive(before, id) || Allocatable(sandboxes, id))
    ensures StorageSettled(sandboxes, after) <==> SizesParse(sandboxes, before)
  {
    if StorageSettled(sandboxes, after) {
      forall id | NeedsLedger(sandboxes, id) && !HasActive(before, id)
        ensures SizeOf(sandboxes[id]).Some?
      {
        assert HasActive(after, id);
      }
    }
  }

  lemma SettledHasNoStaleLedger(sandboxes: Sandboxes, ledgers: seq<Ledger>)
    requires StorageSettled(sandboxes, ledgers)
    ensures forall i :: 0 <= i < |ledgers| ==> !StaleLedger(sandboxes, ledgers[i])
  {
    forall i | 0 <= i < |ledgers|
      ensures !StaleLedger(sandboxes, ledgers[i])
    {
      if ledgers[i].state == Active && ledgers[i].sandboxId.Some? {
        assert IsActiveFor(ledgers[i], ledgers[i].sandboxId.value);
      }
    }
  }

  // ---------------------------------------------------------------- what the closing loop charges

  /** While templates keep the resources sessions were opened with, the pass charges each user the hours it books. */
  lemma {:induction false} RepairChargesBookedHours(
      sandboxes: Sandboxes, cache: Specs, clock: Clock, before: seq<Session>, after: seq<Session>, user: string)
    requires |after| == |before|
    requires forall i :: 0 <= i < |before| ==> after[i] == Repaired(sandboxes, cache, clock, before[i])
    requires forall i :: 0 <= i < |before| ==> ResolveSpec(cache, before[i].template) == Some(before[i].request)
    requires forall i :: 0 <= i < |before| ==> 0.0 <= before[i].request.vcpu && 0.0 <= before[i].request.memoryGib
    ensures UserCuHours(after, user) == UserCuHours(before, user) + RepairCharge(sandboxes, cache, clock, before, user)
  {
    if before == [] {
    } else {
      var n := |before| - 1;
      RepairChargesBookedHours(sandboxes, cache, clock, before[..n], after[..n], user);
      RowChargesBookedHours(sandboxes, cache, clock, before[n]);
    }
  }

  lemma RowChargesBookedHours(sandboxes: Sandboxes, cache: Specs, clock: Clock, s: Session)
    requires ResolveSpec(cache, s.template) == Some(s.request) && 0.0 <= s.request.vcpu && 0.0 <= s.request.memoryGib
    ensures var r := Repaired(sandboxes, cache, clock, s);
      r.userId == s.userId && r.CuHours() == s.CuHours() + RowCharge(sandboxes, cache, clock, s)
  {
    var span := CloseSpan(s, clock(s.sandboxId));
    if StaleSession(sandboxes, s) && span > 0 {
      AccrueBooksCharge(s, span);
      RateMonotone(CuRate(s.request), 0, span);
    }
  }
}
