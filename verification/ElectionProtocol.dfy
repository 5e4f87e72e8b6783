/**
 Any number of electors on one Lease, interleaved at every await: reading the clock, reading the Lease,
 the arrival of the write and the arrival of its answer are separate steps. Writes can be lost or arrive
 late, even after their sender gave up; the clock is shared and never goes back.
 */
module ElectionProtocol {
  import opened Common
  import opened LeaderElection

  /** The replicas, keyed by their (distinct, non-empty) identity. */
  type Cluster = map<string, Config>

  ghost predicate ValidCluster(c: Cluster) {
    && "" !in c
    && forall r :: r in c ==> c[r].identity == r && c[r].Accepted() && 0 <= c[r].leaseDurationSeconds
  }

  datatype Message = Message(sender: string, now: Time, request: Request)

  datatype Phase =
    | Idle
    | ClockRead(now: Time)
    | Waiting(message: Message)
    | Answered(won: bool)
    | ReleaseRead(lease: Lease)

  /** An accepted write and the moment the server accepted it. */
  datatype Write = Write(sender: string, request: Request, at: Time)

  /** The authority a replica got from its last accepted acquire or renew, until it releases. */
  datatype Claim = Claim(renewTime: Time, duration: Time)
  {
    predicate LiveAt(t: Time) { t < renewTime + duration }
  }

  datatype State = State(
    clock: Time,
    store: Store,
    phases: map<string, Phase>,
    inflight: set<Message>,
    log: seq<Write>,
    claims: map<string, Claim>)

  datatype Step =
    | Tick(to: Time)
    | ReadClock(r: string)
    | GetLease(r: string)
    | Deliver(m: Message)
    | Lose(m: Message)
    | Return(r: string)
    | Abandon(r: string)
    | GetForRelease(r: string)
    | ReleaseClock(r: string)

  function Init(c: Cluster, start: Time): State {
    State(start, Store(None, 0), map r | r in c :: Idle, {}, [], map[])
  }

  function SetPhase(s: State, r: string, p: Phase): State {
    s.(phases := s.phases[r := p])
  }

  predicate InPhase(s: State, r: string, p: Phase) {
    r in s.phases && s.phases[r] == p
  }

  /** The server accepts `m`: store, log and claim change together. */
  function Commit(s: State, m: Message): State {
    var claims :=
      if m.request.Release? then s.claims - {m.sender}
      else s.claims[m.sender := Claim(m.now, Duration(m.request.spec))];
    s.(store := Submit(s.store, m.request).0,
       log := s.log + [Write(m.sender, m.request, s.clock)],
       claims := claims)
  }

  function Duration(spec: LeaseSpec): Time {
    if spec.durationSeconds.Some? then spec.durationSeconds.value * SECOND else 0
  }

  predicate Accepts(s: State, m: Message) {
    Submit(s.store, m.request).1 == Accepted
  }

  function DeliverStep(s: State, m: Message): State {
    if m !in s.inflight then s else
    var done := if Accepts(s, m) then Commit(s, m) else s;
    var received := done.(inflight := s.inflight - {m});
    if InPhase(s, m.sender, Waiting(m)) then SetPhase(received, m.sender, Answered(Accepts(s, m))) else received
  }

  function SendStep(s: State, r: string, now: Time, request: Request): State {
    var m := Message(r, now, request);
    SetPhase(s.(inflight := s.inflight + {m}), r, Waiting(m))
  }

  /** A step whose guard does not hold changes nothing. */
  function Apply(c: Cluster, s: State, step: Step): State {
    match step
    case Tick(to) => if s.clock <= to then s.(clock := to) else s
    case ReadClock(r) => if InPhase(s, r, Idle) then SetPhase(s, r, ClockRead(s.clock)) else s
    case GetLease(r) =>
      if r in c && r in s.phases && s.phases[r].ClockRead? then
        var now := s.phases[r].now;
        var request := Decide(c[r], s.store.lease, now);
        if request.None? then SetPhase(s, r, Answered(false)) else SendStep(s, r, now, request.value)
      else s
    case Deliver(m) => DeliverStep(s, m)
    case Lose(m) => s.(inflight := s.inflight - {m})
    case Return(r) => if r in s.phases && s.phases[r].Answered? then SetPhase(s, r, Idle) else s
    case Abandon(r) => if r in s.phases then SetPhase(s, r, Idle) else s
    case GetForRelease(r) =>
      if InPhase(s, r, Idle) && s.store.lease.Some? && s.store.lease.value.spec.holder == r
      then SetPhase(s, r, ReleaseRead(s.store.lease.value)) else s
    case ReleaseClock(r) =>
      if r in c && r in s.phases && s.phases[r].ReleaseRead? then
        var request := DecideRelease(c[r], Some(s.phases[r].lease), s.clock);
        if request.None? then SetPhase(s, r, Idle) else SendStep(s, r, s.clock, request.value)
      else s
  }

  function Run(c: Cluster, start: Time, steps: seq<Step>): State {
    if steps == [] then Init(c, start)
    else Apply(c, Run(c, start, steps[..|steps| - 1]), steps[|steps| - 1])
  }

  // ---------------------------------------------------------------- history of accepted writes

  /** How the next accepted write relates to the one it replaces. */
  ghost predicate Follows(prev: LeaseSpec, w: Write) {
    var spec := w.request.spec;
    && prev.renewTime.Some? && spec.renewTime.Some? && prev.acquireTime.Some?
    && match w.request
       case Create(_) => false
       case Renew(_, _) =>
         && prev.holder == w.sender == spec.holder
         && spec.acquireTime == prev.acquireTime && spec.transitions == prev.transitions
         && prev.renewTime.value <= spec.renewTime.value
       case TakeOver(_, _) =>
         && prev.holder != w.sender == spec.holder
         && spec.acquireTime == spec.renewTime && spec.transitions == prev.transitions + 1
         && (prev.holder != "" ==> prev.renewTime.value + Duration(prev) <= spec.renewTime.value)
       case Release(_, _) =>
         && prev.holder == w.sender && spec.holder == ""
         && spec.acquireTime == prev.acquireTime && spec.transitions == prev.transitions
         && prev.renewTime.value <= spec.renewTime.value
  }

  ghost predicate WellFormed(c: Cluster, w: Write) {
    var spec := w.request.spec;
    && w.sender in c
    && spec.renewTime.Some? && spec.acquireTime.Some?
    && spec.renewTime.value <= w.at
    && spec.durationSeconds == Some(c[w.sender].leaseDurationSeconds)
    && spec.holder == (if w.request.Release? then "" else w.sender)
  }

  ghost predicate LogInv(c: Cluster, log: seq<Write>) {
    && (forall i :: 0 <= i < |log| ==> WellFormed(c, log[i]))
    && (|log| > 0 ==> log[0].request.Create? && log[0].request.spec.transitions == 0)
    && (forall i :: 0 < i < |log| ==> Follows(log[i - 1].request.spec, log[i]))
  }

  function CountTakeovers(log: seq<Write>): nat {
    if log == [] then 0
    else CountTakeovers(log[..|log| - 1]) + (if log[|log| - 1].request.TakeOver? then 1 else 0)
  }

  // ---------------------------------------------------------------- the inductive invariant

  /** The store holds the last logged write, if any. */
  ghost predicate StoreInv(c: Cluster, s: State) {
    && s.claims.Keys <= c.Keys
    && s.phases.Keys <= c.Keys
    && match s.store.lease
    case None => s.log == [] && s.claims == map[]
    case Some(lease) =>
      && s.log != []
      && lease.spec == s.log[|s.log| - 1].request.spec
      && lease.version <= s.store.lastVersion
      && s.log[|s.log| - 1].at <= s.clock
  }

  /** A claim is either what the store says now or already past its end. */
  ghost predicate ClaimInv(s: State) {
    forall r :: r in s.claims ==> ClaimBacked(s, r) || !s.claims[r].LiveAt(s.clock)
  }

  ghost predicate ClaimBacked(s: State, r: string) {
    && r in s.claims
    && s.store.lease.Some?
    && s.store.lease.value.spec.holder == r
    && s.store.lease.value.spec.renewTime == Some(s.claims[r].renewTime)
    && Duration(s.store.lease.value.spec) == s.claims[r].duration
  }

  predicate HolderNotAhead(s: State, r: string, t: Time) {
    (s.store.lease.Some? && s.store.lease.value.spec.holder == r && s.store.lease.value.spec.renewTime.Some?) ==>
      s.store.lease.value.spec.renewTime.value <= t
  }

  /** A message that would be accepted now was decided on exactly the Lease stored now. */
  ghost predicate MessageInv(c: Cluster, s: State, m: Message) {
    && m.sender in c
    && m.now <= s.clock
    && (!m.request.Create? ==> m.request.expected <= s.store.lastVersion)
    && (Accepts(s, m) ==>
          && (Decide(c[m.sender], s.store.lease, m.now) == Some(m.request)
              || DecideRelease(c[m.sender], s.store.lease, m.now) == Some(m.request))
          && HolderNotAhead(s, m.sender, m.now))
  }

  ghost predicate PhaseInv(c: Cluster, s: State, r: string)
    requires r in s.phases
  {
    match s.phases[r]
    case ClockRead(now) =>
      && now <= s.clock
      && (forall m :: m in s.inflight && m.sender == r ==> m.now <= now)
      && HolderNotAhead(s, r, now)
    case ReleaseRead(lease) =>
      && lease.version <= s.store.lastVersion
      && lease.spec.holder == r
      && (s.store.lease.Some? && s.store.lease.value.version == lease.version ==> s.store.lease.value == lease)
    case _ => true
  }

  ghost predicate Inv(c: Cluster, s: State) {
    && LogInv(c, s.log)
    && StoreInv(c, s)
    && ClaimInv(s)
    && (forall m :: m in s.inflight ==> MessageInv(c, s, m))
    && (forall r :: r in s.phases ==> PhaseInv(c, s, r))
  }

  lemma CommitKeepsLog(c: Cluster, s: State, m: Message)
    requires ValidCluster(c) && Inv(c, s) && m in s.inflight && Accepts(s, m)
    ensures LogInv(c, Commit(s, m).log) && StoreInv(c, Commit(s, m))
  {
    assert MessageInv(c, s, m);
    var w := Write(m.sender, m.request, s.clock);
    assert Commit(s, m).log == s.log + [w];
    if s.store.lease.Some? {
      assert WellFormed(c, s.log[|s.log| - 1]);
      assert Follows(s.log[|s.log| - 1].request.spec, w);
    }
  }

  lemma CommitKeepsClaims(c: Cluster, s: State, m: Message)
    requires ValidCluster(c) && Inv(c, s) && m in s.inflight && Accepts(s, m)
    ensures ClaimInv(Commit(s, m))
  {
    assert MessageInv(c, s, m);
    var s' := Commit(s, m);
    if s.store.lease.Some? {
      assert WellFormed(c, s.log[|s.log| - 1]);
    }
    forall r | r in s'.claims
      ensures ClaimBacked(s', r) || !s'.claims[r].LiveAt(s'.clock)
    {
      if r != m.sender {
        assert s'.claims[r] == s.claims[r];
      }
    }
  }

  /** After an acceptance no message in flight can be accepted any more. */
  lemma CommitOutdatesMessages(c: Cluster, s: State, m: Message, other: Message)
    requires Inv(c, s) && m in s.inflight && Accepts(s, m) && other in s.inflight
    ensures !Accepts(Commit(s, m), other) && MessageInv(c, Commit(s, m), other)
  {
    assert MessageInv(c, s, other);
    assert MessageInv(c, s, m);
  }

  lemma CommitKeepsPhase(c: Cluster, s: State, m: Message, r: string)
    requires ValidCluster(c) && Inv(c, s) && m in s.inflight && Accepts(s, m) && r in s.phases
    ensures PhaseInv(c, Commit(s, m), r)
  {
    assert MessageInv(c, s, m);
    assert PhaseInv(c, s, r);
    assert r in c;
  }

  lemma CommitKeepsInv(c: Cluster, s: State, m: Message)
    requires ValidCluster(c) && Inv(c, s) && m in s.inflight && Accepts(s, m)
    ensures Inv(c, Commit(s, m))
  {
    CommitKeepsLog(c, s, m);
    CommitKeepsClaims(c, s, m);
    forall other | other in s.inflight
      ensures MessageInv(c, Commit(s, m), other)
    {
      CommitOutdatesMessages(c, s, m, other);
    }
    forall r | r in s.phases
      ensures PhaseInv(c, Commit(s, m), r)
    {
      CommitKeepsPhase(c, s, m, r);
    }
  }

  lemma DropKeepsInv(c: Cluster, s: State, m: Message)
    requires Inv(c, s)
    ensures Inv(c, s.(inflight := s.inflight - {m}))
  {
    var s' := s.(inflight := s.inflight - {m});
    forall other | other in s'.inflight ensures MessageInv(c, s', other) { assert MessageInv(c, s, other); }
    forall r | r in s'.phases ensures PhaseInv(c, s', r) { assert PhaseInv(c, s, r); }
  }

  lemma SetPhaseKeepsInv(c: Cluster, s: State, r: string, p: Phase)
    requires Inv(c, s) && r in s.phases && (p.Answered? || p.Idle?)
    ensures Inv(c, SetPhase(s, r, p))
  {
    var s' := SetPhase(s, r, p);
    forall m | m in s'.inflight ensures MessageInv(c, s', m) { assert MessageInv(c, s, m); }
    forall q | q in s'.phases ensures PhaseInv(c, s', q) { assert PhaseInv(c, s, q); }
  }

  lemma DeliverKeepsInv(c: Cluster, s: State, m: Message)
    requires ValidCluster(c) && Inv(c, s)
    ensures Inv(c, DeliverStep(s, m))
  {
    if m in s.inflight {
      var done := if Accepts(s, m) then Commit(s, m) else s;
      if Accepts(s, m) {
        CommitKeepsInv(c, s, m);
      }
      DropKeepsInv(c, done, m);
      var received := done.(inflight := s.inflight - {m});
      if InPhase(s, m.sender, Waiting(m)) {
        SetPhaseKeepsInv(c, received, m.sender, Answered(Accepts(s, m)));
      }
    }
  }

  lemma SendKeepsInv(c: Cluster, s: State, r: string, now: Time, request: Request)
    requires Inv(c, s) && r in c && r in s.phases && MessageInv(c, s, Message(r, now, request))
    ensures Inv(c, SendStep(s, r, now, request))
  {
    var s' := SendStep(s, r, now, request);
    forall other | other in s'.inflight
      ensures MessageInv(c, s', other)
    {
      assert MessageInv(c, s, other);
    }
    forall q | q in s'.phases
      ensures PhaseInv(c, s', q)
    {
      assert PhaseInv(c, s, q);
    }
  }

  lemma TickKeepsInv(c: Cluster, s: State, to: Time)
    requires Inv(c, s) && s.clock <= to
    ensures Inv(c, s.(clock := to))
  {
    var s' := s.(clock := to);
    forall m | m in s'.inflight ensures MessageInv(c, s', m) { assert MessageInv(c, s, m); }
    forall r | r in s'.phases ensures PhaseInv(c, s', r) { assert PhaseInv(c, s, r); }
  }

  /** Reading the clock or the Lease only moves the reader to a phase that holds what it read. */
  lemma ReadKeepsInv(c: Cluster, s: State, r: string, p: Phase)
    requires Inv(c, s) && r in s.phases
    requires p == ClockRead(s.clock)
      || (s.store.lease.Some? && s.store.lease.value.spec.holder == r && p == ReleaseRead(s.store.lease.value))
    ensures Inv(c, SetPhase(s, r, p))
  {
    var s' := SetPhase(s, r, p);
    if s.store.lease.Some? {
      assert WellFormed(c, s.log[|s.log| - 1]);
    }
    forall m | m in s'.inflight ensures MessageInv(c, s', m) { assert MessageInv(c, s, m); }
    forall q | q in s'.phases ensures PhaseInv(c, s', q) { assert PhaseInv(c, s, q); }
  }

  lemma StepKeepsInv(c: Cluster, s: State, step: Step)
    requires ValidCluster(c) && Inv(c, s)
    ensures Inv(c, Apply(c, s, step))
  {
    match step
    case Deliver(m) => DeliverKeepsInv(c, s, m);
    case GetLease(r) =>
      if r in c && r in s.phases && s.phases[r].ClockRead? {
        var now := s.phases[r].now;
        var request := Decide(c[r], s.store.lease, now);
        assert PhaseInv(c, s, r);
        if request.Some? {
          SendKeepsInv(c, s, r, now, request.value);
        } else {
          SetPhaseKeepsInv(c, s, r, Answered(false));
        }
      }
    case ReleaseClock(r) =>
      if r in c && r in s.phases && s.phases[r].ReleaseRead? {
        assert PhaseInv(c, s, r);
        if s.store.lease.Some? {
          assert WellFormed(c, s.log[|s.log| - 1]);
        }
        SendKeepsInv(c, s, r, s.clock, DecideRelease(c[r], Some(s.phases[r].lease), s.clock).value);
      }
    case Tick(to) => if s.clock <= to { TickKeepsInv(c, s, to); }
    case Lose(m) => DropKeepsInv(c, s, m);
    case ReadClock(r) => if InPhase(s, r, Idle) { ReadKeepsInv(c, s, r, ClockRead(s.clock)); }
    case GetForRelease(r) =>
      if InPhase(s, r, Idle) && s.store.lease.Some? && s.store.lease.value.spec.holder == r {
        ReadKeepsInv(c, s, r, ReleaseRead(s.store.lease.value));
      }
    case Return(r) => if r in s.phases && s.phases[r].Answered? { SetPhaseKeepsInv(c, s, r, Idle); }
    case Abandon(r) => if r in s.phases { SetPhaseKeepsInv(c, s, r, Idle); }
  }

  lemma {:induction false} RunKeepsInv(c: Cluster, start: Time, steps: seq<Step>)
    requires ValidCluster(c)
    ensures Inv(c, Run(c, start, steps))
  {
    if steps == [] {
    } else {
      RunKeepsInv(c, start, steps[..|steps| - 1]);
      StepKeepsInv(c, Run(c, start, steps[..|steps| - 1]), steps[|steps| - 1]);
    }
  }

  // ---------------------------------------------------------------- results over every run

  /** Two live claims of one state are both backed by the stored Lease, so they are the same. */
  lemma LiveClaimsCoincide(c: Cluster, s: State, a: string, b: string)
    requires Inv(c, s)
    requires a in s.claims && b in s.claims && s.claims[a].LiveAt(s.clock) && s.claims[b].LiveAt(s.clock)
    ensures a == b
  {
    assert ClaimBacked(s, a) && ClaimBacked(s, b);
  }

  /** At every moment at most one replica is inside the validity of its last accepted, unreleased write. */
  lemma {:induction false} AtMostOneLiveClaim(c: Cluster, start: Time, steps: seq<Step>, a: string, b: string)
    requires ValidCluster(c)
    requires var s := Run(c, start, steps);
      a in s.claims && b in s.claims && s.claims[a].LiveAt(s.clock) && s.claims[b].LiveAt(s.clock)
    ensures a == b
  {
    RunKeepsInv(c, start, steps);
    LiveClaimsCoincide(c, Run(c, start, steps), a, b);
  }

  lemma {:induction false} TransitionsCount(c: Cluster, log: seq<Write>)
    requires LogInv(c, log) && log != []
    ensures log[|log| - 1].request.spec.transitions == CountTakeovers(log)
  {
    var front := log[..|log| - 1];
    if front != [] {
      TransitionsCount(c, front);
      assert Follows(log[|log| - 2].request.spec, log[|log| - 1]);
    } else {
      assert CountTakeovers(front) == 0;
    }
  }

  /** leaseTransitions of the stored Lease is the number of takeovers since the Lease was created. */
  lemma {:induction false} LeaseTransitionsCountTakeovers(c: Cluster, start: Time, steps: seq<Step>)
    requires ValidCluster(c)
    ensures var s := Run(c, start, steps);
      s.store.lease.Some? ==> s.store.lease.value.spec.transitions == CountTakeovers(s.log)
  {
    RunKeepsInv(c, start, steps);
    var s := Run(c, start, steps);
    if s.store.lease.Some? {
      TransitionsCount(c, s.log);
    }
  }

  /** Each accepted write after the first replaces exactly the one before it, by the protocol's rules. */
  lemma {:induction false} WritesFollowEachOther(c: Cluster, start: Time, steps: seq<Step>, i: nat)
    requires ValidCluster(c)
    requires 0 < i < |Run(c, start, steps).log|
    ensures var log := Run(c, start, steps).log; Follows(log[i - 1].request.spec, log[i])
  {
    RunKeepsInv(c, start, steps);
  }

  lemma {:induction false} RenewTimesGrow(c: Cluster, log: seq<Write>, i: nat, j: nat)
    requires ValidCluster(c) && LogInv(c, log) && i <= j < |log|
    requires forall k :: i <= k <= j ==> !log[k].request.Release?
    ensures log[i].request.spec.renewTime.value <= log[j].request.spec.renewTime.value
    decreases j - i
  {
    if i == j {
    } else {
      RenewTimesGrow(c, log, i, j - 1);
      assert Follows(log[j - 1].request.spec, log[j]);
      assert WellFormed(c, log[j - 1]);
    }
  }

  lemma {:induction false} HolderChangeWaits(c: Cluster, log: seq<Write>, i: nat, j: nat)
    requires ValidCluster(c) && LogInv(c, log) && i < j < |log|
    requires forall k :: i <= k <= j ==> !log[k].request.Release?
    requires log[i].sender != log[j].sender
    ensures log[i].request.spec.renewTime.value + c[log[i].sender].Duration() <= log[j].request.spec.renewTime.value
    decreases j - i
  {
    assert WellFormed(c, log[i]) && WellFormed(c, log[j]) && WellFormed(c, log[j - 1]);
    assert Follows(log[j - 1].request.spec, log[j]);
    if log[j - 1].sender == log[i].sender {
      RenewTimesGrow(c, log, i, j - 1);
    } else {
      HolderChangeWaits(c, log, i, j - 1);
    }
  }

  /**
   Two writes of different replicas with no release between them have disjoint validity intervals
   [renewTime, renewTime + duration): the later one starts no earlier than the earlier one ends.
   */
  lemma {:induction false} ValidityIntervalsDisjoint(c: Cluster, start: Time, steps: seq<Step>, i: nat, j: nat)
    requires ValidCluster(c)
    requires i < j < |Run(c, start, steps).log|
    requires var log := Run(c, start, steps).log;
      log[i].sender != log[j].sender && forall k :: i <= k <= j ==> !log[k].request.Release?
    ensures var log := Run(c, start, steps).log;
      && log[i].sender in c
      && log[i].request.spec.renewTime.Some? && log[j].request.spec.renewTime.Some?
      && log[i].request.spec.renewTime.value + c[log[i].sender].Duration() <= log[j].request.spec.renewTime.value
  {
    RunKeepsInv(c, start, steps);
    var log := Run(c, start, steps).log;
    assert WellFormed(c, log[i]) && WellFormed(c, log[j]);
    HolderChangeWaits(c, log, i, j);
  }

  // ---------------------------------------------------------------- who leads, and who gives way

  /** Another replica holds the Lease, and at `now` its last renewal has not run out. */
  predicate OtherTenureRuns(c: Cluster, s: State, r: string, now: Time) {
    && s.store.lease.Some?
    && var spec := s.store.lease.value.spec;
    && spec.holder in c && spec.holder != r
    && spec.renewTime.Some? && now < spec.renewTime.value + c[spec.holder].Duration()
  }

  /** In reachable states that is exactly what the elector's own reading of the Lease tells it. */
  lemma ReadsTenureRight(c: Cluster, s: State, r: string, now: Time)
    requires ValidCluster(c) && Inv(c, s) && r in c
    ensures HeldByOther(c[r], s.store.lease, now) <==> OtherTenureRuns(c, s, r, now)
  {
    if s.store.lease.Some? {
      assert WellFormed(c, s.log[|s.log| - 1]);
    }
  }

  /**
   In every reachable state, a replica that reads the Lease is told to follow if and only if another replica's
   tenure is running at its clock reading; otherwise it sends a write of its own.
   */
  lemma {:induction false} FollowsIffOtherTenureRuns(c: Cluster, start: Time, steps: seq<Step>, r: string)
    requires ValidCluster(c) && r in c
    requires r in Run(c, start, steps).phases && Run(c, start, steps).phases[r].ClockRead?
    ensures
      var s := Run(c, start, steps);
      var after := Apply(c, s, GetLease(r));
      var now := s.phases[r].now;
      && (after.phases[r] == Answered(false) <==> OtherTenureRuns(c, s, r, now))
      && (!OtherTenureRuns(c, s, r, now) ==>
            && after.phases[r].Waiting? && after.phases[r].message in after.inflight
            && after.phases[r].message.request.spec.holder == r)
  {
    RunKeepsInv(c, start, steps);
    var s := Run(c, start, steps);
    ReadsTenureRight(c, s, r, s.phases[r].now);
    GivesWayIff(c[r], s.store.lease, s.phases[r].now);
  }

  /** The states of an attempt that nobody disturbs: clock read, Lease read, write delivered. */
  function Asked(c: Cluster, s: State, r: string): State { Apply(c, Apply(c, s, ReadClock(r)), GetLease(r)) }

  function Served(c: Cluster, s: State, r: string): State {
    var asked := Asked(c, s, r);
    if r in asked.phases && asked.phases[r].Waiting? then Apply(c, asked, Deliver(asked.phases[r].message)) else asked
  }

  /**
   From every reachable state, an idle replica whose attempt nobody disturbs is answered that it leads if and only if
   no other replica's tenure is running; so a holder stays leader, and a blank or run-out Lease finds a new one.
   */
  lemma {:induction false} UndisturbedAttemptWinsIff(c: Cluster, start: Time, steps: seq<Step>, r: string)
    requires ValidCluster(c) && r in c && InPhase(Run(c, start, steps), r, Idle)
    ensures
      var s := Run(c, start, steps);
      var served := Served(c, s, r);
      && served.phases[r] == Answered(!OtherTenureRuns(c, s, r, s.clock))
      && (!OtherTenureRuns(c, s, r, s.clock) ==>
            && served.store.lease.Some? && served.store.lease.value.spec.holder == r
            && served.store.lease.value.spec.renewTime == Some(s.clock))
  {
    RunKeepsInv(c, start, steps);
    var s := Run(c, start, steps);
    ReadsTenureRight(c, s, r, s.clock);
    UndisturbedAttemptLeads(c[r], s.store, s.clock);
    var asked := Asked(c, s, r);
    assert asked.store == s.store;
  }

  function Releasing(c: Cluster, s: State, r: string): State {
    Apply(c, Apply(c, s, GetForRelease(r)), ReleaseClock(r))
  }

  /** And the holder's undisturbed release blanks the Lease. */
  lemma {:induction false} UndisturbedReleaseFrees(c: Cluster, start: Time, steps: seq<Step>, r: string)
    requires ValidCluster(c) && r in c && InPhase(Run(c, start, steps), r, Idle)
    requires var lease := Run(c, start, steps).store.lease; lease.Some? && lease.value.spec.holder == r
    ensures
      var sent := Releasing(c, Run(c, start, steps), r);
      && r in sent.phases && sent.phases[r].Waiting?
      && var freed := Apply(c, sent, Deliver(sent.phases[r].message));
      && freed.store.lease.Some? && freed.store.lease.value.spec.holder == ""
  {
    var s := Run(c, start, steps);
    UndisturbedReleaseBlanks(c[r], s.store, s.clock);
  }
}
