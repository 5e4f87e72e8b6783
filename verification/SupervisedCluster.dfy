/**
 Every replica runs its supervisor over the election protocol. Starting and stopping tasks, sleeping,
 shutting down and crashing interleave with the election steps of all replicas.
 */
module SupervisedCluster {
  import opened Common
  import opened LeaderElection
  import E = ElectionProtocol
  import opened SyncSupervisor

  datatype Stage = Sleeping | Attempting | Stopping | ShuttingDown | Releasing | Down

  /**
   `deadline` is the end of the validity won by the last write this supervisor knows it is waiting on or
   acting on: it is set when that write is accepted and dropped when every task has been stopped.
   */
  datatype Replica = Replica(stage: Stage, tasks: set<Kind>, deadline: Option<Time>)

  datatype State = State(election: E.State, replicas: map<string, Replica>)

  datatype Step =
    | Tick(to: Time)
    | Deliver(m: E.Message)
    | Lose(m: E.Message)
    | Wake(r: string)
    | ReadLease(r: string)
    | Fail(r: string)
    | Finish(r: string, hasSessions: bool)
    | TaskEnds(r: string, kind: Kind)
    | StopDone(r: string)
    | BeginShutdown(r: string)
    | BeginRelease(r: string)
    | SendRelease(r: string)
    | EndRelease(r: string)
    | Crash(r: string)

  function Init(c: E.Cluster, start: Time): State {
    State(E.Init(c, start), map r | r in c :: Replica(Sleeping, {}, None))
  }

  function Put(s: State, election: E.State, r: string, replica: Replica): State {
    State(election, s.replicas[r := replica])
  }

  predicate At(s: State, r: string, stage: Stage) {
    r in s.replicas && s.replicas[r].stage == stage && r in s.election.phases
  }

  /** The replica whose supervisor learns of its victory when `m` is accepted. */
  predicate Wins(s: State, m: E.Message) {
    && m in s.election.inflight && E.Accepts(s.election, m) && !m.request.Release?
    && At(s, m.sender, Attempting) && E.InPhase(s.election, m.sender, E.Waiting(m))
  }

  function Apply(c: E.Cluster, s: State, step: Step): State {
    match step
    case Tick(to) => s.(election := E.Apply(c, s.election, E.Tick(to)))
    case Lose(m) => s.(election := E.Apply(c, s.election, E.Lose(m)))
    case Deliver(m) =>
      var election := E.Apply(c, s.election, E.Deliver(m));
      if Wins(s, m) then
        Put(s, election, m.sender, s.replicas[m.sender].(deadline := Some(m.now + E.Duration(m.request.spec))))
      else s.(election := election)
    case Wake(r) =>
      if At(s, r, Sleeping) then
        Put(s, E.Apply(c, s.election, E.ReadClock(r)), r, s.replicas[r].(stage := Attempting))
      else s
    case ReadLease(r) =>
      if At(s, r, Attempting) then s.(election := E.Apply(c, s.election, E.GetLease(r))) else s
    case Fail(r) =>
      if At(s, r, Attempting) then
        Put(s, E.Apply(c, s.election, E.Abandon(r)), r, s.replicas[r].(stage := Stopping))
      else s
    case Finish(r, hasSessions) =>
      if At(s, r, Attempting) && s.election.phases[r].Answered? then
        var election := E.Apply(c, s.election, E.Return(r));
        if s.election.phases[r].won then
          var tasks := if hasSessions then {Sync, Metering, Lifecycle, Snapshot} else {Sync};
          Put(s, election, r, s.replicas[r].(stage := Sleeping, tasks := s.replicas[r].tasks + tasks))
        else
          Put(s, election, r, s.replicas[r].(stage := Stopping))
      else s
    case TaskEnds(r, kind) =>
      if r in s.replicas then
        Put(s, s.election, r, s.replicas[r].(tasks := s.replicas[r].tasks - {kind}))
      else s
    case StopDone(r) =>
      if At(s, r, Stopping) && s.replicas[r].tasks == {} then
        Put(s, s.election, r, Replica(Sleeping, {}, None))
      else s
    case BeginShutdown(r) =>
      if At(s, r, Sleeping) then Put(s, s.election, r, s.replicas[r].(stage := ShuttingDown)) else s
    case BeginRelease(r) =>
      if At(s, r, ShuttingDown) && s.replicas[r].tasks == {} then
        Put(s, E.Apply(c, s.election, E.GetForRelease(r)), r, Replica(Releasing, {}, None))
      else s
    case SendRelease(r) =>
      if At(s, r, Releasing) then s.(election := E.Apply(c, s.election, E.ReleaseClock(r))) else s
    case EndRelease(r) =>
      if At(s, r, Releasing) then
        Put(s, E.Apply(c, s.election, E.Abandon(r)), r, s.replicas[r].(stage := Down))
      else s
    case Crash(r) =>
      if r in s.replicas then
        Put(s, E.Apply(c, s.election, E.Abandon(r)), r, Replica(Sleeping, {}, None))
      else s
  }

  function Run(c: E.Cluster, start: Time, steps: seq<Step>): State {
    if steps == [] then Init(c, start)
    else Apply(c, Run(c, start, steps[..|steps| - 1]), steps[|steps| - 1])
  }

  // ---------------------------------------------------------------- invariant

  ghost predicate DeadlineInv(c: E.Cluster, s: State, r: string)
    requires r in s.replicas && r in c
  {
    s.replicas[r].deadline.Some? ==>
      var deadline := s.replicas[r].deadline.value;
      && r in s.election.claims
      && deadline <= s.election.claims[r].renewTime + s.election.claims[r].duration
      && deadline <= s.election.clock + c[r].Duration()
      && (r in s.election.phases && s.election.phases[r].ClockRead? ==>
            deadline <= s.election.phases[r].now + c[r].Duration())
      && (forall m :: m in s.election.inflight && m.sender == r && E.Accepts(s.election, m) ==>
            !m.request.Release? && deadline <= m.now + E.Duration(m.request.spec))
  }

  ghost predicate StageInv(s: State, r: string)
    requires r in s.replicas && r in s.election.phases
  {
    var replica := s.replicas[r];
    var phase := s.election.phases[r];
    && (replica.tasks != {} ==> replica.deadline.Some?)
    && match replica.stage
       case Attempting =>
         && (phase.ClockRead? || (phase.Waiting? && !phase.message.request.Release?) || phase.Answered?)
         && (phase == E.Answered(true) ==> replica.deadline.Some?)
       case Releasing =>
         && replica.tasks == {} && replica.deadline.None?
         && !phase.ClockRead?
       case Down => phase.Idle? && replica.tasks == {} && replica.deadline.None?
       case _ => phase.Idle?
  }

  ghost predicate Inv(c: E.Cluster, s: State) {
    && E.Inv(c, s.election)
    && s.replicas.Keys == s.election.phases.Keys == c.Keys
    && (forall r :: r in c ==> DeadlineInv(c, s, r) && StageInv(s, r))
  }

  ghost predicate ReplicaInv(c: E.Cluster, s: State, r: string) {
    && s.replicas.Keys == s.election.phases.Keys == c.Keys
    && r in c && DeadlineInv(c, s, r) && StageInv(s, r)
  }

  /** A step that leaves the store alone and sends nothing for `r` keeps the deadline facts of `r`. */
  lemma DeadlineFrame(c: E.Cluster, s: State, s': State, r: string)
    requires r in c && r in s.replicas && r in s'.replicas && DeadlineInv(c, s, r)
    requires s'.replicas[r].deadline == s.replicas[r].deadline
    requires s'.election.store == s.election.store && s'.election.claims == s.election.claims
    requires s.election.clock <= s'.election.clock
    requires forall m :: m in s'.election.inflight && m.sender == r ==> m in s.election.inflight
    requires r in s'.election.phases && s'.election.phases[r].ClockRead? ==>
      || s'.election.phases[r].now == s.election.clock
      || (r in s.election.phases && s'.election.phases[r] == s.election.phases[r])
    ensures DeadlineInv(c, s', r)
  {
  }

  /** Steps that do not touch the election state at all, or only its clock and its wire. */
  predicate IsOutside(step: Step) {
    step.Tick? || step.Lose? || step.TaskEnds? || step.StopDone? || step.BeginShutdown?
  }

  lemma OutsideStepKeepsReplica(c: E.Cluster, s: State, step: Step, q: string)
    requires ReplicaInv(c, s, q) && IsOutside(step)
    ensures ReplicaInv(c, Apply(c, s, step), q)
  {
    var s' := Apply(c, s, step);
    if s'.replicas[q].deadline == s.replicas[q].deadline {
      DeadlineFrame(c, s, s', q);
    }
  }

  lemma AttemptStepKeepsReplica(c: E.Cluster, s: State, step: Step, q: string)
    requires ReplicaInv(c, s, q) && (step.Wake? || step.Fail? || step.Finish?)
    ensures ReplicaInv(c, Apply(c, s, step), q)
  {
    DeadlineFrame(c, s, Apply(c, s, step), q);
  }

  lemma ExitStepKeepsReplica(c: E.Cluster, s: State, step: Step, q: string)
    requires ReplicaInv(c, s, q) && (step.BeginRelease? || step.EndRelease? || step.Crash?)
    ensures ReplicaInv(c, Apply(c, s, step), q)
  {
    var s' := Apply(c, s, step);
    if s'.replicas[q].deadline == s.replicas[q].deadline {
      DeadlineFrame(c, s, s', q);
    }
  }

  lemma SendReleaseKeepsReplica(c: E.Cluster, s: State, r: string, q: string)
    requires ReplicaInv(c, s, q)
    ensures ReplicaInv(c, Apply(c, s, SendRelease(r)), q)
  {
    var s' := Apply(c, s, SendRelease(r));
    if q != r {
      DeadlineFrame(c, s, s', q);
    }
  }

  lemma ReadLeaseKeepsReplica(c: E.Cluster, s: State, r: string, q: string)
    requires ReplicaInv(c, s, q)
    ensures ReplicaInv(c, Apply(c, s, ReadLease(r)), q)
  {
    var s' := Apply(c, s, ReadLease(r));
    if q != r {
      DeadlineFrame(c, s, s', q);
    }
  }

  lemma RefusedDeliveryKeepsReplica(c: E.Cluster, s: State, m: E.Message, q: string)
    requires ReplicaInv(c, s, q)
    requires m !in s.election.inflight || !E.Accepts(s.election, m)
    ensures ReplicaInv(c, Apply(c, s, Deliver(m)), q)
  {
    DeadlineFrame(c, s, Apply(c, s, Deliver(m)), q);
  }

  /** What an accepted write changes in the election state, seen from replica `q`. */
  lemma AcceptedDeliveryEffect(c: E.Cluster, s: E.State, m: E.Message, q: string)
    requires m in s.inflight && E.Accepts(s, m)
    requires forall other :: other in s.inflight ==> !E.Accepts(E.Commit(s, m), other)
    ensures var s' := E.Apply(c, s, E.Deliver(m));
      && s'.clock == s.clock
      && (forall other :: other in s'.inflight ==> !E.Accepts(s', other))
      && (q != m.sender ==> (q in s'.claims <==> q in s.claims) && (q in s.claims ==> s'.claims[q] == s.claims[q]))
      && (q == m.sender && !m.request.Release? ==>
            q in s'.claims && s'.claims[q] == E.Claim(m.now, E.Duration(m.request.spec)))
      && s'.phases.Keys == s.phases.Keys
      && (q in s.phases ==>
            s'.phases[q] == if q == m.sender && s.phases[q] == E.Waiting(m) then E.Answered(true) else s.phases[q])
  {
    var s' := E.Apply(c, s, E.Deliver(m));
    assert s'.store == E.Commit(s, m).store;
    forall other | other in s'.inflight
      ensures !E.Accepts(s', other)
    {
      assert !E.Accepts(E.Commit(s, m), other);
    }
  }

  lemma AcceptedDeliveryKeepsReplica(c: E.Cluster, s: State, m: E.Message, q: string)
    requires ReplicaInv(c, s, q)
    requires m in s.election.inflight && E.Accepts(s.election, m)
    requires E.Duration(m.request.spec) == (if m.sender in c then c[m.sender].Duration() else 0)
    requires m.now <= s.election.clock
    requires forall other :: other in s.election.inflight ==> !E.Accepts(E.Commit(s.election, m), other)
    ensures ReplicaInv(c, Apply(c, s, Deliver(m)), q)
  {
    var s' := Apply(c, s, Deliver(m));
    AcceptedDeliveryEffect(c, s.election, m, q);
    assert s'.election == E.Apply(c, s.election, E.Deliver(m));
    if Wins(s, m) {
      assert s'.replicas.Keys == s.replicas.Keys;
    }
  }

  function ElectionStep(step: Step): Option<E.Step> {
    match step
    case Tick(to) => Some(E.Tick(to))
    case Deliver(m) => Some(E.Deliver(m))
    case Lose(m) => Some(E.Lose(m))
    case Wake(r) => Some(E.ReadClock(r))
    case ReadLease(r) => Some(E.GetLease(r))
    case Fail(r) => Some(E.Abandon(r))
    case Finish(r, _) => Some(E.Return(r))
    case BeginRelease(r) => Some(E.GetForRelease(r))
    case SendRelease(r) => Some(E.ReleaseClock(r))
    case EndRelease(r) => Some(E.Abandon(r))
    case Crash(r) => Some(E.Abandon(r))
    case _ => None
  }

  /** The cluster makes the election protocol's own steps, one at a time. */
  lemma ElectionMovesByItsOwnSteps(c: E.Cluster, s: State, step: Step)
    ensures
      || Apply(c, s, step).election == s.election
      || (ElectionStep(step).Some? && Apply(c, s, step).election == E.Apply(c, s.election, ElectionStep(step).value))
  {
  }

  lemma StepKeepsReplica(c: E.Cluster, s: State, step: Step, q: string)
    requires Inv(c, s) && q in c
    ensures ReplicaInv(c, Apply(c, s, step), q)
  {
    assert ReplicaInv(c, s, q);
    match step
    case ReadLease(r) => ReadLeaseKeepsReplica(c, s, r, q);
    case SendRelease(r) => SendReleaseKeepsReplica(c, s, r, q);
    case Deliver(m) =>
      if m in s.election.inflight && E.Accepts(s.election, m) {
        forall other | other in s.election.inflight
          ensures !E.Accepts(E.Commit(s.election, m), other)
        {
          E.CommitOutdatesMessages(c, s.election, m, other);
        }
        assert E.MessageInv(c, s.election, m);
        AcceptedDeliveryKeepsReplica(c, s, m, q);
      } else {
        RefusedDeliveryKeepsReplica(c, s, m, q);
      }
    case Wake(_) => AttemptStepKeepsReplica(c, s, step, q);
    case Fail(_) => AttemptStepKeepsReplica(c, s, step, q);
    case Finish(_, _) => AttemptStepKeepsReplica(c, s, step, q);
    case BeginRelease(_) => ExitStepKeepsReplica(c, s, step, q);
    case EndRelease(_) => ExitStepKeepsReplica(c, s, step, q);
    case Crash(_) => ExitStepKeepsReplica(c, s, step, q);
    case _ => OutsideStepKeepsReplica(c, s, step, q);
  }

  lemma StepKeepsInv(c: E.Cluster, s: State, step: Step)
    requires E.ValidCluster(c) && Inv(c, s)
    ensures Inv(c, Apply(c, s, step))
  {
    ElectionMovesByItsOwnSteps(c, s, step);
    if ElectionStep(step).Some? {
      E.StepKeepsInv(c, s.election, ElectionStep(step).value);
    }
    forall q | q in c
      ensures ReplicaInv(c, Apply(c, s, step), q)
    {
      StepKeepsReplica(c, s, step, q);
    }
    if c == map[] {
      KeysKept(c, s, step);
    }
  }

  lemma KeysKept(c: E.Cluster, s: State, step: Step)
    requires s.replicas.Keys == s.election.phases.Keys == c.Keys == {}
    ensures Apply(c, s, step).replicas.Keys == Apply(c, s, step).election.phases.Keys == c.Keys
  {
  }

  lemma {:induction false} RunKeepsInv(c: E.Cluster, start: Time, steps: seq<Step>)
    requires E.ValidCluster(c)
    ensures Inv(c, Run(c, start, steps))
  {
    if steps == [] {
    } else {
      var s := Run(c, start, steps[..|steps| - 1]);
      var step := steps[|steps| - 1];
      RunKeepsInv(c, start, steps[..|steps| - 1]);
      StepKeepsInv(c, s, step);
    }
  }

  // ---------------------------------------------------------------- results over every run

  /** The replica has not let the validity of its last victory pass before renewing or stopping its tasks. */
  predicate OnTime(s: State, r: string) {
    r in s.replicas && (s.replicas[r].deadline.Some? ==> s.election.clock < s.replicas[r].deadline.value)
  }

  predicate RunsTasks(s: State, r: string) {
    r in s.replicas && s.replicas[r].tasks != {}
  }

  /** In every reachable state at most one of the replicas that are on time runs any background task. */
  lemma {:induction false} AtMostOneReplicaRunsTasks(c: E.Cluster, start: Time, steps: seq<Step>, a: string, b: string)
    requires E.ValidCluster(c)
    requires var s := Run(c, start, steps);
      RunsTasks(s, a) && RunsTasks(s, b) && OnTime(s, a) && OnTime(s, b)
    ensures a == b
  {
    var s := Run(c, start, steps);
    RunKeepsInv(c, start, steps);
    assert StageInv(s, a) && StageInv(s, b) && DeadlineInv(c, s, a) && DeadlineInv(c, s, b);
    E.LiveClaimsCoincide(c, s.election, a, b);
  }

  /** A replica that is releasing the Lease, or is down, runs nothing. */
  lemma {:induction false} NoTaskDuringRelease(c: E.Cluster, start: Time, steps: seq<Step>, r: string)
    requires E.ValidCluster(c)
    requires var s := Run(c, start, steps); At(s, r, Releasing) || At(s, r, Down)
    ensures !RunsTasks(Run(c, start, steps), r)
  {
    RunKeepsInv(c, start, steps);
    assert StageInv(Run(c, start, steps), r);
  }

  /** How an attempt ends: an error or a lost election sends the replica to stop its tasks, a victory starts them. */
  lemma AttemptEnds(c: E.Cluster, s: State, r: string, hasSessions: bool)
    requires At(s, r, Attempting)
    ensures At(Apply(c, s, Fail(r)), r, Stopping)
    ensures s.election.phases[r] == E.Answered(false) ==> At(Apply(c, s, Finish(r, hasSessions)), r, Stopping)
    ensures s.election.phases[r] == E.Answered(true) ==>
      var after := Apply(c, s, Finish(r, hasSessions));
      At(after, r, Sleeping) && Sync in after.replicas[r].tasks
      && (hasSessions ==> {Sync, Metering, Lifecycle, Snapshot} <= after.replicas[r].tasks)
  {
  }

  /** A stopping replica starts nothing, and leaves that stage only with all its tasks ended. */
  lemma StoppingEndsEmpty(c: E.Cluster, s: State, step: Step, r: string)
    requires r in s.replicas && s.replicas[r].stage == Stopping
    ensures
      var after := Apply(c, s, step).replicas;
      && r in after
      && after[r].tasks <= s.replicas[r].tasks
      && (after[r].stage == Stopping || after[r].tasks == {})
  {
  }

  /**
   Whatever happens after a lost or failed attempt, until the replica has once been without any task it is still
   stopping and runs only what was left from before.
   */
  lemma {:induction false} LoserStopsFirst(c: E.Cluster, s: State, more: seq<Step>, r: string)
    requires r in s.replicas && s.replicas[r].stage == Stopping
    requires forall k :: 0 <= k <= |more| ==> RunsTasks(After(c, s, more[..k]), r)
    ensures
      var after := After(c, s, more).replicas;
      r in after && after[r].stage == Stopping && after[r].tasks <= s.replicas[r].tasks
  {
    assert more[..|more|] == more;
    if more == [] {
    } else {
      var front := more[..|more| - 1];
      assert forall k :: 0 <= k <= |front| ==> front[..k] == more[..k];
      LoserStopsFirst(c, s, front, r);
      StoppingEndsEmpty(c, After(c, s, front), more[|more| - 1], r);
    }
  }

  // ---------------------------------------------------------------- a late replica

  /** A whole attempt of `r`: it wakes, reads the Lease, its write arrives, and it acts on the answer. */
  function Attempt(s: State, r: string, request: Request): seq<Step> {
    [Wake(r), ReadLease(r), Deliver(E.Message(r, s.election.clock, request)), Finish(r, true)]
  }

  function After(c: E.Cluster, s: State, steps: seq<Step>): State {
    if steps == [] then s else Apply(c, After(c, s, steps[..|steps| - 1]), steps[|steps| - 1])
  }

  lemma {:induction false} RunThenAfter(c: E.Cluster, start: Time, first: seq<Step>, more: seq<Step>)
    ensures Run(c, start, first + more) == After(c, Run(c, start, first), more)
  {
    if more == [] {
      assert first + more == first;
    } else {
      var all := first + more;
      assert all[..|all| - 1] == first + more[..|more| - 1];
      RunThenAfter(c, start, first, more[..|more| - 1]);
    }
  }

  lemma {:induction false} AfterFour(c: E.Cluster, s: State, w: Step, x: Step, y: Step, z: Step)
    ensures After(c, s, [w, x, y, z]) == Apply(c, Apply(c, Apply(c, Apply(c, s, w), x), y), z)
  {
    var all := [w, x, y, z];
    assert all[..3] == [w, x, y] && [w, x, y][..2] == [w, x] && [w, x][..1] == [w] && [w][..0] == [];
    assert After(c, s, [w]) == Apply(c, s, w);
    assert After(c, s, [w, x]) == Apply(c, After(c, s, [w]), x);
    assert After(c, s, [w, x, y]) == Apply(c, After(c, s, [w, x]), y);
  }

  /** Everything about the replicas other than `r` is as it was. */
  ghost predicate OthersKept(s: State, s': State, r: string) {
    && s'.election.clock == s.election.clock
    && (forall q :: q != r && q in s.replicas ==> q in s'.replicas && s'.replicas[q] == s.replicas[q])
    && (forall q :: q != r && q in s.election.phases ==>
          q in s'.election.phases && s'.election.phases[q] == s.election.phases[q])
  }

  lemma {:induction false} AttemptAsks(c: E.Cluster, s: State, r: string, request: Request)
    requires r in c && At(s, r, Sleeping) && E.InPhase(s.election, r, E.Idle)
    requires Decide(c[r], s.election.store.lease, s.election.clock) == Some(request)
    ensures
      var m := E.Message(r, s.election.clock, request);
      var asked := Apply(c, Apply(c, s, Wake(r)), ReadLease(r));
      && At(asked, r, Attempting) && E.InPhase(asked.election, r, E.Waiting(m)) && m in asked.election.inflight
      && asked.election.store == s.election.store && OthersKept(s, asked, r)
  {
    var woken := Apply(c, s, Wake(r));
    assert woken.election.phases[r] == E.ClockRead(s.election.clock) && woken.replicas[r].stage == Attempting;
  }

  lemma {:induction false} AnswerStartsTasks(c: E.Cluster, s: State, r: string, m: E.Message)
    requires m.sender == r && At(s, r, Attempting) && E.InPhase(s.election, r, E.Waiting(m)) && m in s.election.inflight
    requires E.Accepts(s.election, m)
    ensures
      var won := Apply(c, Apply(c, s, Deliver(m)), Finish(r, true));
      && RunsTasks(won, r) && OthersKept(s, won, r)
      && won.election.store == Submit(s.election.store, m.request).0
  {
    var answered := Apply(c, s, Deliver(m));
    assert answered.election.phases[r] == E.Answered(true) && answered.replicas[r].stage == Attempting;
    assert Sync in Apply(c, answered, Finish(r, true)).replicas[r].tasks;
  }

  /** Undisturbed, an attempt whose write the server accepts ends with tasks running and nobody else touched. */
  lemma {:induction false} AttemptWins(c: E.Cluster, s: State, r: string, request: Request)
    requires r in c && At(s, r, Sleeping) && E.InPhase(s.election, r, E.Idle)
    requires Decide(c[r], s.election.store.lease, s.election.clock) == Some(request)
    requires Submit(s.election.store, request).1 == Accepted
    ensures var won := After(c, s, Attempt(s, r, request));
      && RunsTasks(won, r) && OthersKept(s, won, r)
      && won.election.store == Submit(s.election.store, request).0
  {
    var m := E.Message(r, s.election.clock, request);
    AfterFour(c, s, Wake(r), ReadLease(r), Deliver(m), Finish(r, true));
    AttemptAsks(c, s, r, request);
    AnswerStartsTasks(c, Apply(c, Apply(c, s, Wake(r)), ReadLease(r)), r, m);
  }

  /** Some continuation of the run makes both replicas run tasks. */
  ghost predicate CanOverlap(c: E.Cluster, start: Time, steps: seq<Step>, a: string, b: string) {
    exists more :: BothRun(Run(c, start, steps + more), a, b)
  }

  predicate BothRun(s: State, a: string, b: string) { RunsTasks(s, a) && RunsTasks(s, b) }

  /** Once the stored tenure has run out, whoever holds it, a sleeping replica's attempt would be accepted. */
  lemma {:induction false} ExpiredLeaseIsWinnable(c: E.Cluster, s: State, b: string)
    requires E.ValidCluster(c) && Inv(c, s) && b in c && s.election.store.lease.Some?
    requires s.election.store.lease.value.spec.renewTime.Some?
    requires var spec := s.election.store.lease.value.spec;
      spec.renewTime.value + E.Duration(spec) <= s.election.clock
    ensures var request := Decide(c[b], s.election.store.lease, s.election.clock);
      request.Some? && Submit(s.election.store, request.value).1 == Accepted
  {
    assert E.WellFormed(c, s.election.log[|s.election.log| - 1]);
  }

  /** `a` runs tasks, and the sleeping `b` would win if it tried now. */
  ghost predicate Joinable(c: E.Cluster, s: State, a: string, b: string) {
    && b in c && RunsTasks(s, a) && At(s, b, Sleeping) && E.InPhase(s.election, b, E.Idle)
    && var request := Decide(c[b], s.election.store.lease, s.election.clock);
    && request.Some? && Submit(s.election.store, request.value).1 == Accepted
  }

  /** Waiting until the stored tenure has run out touches no replica. */
  lemma {:induction false} WaitOut(c: E.Cluster, start: Time, steps: seq<Step>, a: string, b: string) returns (to: Time)
    requires E.ValidCluster(c)
    requires var s := Run(c, start, steps); RunsTasks(s, a) && At(s, b, Sleeping)
    ensures Joinable(c, Run(c, start, steps + [Tick(to)]), a, b)
  {
    var s := Run(c, start, steps);
    RunKeepsInv(c, start, steps);
    assert ReplicaInv(c, s, a) && ReplicaInv(c, s, b);
    assert E.WellFormed(c, s.election.log[|s.election.log| - 1]);
    var spec := s.election.store.lease.value.spec;
    to := Max(s.election.clock, spec.renewTime.value + E.Duration(spec));
    var all := steps + [Tick(to)];
    assert all[..|all| - 1] == steps;
    RunKeepsInv(c, start, all);
    ExpiredLeaseIsWinnable(c, Run(c, start, all), b);
  }

  lemma {:induction false} AttemptJoins(c: E.Cluster, s: State, a: string, b: string) returns (attempt: seq<Step>)
    requires a != b && Joinable(c, s, a, b)
    ensures BothRun(After(c, s, attempt), a, b)
  {
    var request := Decide(c[b], s.election.store.lease, s.election.clock).value;
    AttemptWins(c, s, b, request);
    attempt := Attempt(s, b, request);
  }

  lemma {:induction false} JoinableCanOverlap(c: E.Cluster, start: Time, steps: seq<Step>, a: string, b: string)
    requires a != b && Joinable(c, Run(c, start, steps), a, b)
    ensures CanOverlap(c, start, steps, a, b)
  {
    var attempt := AttemptJoins(c, Run(c, start, steps), a, b);
    RunThenAfter(c, start, steps, attempt);
    assert BothRun(Run(c, start, steps + attempt), a, b);
  }

  /**
   The timing condition is needed wherever the cluster may be: from every reachable state in which one replica runs
   tasks and another sleeps, the first need only neither renew nor stop in time, and the other, taking over by the
   rules, runs tasks beside it.
   */
  lemma {:induction false} LateLeaderOverlaps(c: E.Cluster, start: Time, steps: seq<Step>, a: string, b: string)
    requires E.ValidCluster(c) && a != b
    requires var s := Run(c, start, steps); RunsTasks(s, a) && At(s, b, Sleeping)
    ensures CanOverlap(c, start, steps, a, b)
  {
    var to := WaitOut(c, start, steps, a, b);
    var waited := steps + [Tick(to)];
    JoinableCanOverlap(c, start, waited, a, b);
    var attempt :| BothRun(Run(c, start, waited + attempt), a, b);
    assert waited + attempt == steps + ([Tick(to)] + attempt);
  }

  /** So in every cluster, any two replicas can come to run tasks together. */
  lemma {:induction false} OverlapIsReachable(c: E.Cluster, start: Time, a: string, b: string)
    requires E.ValidCluster(c) && a in c && b in c && a != b
    ensures exists steps :: BothRun(Run(c, start, steps), a, b)
  {
    var s := Run(c, start, []);
    var created := Create(Manifest(c[a], start, a, Some(start), 0));
    AttemptWins(c, s, a, created);
    var first := Attempt(s, a, created);
    RunThenAfter(c, start, [], first);
    assert [] + first == first;
    LateLeaderOverlaps(c, start, first, a, b);
    var more :| BothRun(Run(c, start, first + more), a, b);
  }
}
