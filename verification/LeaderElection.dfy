/** One elector and the Lease object it competes for. */
module LeaderElection {
  import opened Common

  /** The `spec` of a Lease object; absent JSON keys are None, an absent holder is "". */
  datatype LeaseSpec = LeaseSpec(
    holder: string,
    durationSeconds: Option<int>,
    acquireTime: Option<Time>,
    renewTime: Option<Time>,
    transitions: int)

  /** A stored Lease with the resourceVersion the API server gave it. */
  datatype Lease = Lease(version: nat, spec: LeaseSpec)

  /** The API server's view: the Lease, if any, and the last version handed out. */
  datatype Store = Store(lease: Option<Lease>, lastVersion: nat)

  datatype Config = Config(
    identity: string,
    leaseDurationSeconds: int,
    renewIntervalSeconds: int,
    retryIntervalSeconds: int)
  {
    predicate Accepted() {
      && renewIntervalSeconds < leaseDurationSeconds
      && retryIntervalSeconds <= renewIntervalSeconds
    }

    function Duration(): Time { leaseDurationSeconds * SECOND }
  }

  datatype Request =
    | Create(spec: LeaseSpec)
    | Renew(expected: nat, spec: LeaseSpec)
    | TakeOver(expected: nat, spec: LeaseSpec)
    | Release(expected: nat, spec: LeaseSpec)

  datatype Response = Accepted | Missing | Conflict

  datatype LeadershipState = Leader | Follower

  datatype Outcome = Settled(state: LeadershipState) | Error

  function Manifest(cfg: Config, now: Time, holder: string, acquireTime: Option<Time>, transitions: int): LeaseSpec {
    LeaseSpec(holder, Some(cfg.leaseDurationSeconds), acquireTime, Some(now), transitions)
  }

  function EffectiveTime(spec: LeaseSpec): Option<Time> {
    if spec.renewTime.Some? then spec.renewTime else spec.acquireTime
  }

  predicate IsExpired(cfg: Config, spec: LeaseSpec, now: Time) {
    var effective := EffectiveTime(spec);
    var seconds := if spec.durationSeconds.Some? then spec.durationSeconds.value else cfg.leaseDurationSeconds;
    effective.None? || now - effective.value >= seconds * SECOND
  }

  /** What try_acquire_or_renew sends after reading the clock and the Lease; None is the follower answer. */
  function Decide(cfg: Config, lease: Option<Lease>, now: Time): Option<Request> {
    if lease.None? then
      Some(Create(Manifest(cfg, now, cfg.identity, Some(now), 0)))
    else
      var Lease(version, spec) := lease.value;
      if spec.holder == cfg.identity then
        var acquired := if spec.acquireTime.Some? then spec.acquireTime else Some(now);
        Some(Renew(version, Manifest(cfg, now, cfg.identity, acquired, spec.transitions)))
      else if spec.holder == "" || IsExpired(cfg, spec, now) then
        Some(TakeOver(version, Manifest(cfg, now, cfg.identity, Some(now), spec.transitions + 1)))
      else
        None
  }

  /** What release_if_held sends: only the holder writes, and it blanks the holder. */
  function DecideRelease(cfg: Config, lease: Option<Lease>, now: Time): Option<Request> {
    if lease.Some? && lease.value.spec.holder == cfg.identity then
      var Lease(version, spec) := lease.value;
      Some(Release(version, Manifest(cfg, now, "", spec.acquireTime, spec.transitions)))
    else
      None
  }

  /** The API server: creation needs an absent Lease, replacement needs the version the writer read. */
  function Submit(store: Store, request: Request): (Store, Response) {
    var next := store.lastVersion + 1;
    match request
    case Create(spec) =>
      if store.lease.None? then (Store(Some(Lease(next, spec)), next), Accepted) else (store, Conflict)
    case _ =>
      if store.lease.None? then (store, Missing)
      else if store.lease.value.version != request.expected then (store, Conflict)
      else (Store(Some(Lease(next, request.spec)), next), Accepted)
  }

  /** Does the request name the Lease exactly as it is stored now? */
  predicate IsCurrent(store: Store, request: Request) {
    if request.Create? then store.lease.None?
    else store.lease.Some? && store.lease.value.version == request.expected
  }

  /** A request built on something the store held up to its version `seen`. */
  predicate BuiltBy(request: Request, seen: nat) { request.Create? || request.expected <= seen }

  /**
   The register is a compare-and-swap: a request succeeds exactly when it names the current Lease; a refused one
   leaves no trace; an accepted one stores its spec under a version never seen before, and from then on everything
   that was built on an earlier state, a second copy of the same request included, is refused.
   */
  lemma SubmitIsCompareAndSwap(store: Store, request: Request, late: Request)
    ensures var (after, response) := Submit(store, request);
      && (response == Accepted <==> IsCurrent(store, request))
      && (response == Missing <==> !request.Create? && store.lease.None?)
      && (response != Accepted ==> after == store)
      && (response == Accepted ==>
            && after.lease.Some? && after.lease.value.spec == request.spec
            && store.lastVersion < after.lease.value.version == after.lastVersion
            && (BuiltBy(late, store.lastVersion) ==> Submit(after, late) == (after, Conflict)))
  {
  }

  // ---------------------------------------------------------------- when an attempt is made, and what it writes

  /** The stored duration, or the reader's own where the Lease has none. */
  function TenureOf(cfg: Config, spec: LeaseSpec): Time {
    (if spec.durationSeconds.Some? then spec.durationSeconds.value else cfg.leaseDurationSeconds) * SECOND
  }

  /** Somebody else holds the Lease and its tenure, counted from the last renewal, has not run out. */
  predicate HeldByOther(cfg: Config, lease: Option<Lease>, now: Time) {
    && lease.Some? && lease.value.spec.holder !in {"", cfg.identity}
    && var spec := lease.value.spec;
       || (spec.renewTime.Some? && now < spec.renewTime.value + TenureOf(cfg, spec))
       || (spec.renewTime.None? && spec.acquireTime.Some? && now < spec.acquireTime.value + TenureOf(cfg, spec))
  }

  /** An elector gives way if and only if another's tenure is running; a holder always renews. */
  lemma GivesWayIff(cfg: Config, lease: Option<Lease>, now: Time)
    ensures Decide(cfg, lease, now).None? <==> HeldByOther(cfg, lease, now)
  {
  }

  /** What an attempt writes: the elector's own fresh tenure, continuing its old one or counting a takeover. */
  lemma AttemptWrites(cfg: Config, lease: Option<Lease>, now: Time)
    requires Decide(cfg, lease, now).Some?
    ensures
      var request := Decide(cfg, lease, now).value;
      var spec := request.spec;
      && spec.holder == cfg.identity && spec.renewTime == Some(now)
      && spec.durationSeconds == Some(cfg.leaseDurationSeconds)
      && (request.Create? <==> lease.None?)
      && (lease.None? ==> spec.acquireTime == Some(now) && spec.transitions == 0)
      && (lease.Some? ==>
            var old' := lease.value.spec;
            && !request.Release? && request.expected == lease.value.version
            && (request.Renew? <==> old'.holder == cfg.identity)
            && (request.Renew? ==>
                  && spec.transitions == old'.transitions
                  && (old'.acquireTime.Some? ==> spec.acquireTime == old'.acquireTime))
            && (request.TakeOver? ==> spec.acquireTime == Some(now) && spec.transitions == old'.transitions + 1))
  {
  }

  /** Undisturbed, an attempt leads if and only if nobody else's tenure is running. */
  lemma UndisturbedAttemptLeads(cfg: Config, store: Store, now: Time)
    ensures
      var request := Decide(cfg, store.lease, now);
      && (request.None? <==> HeldByOther(cfg, store.lease, now))
      && (request.Some? ==>
            var (after, response) := Submit(store, request.value);
            && response == Accepted && after.lease.Some?
            && after.lease.value.spec.holder == cfg.identity && after.lease.value.spec.renewTime == Some(now))
  {
  }

  /** Undisturbed, a release blanks the Lease of its holder, who alone writes; tenure history is kept. */
  lemma UndisturbedReleaseBlanks(cfg: Config, store: Store, now: Time)
    ensures
      var request := DecideRelease(cfg, store.lease, now);
      && (request.Some? <==> store.lease.Some? && store.lease.value.spec.holder == cfg.identity)
      && (request.Some? ==>
            var (after, response) := Submit(store, request.value);
            && response == Accepted && after.lease.Some?
            && after.lease.value.spec.holder == ""
            && after.lease.value.spec.transitions == store.lease.value.spec.transitions
            && after.lease.value.spec.acquireTime == store.lease.value.spec.acquireTime)
  {
  }

  class LeaseStore {
    var state: Store

    constructor (state: Store)
      ensures this.state == state
    {
      this.state := state;
    }

    method Get() returns (lease: Option<Lease>)
      ensures lease == state.lease
    {
      lease := state.lease;
    }

    method Put(request: Request) returns (response: Response)
      modifies this
      ensures (state, response) == Submit(old(state), request)
    {
      var (next, answer) := Submit(state, request);
      state := next;
      response := answer;
    }
  }

  /**
   Where an API call can fail; `ResponseLost` is a write that took effect but whose answer never came. A failing
   write is reported as an error status of the server (`leaseError`), or as an error of the HTTP client.
   */
  datatype Fault = NoFault | GetFails | PutFails(leaseError: bool) | ResponseLost(leaseError: bool)

  class LeaderElector {
    const cfg: Config
    var isLeader: bool

    constructor (cfg: Config)
      requires cfg.Accepted()
      ensures this.cfg == cfg && !isLeader
    {
      this.cfg := cfg;
      this.isLeader := false;
    }

    /** The checks of the constructor: a bad interval choice yields no elector. */
    static method Build(cfg: Config) returns (elector: LeaderElector?)
      ensures elector != null <==> cfg.Accepted()
      ensures elector != null ==> fresh(elector) && elector.cfg == cfg && !elector.isLeader
    {
      if cfg.renewIntervalSeconds >= cfg.leaseDurationSeconds { return null; }
      if cfg.retryIntervalSeconds > cfg.renewIntervalSeconds { return null; }
      elector := new LeaderElector(cfg);
    }

    /** One attempt. `meanwhile` is what the other replicas left in the store between the read and the write. */
    method TryAcquireOrRenew(store: LeaseStore, now: Time, meanwhile: Store, fault: Fault) returns (outcome: Outcome)
      modifies this, store
      ensures fault == GetFails ==>
        outcome == Error && store.state == old(store.state) && isLeader == old(isLeader)
      ensures fault != GetFails ==>
        var request := Decide(cfg, old(store.state).lease, now);
        if request.None? then
          outcome == Settled(Follower) && store.state == meanwhile && !isLeader
        else
          var (written, response) := Submit(meanwhile, request.value);
          if fault.PutFails? then
            outcome == Error && store.state == meanwhile && isLeader == old(isLeader)
          else if fault.ResponseLost? then
            outcome == Error && store.state == written && isLeader == old(isLeader)
          else
            && store.state == written
            && outcome == Settled(if response == Accepted then Leader else Follower)
            && isLeader == (response == Accepted)
      ensures fault == NoFault && meanwhile == old(store.state) ==>
        && (outcome == Settled(Leader) <==> !HeldByOther(cfg, old(store.state).lease, now))
        && (outcome == Settled(Follower) <==> HeldByOther(cfg, old(store.state).lease, now))
        && (outcome == Settled(Leader) ==>
              store.state.lease.Some? && store.state.lease.value.spec.holder == cfg.identity)
    {
      UndisturbedAttemptLeads(cfg, store.state, now);
      if fault == GetFails { return Error; }
      var lease := store.Get();
      var request := Decide(cfg, lease, now);
      store.state := meanwhile;
      if request.None? {
        isLeader := false;
        return Settled(Follower);
      }
      if fault.PutFails? { return Error; }
      var response := store.Put(request.value);
      if fault.ResponseLost? { return Error; }
      if response == Accepted {
        isLeader := true;
        return Settled(Leader);
      }
      isLeader := false;
      return Settled(Follower);
    }

    /**
     Release: the holder blanks the Lease; anyone else leaves the store alone. Lease errors of the write are
     swallowed, other errors escape, and either way the elector no longer believes it leads.
     */
    method ReleaseIfHeld(store: LeaseStore, now: Time, meanwhile: Store, fault: Fault) returns (raised: bool)
      modifies this, store
      ensures fault == GetFails ==> raised && store.state == old(store.state) && isLeader == old(isLeader)
      ensures fault != GetFails ==>
        var request := DecideRelease(cfg, old(store.state).lease, now);
        && !isLeader
        && store.state == (if request.None? || fault.PutFails? then meanwhile else Submit(meanwhile, request.value).0)
        && (raised <==> request.Some? && (fault.PutFails? || fault.ResponseLost?) && !fault.leaseError)
      ensures fault == NoFault && meanwhile == old(store.state) ==>
        if old(store.state).lease.Some? && old(store.state).lease.value.spec.holder == cfg.identity
        then store.state.lease.Some? && store.state.lease.value.spec.holder == ""
        else store.state == old(store.state)
    {
      UndisturbedReleaseBlanks(cfg, store.state, now);
      if fault == GetFails { return true; }
      var lease := store.Get();
      store.state := meanwhile;
      var request := DecideRelease(cfg, lease, now);
      raised := false;
      if request.Some? {
        if !fault.PutFails? {
          var _ := store.Put(request.value);
        }
        raised := (fault.PutFails? || fault.ResponseLost?) && !fault.leaseError;
      }
      isLeader := false;
    }
  }
}
