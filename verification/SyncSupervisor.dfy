/** One replica's supervisor: the election loop, its four background tasks and its shutdown. */
module SyncSupervisor {
  import opened Common
  import opened LeaderElection

  datatype Kind = Sync | Metering | Lifecycle | Snapshot

  const STOP_ORDER: seq<Kind> := [Sync, Metering, Lifecycle, Snapshot]

  /** How a task ends: by returning, by honouring cancellation, or with an exception of its own. */
  datatype Ending = Returned | Cancelled | Raised

  datatype Task = Pending(whenCancelled: Ending) | Done(ending: Ending)
  {
    /** What awaiting the task after `cancel()` yields. */
    function Awaited(): Ending { if Pending? then whenCancelled else ending }
  }

  /** The occupied slots; a missing key is a slot holding None. */
  type Slots = map<Kind, Task>

  datatype Event = Spawned(kind: Kind) | Ended(kind: Kind) | Released

  function Running(events: seq<Event>): set<Kind> {
    if events == [] then {}
    else
      var before := Running(events[..|events| - 1]);
      match events[|events| - 1]
      case Spawned(k) => before + {k}
      case Ended(k) => before - {k}
      case Released => before
  }

  /** No task is running at any release. */
  ghost predicate ReleasesAreQuiet(events: seq<Event>) {
    forall i :: 0 <= i < |events| && events[i] == Released ==> Running(events[..i]) == {}
  }

  /** `_stop_all_tasks`: empties the slots in order, and stops at the first task that raises. */
  function StopFrom(slots: Slots, order: seq<Kind>): (Slots, bool) {
    if order == [] then (slots, false)
    else if order[0] !in slots then StopFrom(slots, order[1..])
    else if slots[order[0]].Awaited() == Raised then (slots[order[0] := Done(Raised)], true)
    else StopFrom(slots - {order[0]}, order[1..])
  }

  ghost predicate NoneRaises(slots: Slots) {
    forall k :: k in slots ==> slots[k].Awaited() != Raised
  }

  lemma {:induction false} StopFromCharacterised(slots: Slots, order: seq<Kind>)
    ensures var (left, raised) := StopFrom(slots, order);
      && (raised <==> exists k :: k in order && k in slots && slots[k].Awaited() == Raised)
      && (!raised ==> left == slots - (set k | k in order))
      && (raised ==> exists k :: k in order && k in left && left[k] == Done(Raised))
      && left.Keys <= slots.Keys
  {
    if order == [] {
    } else {
      var k := order[0];
      if k !in slots {
        StopFromCharacterised(slots, order[1..]);
      } else if slots[k].Awaited() != Raised {
        StopFromCharacterised(slots - {k}, order[1..]);
      } else {
        assert slots[k := Done(Raised)][k] == Done(Raised);
      }
      assert forall q :: q in order <==> q == k || q in order[1..];
    }
  }

  lemma AllKindsStopped()
    ensures forall k: Kind :: k in STOP_ORDER
  {
    forall k: Kind
      ensures k in STOP_ORDER
    {
      match k
      case Sync => assert STOP_ORDER[0] == k;
      case Metering => assert STOP_ORDER[1] == k;
      case Lifecycle => assert STOP_ORDER[2] == k;
      case Snapshot => assert STOP_ORDER[3] == k;
    }
  }

  /** Stopping everything leaves every slot empty exactly when no task ends with its own exception. */
  lemma {:induction false} StopEmptiesIff(slots: Slots)
    ensures StopFrom(slots, STOP_ORDER).0 == map[] <==> NoneRaises(slots)
    ensures StopFrom(slots, STOP_ORDER).1 <==> !NoneRaises(slots)
  {
    StopFromCharacterised(slots, STOP_ORDER);
    AllKindsStopped();
    if NoneRaises(slots) {
      assert slots - (set k | k in STOP_ORDER) == map[];
    }
  }

  /** A sync loop that dies during the attempt keeps the metering, lifecycle and snapshot loops running. */
  lemma RaisingSyncTaskStrandsTheOthers(others: Slots)
    requires Sync !in others
    ensures var slots := others[Sync := Done(Raised)];
      StopFrom(slots, STOP_ORDER) == (slots, true)
  {
    var slots := others[Sync := Done(Raised)];
    assert slots[Sync := Done(Raised)] == slots;
  }

  /** What one turn of the loop meets: task states seen by the reaper and after the attempt, and how it ended. */
  datatype Iteration = Iteration(
    atReap: Kind -> Task,
    afterAttempt: Kind -> Task,
    outcome: Outcome,
    spawned: Kind -> Task)

  /** Unfinished tasks make progress on their own; finished ones, and which slots are occupied, do not change. */
  function Observe(slots: Slots, seen: Kind -> Task): Slots {
    map k | k in slots :: if slots[k].Done? then slots[k] else seen(k)
  }

  /** A task whose exception cut one stop short cuts every later one short too. */
  lemma {:induction false} RaisedStopRaisesAgain(slots: Slots, seen: Kind -> Task)
    requires StopFrom(slots, STOP_ORDER).1
    ensures StopFrom(Observe(StopFrom(slots, STOP_ORDER).0, seen), STOP_ORDER).1
  {
    StopFromCharacterised(slots, STOP_ORDER);
    var left := StopFrom(slots, STOP_ORDER).0;
    var k :| k in STOP_ORDER && k in left && left[k] == Done(Raised);
    var met := Observe(left, seen);
    assert k in met && met[k].Awaited() == Raised;
    StopFromCharacterised(met, STOP_ORDER);
  }

  function Reaped(slots: Slots): Slots {
    map k | k in slots && slots[k].Pending? :: slots[k]
  }

  /** The slots after a LEADER result: sync always, the three tick loops when a session factory was given. */
  function Started(slots: Slots, hasSessions: bool, spawned: Kind -> Task): Slots {
    map k: Kind | k in {Sync, Metering, Lifecycle, Snapshot} && (k in slots || k == Sync || hasSessions) ::
      if k in slots then slots[k] else spawned(k)
  }

  /** The tasks a leader should be running. */
  predicate Wanted(k: Kind, hasSessions: bool) { k == Sync || hasSessions }

  /**
   After a turn that found the replica leading, every wanted slot is taken: by a new task where the slot was empty or
   its task had finished by the time of the reaping, else by the task that was there, still running when reaped.
   */
  lemma LeaderTurnFillsSlots(slots: Slots, it: Iteration, hasSessions: bool, k: Kind)
    ensures
      var reaping := Observe(slots, it.atReap);
      var after := Started(Observe(Reaped(reaping), it.afterAttempt), hasSessions, it.spawned);
      && (k in after <==> Wanted(k, hasSessions) || (k in slots && reaping[k].Pending?))
      && (k in slots && reaping[k].Pending? ==> after[k] == it.afterAttempt(k))
      && (Wanted(k, hasSessions) && (k !in slots || reaping[k].Done?) ==> after[k] == it.spawned(k))
  {
    match k
    case Sync =>
    case Metering =>
    case Lifecycle =>
    case Snapshot =>
  }

  class LeaderControlledSyncSupervisor {
    const hasSessions: bool
    var stopping: bool
    var shutdownComplete: bool
    var slots: Slots
    var events: seq<Event>

    ghost predicate Valid()
      reads this
    {
      Running(events) <= slots.Keys && ReleasesAreQuiet(events)
    }

    constructor (hasSessions: bool)
      ensures Valid() && slots == map[] && events == [] && !stopping && !shutdownComplete
      ensures this.hasSessions == hasSessions
    {
      this.hasSessions := hasSessions;
      stopping, shutdownComplete, slots, events := false, false, map[], [];
    }

    method Record(e: Event)
      requires Valid()
      requires e.Spawned? ==> e.kind in slots
      requires e == Released ==> slots == map[]
      modifies this`events
      ensures Valid() && events == old(events) + [e]
    {
      ghost var was := events;
      events := events + [e];
      assert events[..|events| - 1] == was;
      forall i | 0 <= i < |events| && events[i] == Released
        ensures Running(events[..i]) == {}
      {
        assert events[..i] == was[..i];
        assert was[..|was|] == was;
      }
    }

    method StopAllTasks() returns (raised: bool)
      requires Valid()
      modifies this`slots, this`events
      ensures Valid()
      ensures (slots, raised) == StopFrom(old(slots), STOP_ORDER)
      ensures forall e :: e in events && e !in old(events) ==> e.Ended?
    {
      raised := false;
      var i := 0;
      while i < |STOP_ORDER|
        invariant i <= |STOP_ORDER|
        invariant Valid() && !raised
        invariant StopFrom(slots, STOP_ORDER[i..]) == StopFrom(old(slots), STOP_ORDER)
        invariant forall e :: e in events && e !in old(events) ==> e.Ended?
      {
        var kind := STOP_ORDER[i];
        assert STOP_ORDER[i..][0] == kind && STOP_ORDER[i..][1..] == STOP_ORDER[i + 1..];
        if kind in slots {
          Record(Ended(kind));
          assert kind !in Running(events) by { assert events[..|events| - 1] + [Ended(kind)] == events; }
          if slots[kind].Awaited() == Raised {
            slots := slots[kind := Done(Raised)];
            raised := true;
            return;
          }
          slots := slots - {kind};
        }
        i := i + 1;
      }
      assert STOP_ORDER[i..] == [];
    }

    method ReapTasks()
      requires Valid()
      modifies this`slots, this`events
      ensures Valid() && slots == Reaped(old(slots))
      ensures forall e :: e in events && e !in old(events) ==> e.Ended?
    {
      var i := 0;
      ghost var was := slots;
      while i < |STOP_ORDER|
        invariant i <= |STOP_ORDER| && Valid()
        invariant slots == map k | k in was && (k in STOP_ORDER[..i] ==> was[k].Pending?) :: was[k]
        invariant forall e :: e in events && e !in old(events) ==> e.Ended?
      {
        var kind := STOP_ORDER[i];
        assert STOP_ORDER[..i + 1] == STOP_ORDER[..i] + [kind];
        if kind in slots && slots[kind].Done? {
          Record(Ended(kind));
          assert events[..|events| - 1] + [Ended(kind)] == events;
          slots := slots - {kind};
        }
        i := i + 1;
      }
      assert STOP_ORDER[..i] == STOP_ORDER;
      AllKindsStopped();
    }

    method StartTasks(spawned: Kind -> Task)
      requires Valid()
      modifies this`slots, this`events
      ensures Valid() && slots == Started(old(slots), hasSessions, spawned)
      ensures forall e :: e in events && e !in old(events) ==> e.Spawned?
    {
      var i := 0;
      ghost var was := slots;
      while i < |STOP_ORDER|
        invariant i <= |STOP_ORDER| && Valid()
        invariant forall k :: k in slots <==> k in was || (k in STOP_ORDER[..i] && (k == Sync || hasSessions))
        invariant forall k :: k in slots ==> slots[k] == if k in was then was[k] else spawned(k)
        invariant forall e :: e in events && e !in old(events) ==> e.Spawned?
      {
        var kind := STOP_ORDER[i];
        assert STOP_ORDER[..i + 1] == STOP_ORDER[..i] + [kind];
        if kind !in slots && (kind == Sync || hasSessions) {
          slots := slots[kind := spawned(kind)];
          Record(Spawned(kind));
        }
        i := i + 1;
      }
      assert STOP_ORDER[..i] == STOP_ORDER;
      ghost var goal := Started(was, hasSessions, spawned);
      forall k: Kind
        ensures k in slots <==> k in goal
        ensures k in slots ==> slots[k] == goal[k]
      {
        match k
        case Sync => assert STOP_ORDER[..i][0] == k;
        case Metering => assert STOP_ORDER[..i][1] == k;
        case Lifecycle => assert STOP_ORDER[..i][2] == k;
        case Snapshot => assert STOP_ORDER[..i][3] == k;
      }
      assert slots == goal;
    }

    /** One turn of `run`: reap, attempt, then start or stop. A leader keeps its tasks; nobody else does. */
    method Turn(it: Iteration) returns (raised: bool)
      requires Valid()
      modifies this`slots, this`events
      ensures Valid()
      ensures Released in events ==> Released in old(events)
      ensures var met := Observe(Reaped(Observe(old(slots), it.atReap)), it.afterAttempt);
        if it.outcome == Settled(Leader) then
          !raised && slots == Started(met, hasSessions, it.spawned)
          && forall k :: Wanted(k, hasSessions) ==> k in slots
        else
          (slots, raised) == StopFrom(met, STOP_ORDER)
    {
      slots := Observe(slots, it.atReap);
      ReapTasks();
      slots := Observe(slots, it.afterAttempt);
      if it.outcome == Settled(Leader) {
        StartTasks(it.spawned);
        forall k | Wanted(k, hasSessions)
          ensures k in slots
        {
          LeaderTurnFillsSlots(old(slots), it, hasSessions, k);
        }
        return false;
      }
      ghost var met := slots;
      raised := StopAllTasks();
      if it.outcome == Error && !raised {
        StopEmptiesIff(met);
        StopEmptiesIff(map[]);
        raised := StopAllTasks();
      }
    }

    /** Stop every task, then release; a raising task stops the shutdown before the release. */
    method Shutdown(seen: Kind -> Task) returns (raised: bool)
      requires Valid()
      modifies this
      ensures Valid()
      ensures old(shutdownComplete) ==> !raised && slots == old(slots) && events == old(events) && shutdownComplete
      ensures !old(shutdownComplete) ==>
        var met := Observe(old(slots), seen);
        && stopping
        && (slots, raised) == StopFrom(met, STOP_ORDER)
        && (raised <==> !shutdownComplete)
        && (raised && Released in events ==> Released in old(events))
        && (!raised ==> slots == map[] && events != [] && events[|events| - 1] == Released)
    {
      if shutdownComplete { return false; }
      stopping := true;
      slots := Observe(slots, seen);
      ghost var met := slots;
      raised := StopAllTasks();
      StopEmptiesIff(met);
      if raised { return; }
      Record(Released);
      shutdownComplete := true;
    }

    /**
     `run` until it is cancelled after the given turns, or until a raising task ends it. A turn that raised
     (`stranded`) makes the final shutdown raise as well, so the Lease is not released.
     */
    method Run(turns: seq<Iteration>, atShutdown: Kind -> Task) returns (stranded: bool, raised: bool)
      requires Valid() && !stopping && !shutdownComplete
      modifies this
      ensures Valid() && stopping
      ensures stranded ==> raised
      ensures raised <==> !shutdownComplete
      ensures raised && Released in events ==> Released in old(events)
      ensures shutdownComplete <==> slots == map[]
      ensures shutdownComplete ==> events != [] && events[|events| - 1] == Released && Running(events) == {}
    {
      stranded := false;
      var i := 0;
      ghost var before: Slots := map[];
      while i < |turns| && !stranded
        invariant i <= |turns| && Valid() && !shutdownComplete
        invariant Released in events ==> Released in old(events)
        invariant stranded ==> (slots, true) == StopFrom(before, STOP_ORDER)
      {
        before := Observe(Reaped(Observe(slots, turns[i].atReap)), turns[i].afterAttempt);
        stranded := Turn(turns[i]);
        i := i + 1;
      }
      ghost var met := Observe(slots, atShutdown);
      if stranded {
        RaisedStopRaisesAgain(before, atShutdown);
      }
      raised := Shutdown(atShutdown);
      StopEmptiesIff(met);
    }
  }
}
