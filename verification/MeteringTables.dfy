/** The session and ledger tables, and the service calls that keep one open row per sandbox. */
module MeteringTables {
  import opened Common
  import opened ComputeSessions
  import opened Rounding

  // ---------------------------------------------------------------- compute sessions

  predicate IsOpenFor(s: Session, id: string) { s.sandboxId == id && s.endedAt.None? }

  predicate HasOpen(sessions: seq<Session>, id: string) {
    exists i :: 0 <= i < |sessions| && IsOpenFor(sessions[i], id)
  }

  /** The row `scalar_one_or_none` returns: the open session of a sandbox, if any. */
  function OpenRow(sessions: seq<Session>, id: string): (r: Option<nat>)
    ensures r.Some? ==> r.value < |sessions| && IsOpenFor(sessions[r.value], id)
    ensures r.None? ==> !HasOpen(sessions, id)
  {
    if sessions == [] then None
    else if IsOpenFor(sessions[|sessions| - 1], id) then Some(|sessions| - 1)
    else OpenRow(sessions[..|sessions| - 1], id)
  }

  /** open_compute_session: None is the unknown-template error. */
  function OpenIn(
      sessions: seq<Session>, cache: Specs, id: string, user: string, template: string, now: Time): Option<seq<Session>>
  {
    if OpenRow(sessions, id).Some? then Some(sessions)
    else
      var spec := ResolveSpec(cache, template);
      if spec.None? then None else Some(sessions + [OpenSession(id, user, template, spec.value, now, now)])
  }

  /** close_compute_session: the table afterwards and the credits charged; `raised` as Close says. */
  datatype CloseOutcome = CloseOutcome(sessions: seq<Session>, charge: real, raised: bool)

  function CloseIn(sessions: seq<Session>, cache: Specs, id: string, now: Time): CloseOutcome {
    var row := OpenRow(sessions, id);
    if row.None? then CloseOutcome(sessions, 0.0, false)
    else
      var r := Close(sessions[row.value], ResolveSpec(cache, sessions[row.value].template), now);
      CloseOutcome(sessions[row.value := r.session], if r.Closed? then r.charge else 0.0, r.Raised?)
  }

  /** With one open row per sandbox, the row found does not depend on where the search starts. */
  lemma {:induction false} OpenRowIsTheOne(sessions: seq<Session>, id: string, i: nat)
    requires UniqueOpen(sessions) && i < |sessions| && IsOpenFor(sessions[i], id)
    ensures OpenRow(sessions, id) == Some(i)
  {
    assert HasOpen(sessions, id);
    var j := OpenRow(sessions, id).value;
    assert IsOpenFor(sessions[j], id);
  }

  /** A row just opened: nothing booked, and the template's resources from the synced specs, else the static table. */
  predicate IsNewRow(s: Session, cache: Specs, id: string, user: string, template: string, now: Time) {
    && s.sandboxId == id && s.userId == user && s.template == template
    && s.startedAt == s.lastMeteredAt == now && s.endedAt.None? && s.vcpuHours == s.memoryGibHours == 0.0
    && (template in cache ==> s.request == cache[template])
    && (template !in cache ==> template in TEMPLATE_SPECS && s.request == TEMPLATE_SPECS[template])
  }

  /** Opening adds at most one row, keeps one open row per sandbox, and leaves every other sandbox alone. */
  lemma OpenKeepsUnique(sessions: seq<Session>, cache: Specs, id: string, user: string, template: string, now: Time)
    requires UniqueOpen(sessions)
    ensures var r := OpenIn(sessions, cache, id, user, template, now);
      && (r.None? <==> !HasOpen(sessions, id) && ResolveSpec(cache, template).None?)
      && (r.Some? ==>
            && UniqueOpen(r.value) && HasOpen(r.value, id)
            && |sessions| <= |r.value| <= |sessions| + 1 && r.value[..|sessions|] == sessions
            && (forall other :: other != id ==> HasOpen(r.value, other) == HasOpen(sessions, other))
            && (HasOpen(sessions, id) ==> r.value == sessions)
            && (!HasOpen(sessions, id) ==>
                  && |r.value| == |sessions| + 1
                  && IsNewRow(r.value[|sessions|], cache, id, user, template, now)))
  {
    var r := OpenIn(sessions, cache, id, user, template, now);
    if r.Some? && r.value != sessions {
      var after := r.value;
      assert IsOpenFor(after[|sessions|], id);
      assert forall i :: 0 <= i < |sessions| ==> after[i] == sessions[i];
      forall i, j | 0 <= i < j < |after| && after[i].endedAt.None? && after[j].endedAt.None?
        ensures after[i].sandboxId != after[j].sandboxId
      {
        if j == |sessions| {
          assert !IsOpenFor(sessions[i], id);
        }
      }
      forall other | other != id
        ensures HasOpen(after, other) == HasOpen(sessions, other)
      {
        SameOpen(sessions, after, other);
      }
    } else if r.Some? {
      var k := OpenRow(sessions, id).value;
      assert IsOpenFor(sessions[k], id);
    }
  }

  lemma SameOpen(a: seq<Session>, b: seq<Session>, id: string)
    requires |a| <= |b|
    requires forall i :: 0 <= i < |a| ==> IsOpenFor(a[i], id) == IsOpenFor(b[i], id)
    requires forall i :: |a| <= i < |b| ==> !IsOpenFor(b[i], id)
    ensures HasOpen(a, id) == HasOpen(b, id)
  {
    if HasOpen(a, id) {
      var i :| 0 <= i < |a| && IsOpenFor(a[i], id);
      assert IsOpenFor(b[i], id);
    }
    if HasOpen(b, id) {
      var i :| 0 <= i < |b| && IsOpenFor(b[i], id);
      assert i < |a| && IsOpenFor(a[i], id);
    }
  }

  /** Closing ends the sandbox's open row unless it raises, and leaves every other sandbox alone. */
  lemma CloseKeepsUnique(sessions: seq<Session>, cache: Specs, id: string, now: Time)
    requires UniqueOpen(sessions)
    ensures var r := CloseIn(sessions, cache, id, now);
      && |r.sessions| == |sessions|
      && UniqueOpen(r.sessions)
      && (HasOpen(r.sessions, id) <==> r.raised)
      && (forall other :: other != id ==> HasOpen(r.sessions, other) == HasOpen(sessions, other))
      && (!HasOpen(sessions, id) ==> r == CloseOutcome(sessions, 0.0, false))
      && (forall i :: 0 <= i < |sessions| && !IsOpenFor(sessions[i], id) ==> r.sessions[i] == sessions[i])
  {
    var r := CloseIn(sessions, cache, id, now);
    var row := OpenRow(sessions, id);
    if row.Some? {
      var k := row.value;
      CloseRowKeepsIdentity(sessions[k], ResolveSpec(cache, sessions[k].template), now);
      assert forall i :: 0 <= i < |sessions| && i != k ==> r.sessions[i] == sessions[i];
      if HasOpen(r.sessions, id) {
        var i :| 0 <= i < |sessions| && IsOpenFor(r.sessions[i], id);
        if i != k {
          OpenRowIsTheOne(sessions, id, i);
        }
      }
      if r.raised {
        assert IsOpenFor(r.sessions[k], id);
      }
      forall other | other != id
        ensures HasOpen(r.sessions, other) == HasOpen(sessions, other)
      {
        SameOpen(sessions, r.sessions, other);
      }
    }
  }

  lemma CloseRowKeepsIdentity(s: Session, spec: Option<Spec>, now: Time)
    ensures var r := Close(s, spec, now);
      && r.session.sandboxId == s.sandboxId
      && (r.Closed? ==> r.session.endedAt == Some(now) && r.session.lastMeteredAt == r.session.gmtUpdated == now)
      && (r.Raised? ==> r.session.endedAt == s.endedAt && r.session.lastMeteredAt == s.lastMeteredAt)
      && (r.Raised? <==> spec.None? && CloseSpan(s, now) > 0)
  {
  }

  /** Closing a sandbox's session twice charges once: the second call finds nothing open. */
  lemma ClosingTwiceChargesOnce(sessions: seq<Session>, cache: Specs, id: string, now: Time, later: Time)
    requires UniqueOpen(sessions) && !CloseIn(sessions, cache, id, now).raised
    ensures var once := CloseIn(sessions, cache, id, now);
      CloseIn(once.sessions, cache, id, later) == CloseOutcome(once.sessions, 0.0, false)
  {
    CloseKeepsUnique(sessions, cache, id, now);
    CloseKeepsUnique(CloseIn(sessions, cache, id, now).sessions, cache, id, later);
  }

  lemma AccrueGrows(s: Session, elapsed: Time)
    requires 0 < elapsed
    ensures 0.0 < s.request.vcpu ==> s.vcpuHours < Accrue(s, elapsed).vcpuHours
    ensures 0.0 < s.request.memoryGib ==> s.memoryGibHours < Accrue(s, elapsed).memoryGibHours
  {
    assert 0.0 < Hours(elapsed);
    assert 0.0 < s.request.vcpu ==> 0.0 < s.request.vcpu * Hours(elapsed);
    assert 0.0 < s.request.memoryGib ==> 0.0 < s.request.memoryGib * Hours(elapsed);
  }

  /**
   A close that raises books hours it has not charged and leaves the row open, metered no further; so a retry at any
   later moment raises again and books the same gap once more, never less than the time before.
   */
  lemma RaisingCloseBooksForNothing(s: Session, now: Time, later: Time)
    requires 0 < CloseSpan(s, now) && now <= later
    ensures
      var r := Close(s, None, now);
      var again := Close(r.session, None, later);
      && r.Raised? && again.Raised?
      && r.session.endedAt == s.endedAt && r.session.lastMeteredAt == s.lastMeteredAt
      && r.session == Accrue(s, CloseSpan(s, now))
      && again.session == Accrue(r.session, CloseSpan(s, later))
      && CloseSpan(s, now) <= CloseSpan(s, later)
      && (0.0 < s.request.vcpu ==> s.vcpuHours < r.session.vcpuHours < again.session.vcpuHours)
      && (0.0 < s.request.memoryGib ==> s.memoryGibHours < r.session.memoryGibHours < again.session.memoryGibHours)
  {
    AccrueGrows(s, CloseSpan(s, now));
    AccrueGrows(Accrue(s, CloseSpan(s, now)), CloseSpan(s, later));
  }

  /** With a known template a close charges what it books iff that is nothing or the rate is still the same. */
  lemma CloseChargesBookedIff(s: Session, spec: Spec, now: Time)
    ensures var r := Close(s, Some(spec), now);
      && r.Closed?
      && (r.session.CuHours() == s.CuHours() + r.charge <==>
            CloseSpan(s, now) <= 0 || MaxReal(0.0, CuRate(spec)) == CuRate(s.request))
  {
    var span := CloseSpan(s, now);
    if span > 0 {
      AccrueBooksCharge(s, span);
      PositivePart(CuRate(spec), span);
      SameCostIff(MaxReal(0.0, CuRate(spec)), CuRate(s.request), span);
    }
  }

  /** A tick charges at the template's present rate: exactly what it books iff that is still the session's rate. */
  lemma TickChargesBookedIff(sessions: seq<Session>, cache: Specs, conflict: nat -> bool, now: Time, i: nat)
    requires i < |sessions| && ResolveSpec(cache, sessions[i].template).Some?
    ensures
      var (s, t) := (sessions[i], Ticked(sessions, conflict, now)[i]);
      var rate := CuRate(ResolveSpec(cache, s.template).value);
      && (t == s ==> RowDelta(sessions, cache, conflict, now, i) == 0.0)
      && (t.CuHours() == s.CuHours() + RowDelta(sessions, cache, conflict, now, i) <==>
            t.lastMeteredAt == s.lastMeteredAt || rate == CuRate(s.request))
  {
    var s := sessions[i];
    if Metered(sessions, conflict, now, i) {
      AccrueBooksCharge(s, now - s.lastMeteredAt);
      SameCostIff(CuRate(ResolveSpec(cache, s.template).value), CuRate(s.request), now - s.lastMeteredAt);
    }
  }

  lemma PositivePart(rate: real, span: Time)
    requires 0 < span
    ensures MaxReal(0.0, rate * Hours(span)) == MaxReal(0.0, rate) * Hours(span)
  {
    assert 0.0 < Hours(span);
    if rate < 0.0 {
      assert rate * Hours(span) < 0.0;
    } else {
      assert 0.0 <= rate * Hours(span);
    }
  }

  lemma SameCostIff(a: real, b: real, span: Time)
    requires 0 < span
    ensures a * Hours(span) == b * Hours(span) <==> a == b
  {
    NoCostIff(a - b, span);
    assert (a - b) * Hours(span) == a * Hours(span) - b * Hours(span);
  }

  // ---------------------------------------------------------------- storage ledgers

  datatype LedgerState = Active | Archived | Released

  datatype Ledger = Ledger(
    sandboxId: Option<string>,
    userId: string,
    sizeGib: int,
    state: LedgerState,
    backendMode: string,
    allocatedAt: Time,
    releasedAt: Option<Time>,
    lastMeteredAt: Time,
    gibHours: real)

  predicate IsActiveFor(l: Ledger, id: string) { l.sandboxId == Some(id) && l.state == Active }

  predicate HasActive(ledgers: seq<Ledger>, id: string) {
    exists i :: 0 <= i < |ledgers| && IsActiveFor(ledgers[i], id)
  }

  /** The unique index on active ledgers; a NULL sandbox id never clashes. */
  ghost predicate UniqueActive(ledgers: seq<Ledger>) {
    forall i, j :: 0 <= i < j < |ledgers| && ledgers[i].state == Active && ledgers[j].state == Active ==>
      ledgers[i].sandboxId.None? || ledgers[i].sandboxId != ledgers[j].sandboxId
  }

  function ActiveRow(ledgers: seq<Ledger>, id: string): (r: Option<nat>)
    ensures r.Some? ==> r.value < |ledgers| && IsActiveFor(ledgers[r.value], id)
    ensures r.None? ==> !HasActive(ledgers, id)
  {
    if ledgers == [] then None
    else if IsActiveFor(ledgers[|ledgers| - 1], id) then Some(|ledgers| - 1)
    else ActiveRow(ledgers[..|ledgers| - 1], id)
  }

  function NewLedger(id: string, user: string, sizeGib: int, backendMode: string, now: Time): Ledger {
    Ledger(Some(id), user, sizeGib, Active, backendMode, now, None, now, 0.0)
  }

  /** record_storage_allocation: an active entry is reused, with its backend mode brought up to date. */
  function AllocateIn(
      ledgers: seq<Ledger>, user: string, id: string, sizeGib: int, backendMode: string, now: Time): seq<Ledger>
  {
    var row := ActiveRow(ledgers, id);
    if row.Some? then ledgers[row.value := ledgers[row.value].(backendMode := backendMode)]
    else ledgers + [NewLedger(id, user, sizeGib, backendMode, now)]
  }

  /** The exact GiB-hours since the entry was last metered. */
  function Slice(l: Ledger, now: Time): real { l.sizeGib as real * Hours(now - l.lastMeteredAt) }

  /** The bulk storage tick on one entry. */
  function TickLedger(l: Ledger, now: Time): Ledger {
    if l.state != Active || now <= l.lastMeteredAt then l
    else
      l.(gibHours := l.gibHours + RoundHalfAway(Slice(l, now)), lastMeteredAt := now)
  }

  /** The tick meters active entries up to `now`, and nothing else. */
  lemma LedgerTickMetersActive(l: Ledger, now: Time)
    ensures var t := TickLedger(l, now);
      && (l.state != Active ==> t == l)
      && (l.state == Active ==>
            t == l.(lastMeteredAt := Max(l.lastMeteredAt, now), gibHours := t.gibHours)
            && (now <= l.lastMeteredAt ==> t.gibHours == l.gibHours))
  {
  }

  /** The release of one active entry. */
  function ReleaseLedger(l: Ledger, now: Time): Ledger {
    var slice := if now > l.lastMeteredAt then RoundHalfEven(Slice(l, now)) else 0.0;
    l.(gibHours := l.gibHours + slice, state := Released, releasedAt := Some(now), lastMeteredAt := now)
  }

  /** record_storage_release. */
  function ReleaseIn(ledgers: seq<Ledger>, id: string, now: Time): seq<Ledger> {
    var row := ActiveRow(ledgers, id);
    if row.None? then ledgers else ledgers[row.value := ReleaseLedger(ledgers[row.value], now)]
  }

  lemma {:induction false} ActiveRowIsTheOne(ledgers: seq<Ledger>, id: string, i: nat)
    requires UniqueActive(ledgers) && i < |ledgers| && IsActiveFor(ledgers[i], id)
    ensures ActiveRow(ledgers, id) == Some(i)
  {
    assert HasActive(ledgers, id);
    var j := ActiveRow(ledgers, id).value;
    assert IsActiveFor(ledgers[j], id);
  }

  lemma SameActive(a: seq<Ledger>, b: seq<Ledger>, id: string)
    requires |a| <= |b|
    requires forall i :: 0 <= i < |a| ==> IsActiveFor(a[i], id) == IsActiveFor(b[i], id)
    requires forall i :: |a| <= i < |b| ==> !IsActiveFor(b[i], id)
    ensures HasActive(a, id) == HasActive(b, id)
  {
    if HasActive(a, id) {
      var i :| 0 <= i < |a| && IsActiveFor(a[i], id);
      assert IsActiveFor(b[i], id);
    }
    if HasActive(b, id) {
      var i :| 0 <= i < |b| && IsActiveFor(b[i], id);
      assert i < |a| && IsActiveFor(a[i], id);
    }
  }

  /** Allocation leaves exactly one active entry for the sandbox and does not touch the others. */
  lemma AllocateKeepsUnique(
      ledgers: seq<Ledger>, user: string, id: string, sizeGib: int, backendMode: string, now: Time)
    requires UniqueActive(ledgers)
    ensures var after := AllocateIn(ledgers, user, id, sizeGib, backendMode, now);
      && UniqueActive(after) && HasActive(after, id)
      && |ledgers| <= |after|
      && (forall i :: 0 <= i < |ledgers| ==>
            after[i] == if IsActiveFor(ledgers[i], id) then ledgers[i].(backendMode := backendMode) else ledgers[i])
      && (HasActive(ledgers, id) ==> |after| == |ledgers|)
      && (!HasActive(ledgers, id) ==> after == ledgers + [NewLedger(id, user, sizeGib, backendMode, now)])
      && (forall other :: other != id ==> HasActive(after, other) == HasActive(ledgers, other))
  {
    var after := AllocateIn(ledgers, user, id, sizeGib, backendMode, now);
    var row := ActiveRow(ledgers, id);
    var k := if row.Some? then row.value else |ledgers|;
    assert IsActiveFor(after[k], id);
    assert forall i :: 0 <= i < |ledgers| && i != k ==> after[i] == ledgers[i];
    forall i | 0 <= i < |ledgers| && IsActiveFor(ledgers[i], id)
      ensures i == k && row.Some?
    {
      ActiveRowIsTheOne(ledgers, id, i);
    }
    forall i, j |
      0 <= i < j < |after| && after[i].state == Active && after[j].state == Active && after[i].sandboxId.Some?
      ensures after[i].sandboxId != after[j].sandboxId
    {
      if row.None? && j == k {
        assert !IsActiveFor(ledgers[i], id);
      }
    }
    forall other | other != id
      ensures HasActive(after, other) == HasActive(ledgers, other)
    {
      SameActive(ledgers, after, other);
    }
  }

  /** Release leaves no active entry for the sandbox and does not touch the others. */
  lemma ReleaseKeepsUnique(ledgers: seq<Ledger>, id: string, now: Time)
    requires UniqueActive(ledgers)
    ensures var after := ReleaseIn(ledgers, id, now);
      && |after| == |ledgers| && UniqueActive(after) && !HasActive(after, id)
      && (forall other :: other != id ==> HasActive(after, other) == HasActive(ledgers, other))
      && (!HasActive(ledgers, id) ==> after == ledgers)
      && (forall i :: 0 <= i < |ledgers| && !IsActiveFor(ledgers[i], id) ==> after[i] == ledgers[i])
      && (forall i :: 0 <= i < |ledgers| && IsActiveFor(ledgers[i], id) ==>
            && after[i].state == Released && after[i].releasedAt == Some(now) && after[i].lastMeteredAt == now
            && after[i].sandboxId == Some(id) && after[i].sizeGib == ledgers[i].sizeGib
            && after[i].allocatedAt == ledgers[i].allocatedAt)
  {
    var after := ReleaseIn(ledgers, id, now);
    var row := ActiveRow(ledgers, id);
    forall i | 0 <= i < |ledgers| && IsActiveFor(ledgers[i], id)
      ensures row == Some(i)
    {
      ActiveRowIsTheOne(ledgers, id, i);
    }
    if row.Some? {
      var k := row.value;
      assert forall i :: 0 <= i < |ledgers| && i != k ==> after[i] == ledgers[i];
      assert forall i :: 0 <= i < |after| ==> !IsActiveFor(after[i], id);
      forall other | other != id
        ensures HasActive(after, other) == HasActive(ledgers, other)
      {
        SameActive(ledgers, after, other);
      }
    }
  }
}
