/**
 Serving from the earliest-expiring grant first is never worse than any other way of spending the same
 grants on the same demands, at any point of any run.
 */
module EarliestExpiryFirst {
  import opened Common
  import opened Credits

  /** What any deduction policy may do for a demand of `need` at time `t`: spend live grants, up to the need. */
  ghost predicate AllowedDeduction(before: seq<Grant>, after: seq<Grant>, t: Time, need: real) {
    && |after| == |before|
    && (forall i :: 0 <= i < |before| ==>
          && SameGrant(before[i], after[i])
          && 0.0 <= after[i].remaining <= before[i].remaining
          && (!before[i].LiveAt(t) ==> after[i] == before[i]))
    && LiveTotal(before, t) - LiveTotal(after, t) <= need
  }

  datatype Event =
    /** A demand on the extra pool, with the order the query returned and the rival policy's choice. */
    | Demand(at: Time, need: real, rows: seq<nat>, rival: seq<Grant>)
    | Issue(amount: real, expires: Option<Time>)

  /** Both policies side by side: their grants and what each has served so far. */
  datatype Race = Race(clock: Time, ours: seq<Grant>, theirs: seq<Grant>, weServed: real, theyServed: real, asked: real)

  ghost predicate Enabled(s: Race, e: Event) {
    match e
    case Demand(at, need, rows, rival) =>
      && s.clock <= at && 0.0 <= need
      && IsEligibleOrder(s.ours, at, rows)
      && AllowedDeduction(s.theirs, rival, at, need)
    case Issue(amount, _) => 0.0 <= amount
  }

  ghost function Next(s: Race, e: Event): Race
    requires Enabled(s, e)
  {
    match e
    case Demand(at, need, rows, rival) =>
      var (grants, left) := Drain(s.ours, rows, need);
      Race(at, grants, rival,
           s.weServed + (need - left),
           s.theyServed + (LiveTotal(s.theirs, at) - LiveTotal(rival, at)),
           s.asked + need)
    case Issue(amount, expires) =>
      var g := Grant(amount, amount, expires);
      s.(ours := s.ours + [g], theirs := s.theirs + [g])
  }

  ghost predicate IsRace(states: seq<Race>, events: seq<Event>) {
    && |states| == |events| + 1
    && states[0].ours == states[0].theirs
    && (forall i :: 0 <= i < |states[0].ours| ==> 0.0 <= states[0].ours[i].remaining)
    && states[0].weServed == states[0].theyServed == 0.0
    && forall i :: 0 <= i < |events| ==> Enabled(states[i], events[i]) && states[i + 1] == Next(states[i], events[i])
  }

  ghost predicate Aligned(s: Race) {
    && |s.ours| == |s.theirs|
    && forall i :: 0 <= i < |s.ours| ==> 0.0 <= s.ours[i].remaining && 0.0 <= s.theirs[i].remaining
  }

  /** Served so far plus what will outlive `t` is at least the rival's, for every future `t`. */
  ghost predicate Ahead(s: Race, t: Time) {
    s.theyServed + LiveTotal(s.theirs, t) <= s.weServed + LiveTotal(s.ours, t)
  }

  ghost predicate Dominates(s: Race) {
    && Aligned(s)
    && s.theyServed <= s.weServed
    && forall t :: s.clock <= t ==> Ahead(s, t)
  }

  /** Either the loop took nothing from grants outliving `t`, or it emptied everything expiring by `t`. */
  lemma {:induction false} DrainSparesLaterGrants(grants: seq<Grant>, now: Time, rows: seq<nat>, need: real, t: Time)
    requires IsEligibleOrder(grants, now, rows) && 0.0 <= need && now <= t
    requires forall i :: 0 <= i < |grants| ==> 0.0 <= grants[i].remaining
    ensures var (after, left) := Drain(grants, rows, need);
      || LiveTotal(grants, t) <= LiveTotal(after, t)
      || LiveTotal(after, now) <= LiveTotal(after, t)
  {
    DrainEffect(grants, rows, need, now);
    var (after, left) := Drain(grants, rows, need);
    if q :| 0 <= q < |rows| && after[rows[q]] != grants[rows[q]] && grants[rows[q]].LiveAt(t) {
      forall i | 0 <= i < |after|
        ensures after[i].Contribution(now) <= after[i].Contribution(t)
      {
        EarlierGrantIsSpent(grants, now, rows, need, after, left, t, q, i);
      }
      LiveTotalPointwise(after, now, after, t);
    } else {
      forall i | 0 <= i < |after|
        ensures grants[i].Contribution(t) <= after[i].Contribution(t)
      {
        if i in rows {
          var p :| 0 <= p < |rows| && rows[p] == i;
          assert after[rows[p]] == grants[rows[p]] || !grants[rows[p]].LiveAt(t);
        }
      }
      LiveTotalPointwise(grants, t, after, t);
    }
  }

  /** Once the loop has touched a grant outliving `t`, whatever is left of any grant outlives `t`. */
  lemma EarlierGrantIsSpent(
      grants: seq<Grant>, now: Time, rows: seq<nat>, need: real, after: seq<Grant>, left: real, t: Time, q: nat, i: nat)
    requires IsEligibleOrder(grants, now, rows) && now <= t
    requires DrainedInOrder(grants, rows, need, after, left)
    requires q < |rows| && after[rows[q]] != grants[rows[q]] && grants[rows[q]].LiveAt(t)
    requires i < |after|
    ensures after[i].Contribution(now) <= after[i].Contribution(t)
  {
    assert SameGrant(grants[i], after[i]);
    if after[i].EligibleAt(now) {
      assert i in rows;
      var p :| 0 <= p < |rows| && rows[p] == i;
      assert q <= p;
      assert NotLater(grants[rows[q]].expires, grants[rows[p]].expires);
    }
  }

  lemma {:induction false} DemandServesEnough(grants: seq<Grant>, now: Time, rows: seq<nat>, need: real, t: Time)
    requires IsEligibleOrder(grants, now, rows) && 0.0 <= need && now <= t
    requires forall i :: 0 <= i < |grants| ==> 0.0 <= grants[i].remaining
    ensures var (after, left) := Drain(grants, rows, need);
      && MinReal(LiveTotal(grants, now), need) <= need - left
      && MinReal(LiveTotal(grants, now), need + LiveTotal(grants, t)) <= need - left + LiveTotal(after, t)
  {
    var (after, left) := Drain(grants, rows, need);
    DrainEffect(grants, rows, need, now);
    DrainSparesLaterGrants(grants, now, rows, need, t);
    if left > 0.0 {
      forall i | 0 <= i < |after|
        ensures after[i].Contribution(now) <= after[i].(remaining := 0.0).Contribution(now)
      {
        if i in rows {
          var p :| 0 <= p < |rows| && rows[p] == i;
        }
      }
      NothingLeft(after, now);
    }
    NonNegativeTotal(after, t);
  }

  /** The rival gains at most what its live grants, and the need, allow. */
  lemma {:induction false} RivalGainsLittle(before: seq<Grant>, after: seq<Grant>, now: Time, need: real, t: Time)
    requires AllowedDeduction(before, after, now, need) && now <= t
    ensures var served := LiveTotal(before, now) - LiveTotal(after, now);
      && served <= need && served <= LiveTotal(before, now)
      && served + LiveTotal(after, t) <= LiveTotal(before, now)
      && served + LiveTotal(after, t) <= need + LiveTotal(before, t)
  {
    LiveTotalPointwise(after, t, after, now);
    LiveTotalPointwise(after, t, before, t);
    NonNegativeTotal(after, now);
  }

  lemma DemandKeepsLead(s: Race, e: Event)
    requires Dominates(s) && Enabled(s, e) && e.Demand?
    ensures Dominates(Next(s, e))
  {
    var s' := Next(s, e);
    DrainEffect(s.ours, e.rows, e.need, e.at);
    assert Ahead(s, e.at);
    forall t | s'.clock <= t
      ensures Ahead(s', t) && s'.theyServed <= s'.weServed
    {
      assert Ahead(s, t);
      DemandServesEnough(s.ours, e.at, e.rows, e.need, t);
      RivalGainsLittle(s.theirs, e.rival, e.at, e.need, t);
    }
    assert Ahead(s', s'.clock);
  }

  lemma IssueKeepsLead(s: Race, e: Event)
    requires Dominates(s) && Enabled(s, e) && e.Issue?
    ensures Dominates(Next(s, e))
  {
    var s' := Next(s, e);
    var g := Grant(e.amount, e.amount, e.expires);
    forall t | s'.clock <= t
      ensures Ahead(s', t)
    {
      assert Ahead(s, t);
      LiveTotalAppend(s.ours, g, t);
      LiveTotalAppend(s.theirs, g, t);
    }
  }

  lemma {:induction false} RaceIsDominated(states: seq<Race>, events: seq<Event>, i: nat)
    requires IsRace(states, events) && i < |states|
    ensures Dominates(states[i])
  {
    if i == 0 {
    } else {
      RaceIsDominated(states, events, i - 1);
      if events[i - 1].Demand? {
        DemandKeepsLead(states[i - 1], events[i - 1]);
      } else {
        IssueKeepsLead(states[i - 1], events[i - 1]);
      }
    }
  }

  /**
   For every run of demands at increasing times and newly issued grants, and at every point of it, the
   program's order has served at least as much as any rival policy, so its total shortfall is no larger.
   */
  lemma EarliestFirstIsOptimal(states: seq<Race>, events: seq<Event>, i: nat)
    requires IsRace(states, events) && i < |states|
    ensures states[i].theyServed <= states[i].weServed
    ensures states[i].asked - states[i].weServed <= states[i].asked - states[i].theyServed
  {
    RaceIsDominated(states, events, i);
  }
}
