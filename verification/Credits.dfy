/** Dual-pool credit consumption: the monthly pool first, then expiring grants, then overage. */
module Credits {
  import opened Common

  datatype Grant = Grant(original: real, remaining: real, expires: Option<Time>)
  {
    predicate LiveAt(t: Time) { expires.None? || expires.value > t }

    /** The query's row filter. */
    predicate EligibleAt(t: Time) { remaining > 0.0 && LiveAt(t) }

    /** What the grant contributes to the sum of unexpired remainders. */
    function Contribution(t: Time): real { if EligibleAt(t) then remaining else 0.0 }
  }

  datatype Account = Account(limit: real, used: real, overage: real, grants: seq<Grant>)

  datatype ConsumeResult = ConsumeResult(monthly: real, extra: real, shortfall: real)

  /** `expires_at ASC NULLS LAST`: may `a` come before `b`? */
  predicate NotLater(a: Option<Time>, b: Option<Time>) {
    b.None? || (a.Some? && a.value <= b.value)
  }

  /** The locked query's answer: every eligible grant once, earliest expiry first, ties in any order. */
  ghost predicate IsEligibleOrder(grants: seq<Grant>, now: Time, rows: seq<nat>) {
    && (forall p :: 0 <= p < |rows| ==> rows[p] < |grants| && grants[rows[p]].EligibleAt(now))
    && (forall i :: 0 <= i < |grants| && grants[i].EligibleAt(now) ==> i in rows)
    && Distinct(rows)
    && (forall p, q :: 0 <= p < q < |rows| ==> NotLater(grants[rows[p]].expires, grants[rows[q]].expires))
  }

  ghost predicate Distinct(rows: seq<nat>) {
    forall p, q :: 0 <= p < q < |rows| ==> rows[p] != rows[q]
  }

  function Deduct(g: Grant, amount: real): Grant { g.(remaining := g.remaining - amount) }

  /** The deduction loop: the grants afterwards and the need left over. */
  function Drain(grants: seq<Grant>, rows: seq<nat>, need: real): (seq<Grant>, real)
    requires forall p :: 0 <= p < |rows| ==> rows[p] < |grants|
    decreases |rows|
  {
    if rows == [] || need <= 0.0 then (grants, need)
    else
      var i := rows[0];
      var amount := MinReal(grants[i].remaining, need);
      Drain(grants[i := Deduct(grants[i], amount)], rows[1..], need - amount)
  }

  function Consume(a: Account, amount: real, rows: seq<nat>): (Account, ConsumeResult)
    requires forall p :: 0 <= p < |rows| ==> rows[p] < |a.grants|
  {
    var monthlyRemaining := a.limit - a.used;
    if amount <= 0.0 then (a, ConsumeResult(0.0, 0.0, 0.0))
    else if monthlyRemaining >= amount then (a.(used := a.used + amount), ConsumeResult(amount, 0.0, 0.0))
    else
      var monthly := MaxReal(0.0, monthlyRemaining);
      var (grants, left) := Drain(a.grants, rows, amount - monthly);
      var shortfall := MaxReal(0.0, left);
      (Account(a.limit, if monthly > 0.0 then a.limit else a.used, a.overage + shortfall, grants),
       ConsumeResult(monthly, amount - monthly - left, shortfall))
  }

  class CreditPool {
    var limit: real
    var used: real
    var overage: real
    var grants: seq<Grant>

    ghost function Value(): Account
      reads this
    {
      Account(limit, used, overage, grants)
    }

    constructor (a: Account)
      ensures Value() == a
    {
      limit, used, overage, grants := a.limit, a.used, a.overage, a.grants;
    }

    /** The loop over the locked rows. */
    method DrainGrants(rows: seq<nat>, need: real) returns (left: real)
      requires forall p :: 0 <= p < |rows| ==> rows[p] < |grants|
      modifies this`grants
      ensures (grants, left) == Drain(old(grants), rows, need)
    {
      left := need;
      var k := 0;
      while k < |rows| && left > 0.0
        invariant 0 <= k <= |rows| && |grants| == |old(grants)|
        invariant Drain(grants, rows[k..], left) == Drain(old(grants), rows, need)
      {
        var i := rows[k];
        var deduct := MinReal(grants[i].remaining, left);
        assert rows[k..][0] == i && rows[k..][1..] == rows[k + 1..];
        grants := grants[i := Deduct(grants[i], deduct)];
        left := left - deduct;
        k := k + 1;
      }
    }

    /** `rows` is the answer of the locked grant query made at `now`. */
    method ConsumeComputeCredits(amount: real, now: Time, rows: seq<nat>) returns (r: ConsumeResult)
      requires IsEligibleOrder(grants, now, rows)
      modifies this
      ensures (Value(), r) == Consume(old(Value()), amount, rows)
    {
      if amount <= 0.0 {
        return ConsumeResult(0.0, 0.0, 0.0);
      }
      var monthlyRemaining := limit - used;
      if monthlyRemaining >= amount {
        used := used + amount;
        return ConsumeResult(amount, 0.0, 0.0);
      }
      var monthlyConsumed := MaxReal(0.0, monthlyRemaining);
      var extraNeeded := amount - monthlyConsumed;
      if monthlyConsumed > 0.0 {
        used := limit;
      }
      var left := DrainGrants(rows, extraNeeded);
      var extraConsumed := extraNeeded - left;
      extraNeeded := left;
      var shortfall := MaxReal(0.0, extraNeeded);
      if shortfall > 0.0 {
        overage := overage + shortfall;
      }
      r := ConsumeResult(monthlyConsumed, extraConsumed, shortfall);
    }
  }

  // ---------------------------------------------------------------- live totals

  /** Sum of the remainders of the grants that outlive `t` (the extra-pool query at `t`). */
  function LiveTotal(grants: seq<Grant>, t: Time): real {
    if grants == [] then 0.0 else grants[0].Contribution(t) + LiveTotal(grants[1..], t)
  }

  /** monthly + extra - overage, as get_total_compute_remaining reports it. */
  function TotalRemaining(a: Account, now: Time): real {
    a.limit - a.used + LiveTotal(a.grants, now) - a.overage
  }

  lemma {:induction false} LiveTotalUpdate(grants: seq<Grant>, i: nat, g: Grant, t: Time)
    requires i < |grants|
    ensures LiveTotal(grants[i := g], t) == LiveTotal(grants, t) - grants[i].Contribution(t) + g.Contribution(t)
  {
    var updated := grants[i := g];
    if i == 0 {
      assert updated[1..] == grants[1..];
    } else {
      LiveTotalUpdate(grants[1..], i - 1, g, t);
      assert updated[1..] == grants[1..][i - 1 := g];
    }
  }

  lemma {:induction false} LiveTotalAppend(grants: seq<Grant>, g: Grant, t: Time)
    ensures LiveTotal(grants + [g], t) == LiveTotal(grants, t) + g.Contribution(t)
  {
    if grants == [] {
      assert ([g])[1..] == [];
    } else {
      LiveTotalAppend(grants[1..], g, t);
      assert (grants + [g])[1..] == grants[1..] + [g];
    }
  }

  /** Pointwise smaller contributions give a smaller total. */
  lemma {:induction false} LiveTotalPointwise(a: seq<Grant>, t: Time, b: seq<Grant>, u: Time)
    requires |a| == |b| && forall i :: 0 <= i < |a| ==> a[i].Contribution(t) <= b[i].Contribution(u)
    ensures LiveTotal(a, t) <= LiveTotal(b, u)
  {
    if a == [] {
    } else {
      LiveTotalPointwise(a[1..], t, b[1..], u);
    }
  }

  lemma {:induction false} NothingLeft(grants: seq<Grant>, t: Time)
    requires forall i :: 0 <= i < |grants| ==> grants[i].Contribution(t) <= 0.0
    ensures LiveTotal(grants, t) == 0.0
  {
    if grants == [] {
    } else {
      NothingLeft(grants[1..], t);
    }
  }

  lemma {:induction false} NonNegativeTotal(grants: seq<Grant>, t: Time)
    ensures 0.0 <= LiveTotal(grants, t)
  {
    if grants == [] {
    } else {
      NonNegativeTotal(grants[1..], t);
    }
  }

  // ---------------------------------------------------------------- what the loop achieves

  ghost predicate SameGrant(a: Grant, b: Grant) { a.original == b.original && a.expires == b.expires }

  /** The loop's effect, stated without the loop. */
  ghost predicate DrainedInOrder(before: seq<Grant>, rows: seq<nat>, need: real, after: seq<Grant>, left: real) {
    && |after| == |before|
    && (forall i :: 0 <= i < |before| ==> SameGrant(before[i], after[i]))
    && (forall i :: 0 <= i < |before| && i !in rows ==> after[i] == before[i])
    && (forall i :: 0 <= i < |before| && i in rows ==> 0.0 <= after[i].remaining <= before[i].remaining)
    && 0.0 <= left <= need
    && (left > 0.0 ==> forall p :: 0 <= p < |rows| && rows[p] < |after| ==> after[rows[p]].remaining == 0.0)
    && (forall p, q :: 0 <= p < q < |rows| && rows[p] < |after| && rows[q] < |after| ==>
          after[rows[q]] == before[rows[q]] || after[rows[p]].remaining == 0.0)
  }

  /** The loop's effect on the grants, and on the live total at the moment of the query. */
  lemma {:induction false} DrainEffect(grants: seq<Grant>, rows: seq<nat>, need: real, now: Time)
    requires forall p :: 0 <= p < |rows| ==> rows[p] < |grants| && grants[rows[p]].EligibleAt(now)
    requires Distinct(rows) && need >= 0.0
    ensures var (after, left) := Drain(grants, rows, need);
      && DrainedInOrder(grants, rows, need, after, left)
      && LiveTotal(after, now) == LiveTotal(grants, now) - (need - left)
  {
    DrainOrder(grants, rows, need, now);
    DrainTotal(grants, rows, need, now);
  }

  lemma {:induction false} DrainTotal(grants: seq<Grant>, rows: seq<nat>, need: real, now: Time)
    requires forall p :: 0 <= p < |rows| ==> rows[p] < |grants| && grants[rows[p]].EligibleAt(now)
    requires Distinct(rows) && need >= 0.0
    ensures var (after, left) := Drain(grants, rows, need);
      LiveTotal(after, now) == LiveTotal(grants, now) - (need - left)
    decreases |rows|
  {
    if rows == [] || need <= 0.0 {
    } else {
      var i := rows[0];
      var amount := MinReal(grants[i].remaining, need);
      var mid := grants[i := Deduct(grants[i], amount)];
      assert forall p :: 0 <= p < |rows[1..]| ==> rows[1..][p] == rows[p + 1] != i;
      DrainTotal(mid, rows[1..], need - amount, now);
      LiveTotalUpdate(grants, i, mid[i], now);
    }
  }

  lemma {:induction false} DrainOrder(grants: seq<Grant>, rows: seq<nat>, need: real, now: Time)
    requires forall p :: 0 <= p < |rows| ==> rows[p] < |grants| && grants[rows[p]].EligibleAt(now)
    requires Distinct(rows) && need >= 0.0
    ensures var (after, left) := Drain(grants, rows, need); DrainedInOrder(grants, rows, need, after, left)
    decreases |rows|
  {
    if rows == [] || need <= 0.0 {
    } else {
      var i := rows[0];
      var amount := MinReal(grants[i].remaining, need);
      var mid := grants[i := Deduct(grants[i], amount)];
      assert forall p :: 0 <= p < |rows[1..]| ==> rows[1..][p] == rows[p + 1] != i;
      DrainOrder(mid, rows[1..], need - amount, now);
      DrainHeadEffect(grants, rows, need, now);
    }
  }

  /** Puts the first deduction in front of what the rest of the loop did. */
  lemma DrainHeadEffect(grants: seq<Grant>, rows: seq<nat>, need: real, now: Time)
    requires rows != [] && need > 0.0 && Distinct(rows)
    requires forall p :: 0 <= p < |rows| ==> rows[p] < |grants| && grants[rows[p]].EligibleAt(now)
    requires
      var amount := MinReal(grants[rows[0]].remaining, need);
      var mid := grants[rows[0] := Deduct(grants[rows[0]], amount)];
      var (after, left) := Drain(mid, rows[1..], need - amount);
      DrainedInOrder(mid, rows[1..], need - amount, after, left)
    ensures var (after, left) := Drain(grants, rows, need); DrainedInOrder(grants, rows, need, after, left)
  {
    var i := rows[0];
    var rest := rows[1..];
    var amount := MinReal(grants[i].remaining, need);
    var mid := grants[i := Deduct(grants[i], amount)];
    var (after, left) := Drain(mid, rest, need - amount);
    assert i !in rest;
    assert forall k :: 0 <= k < |grants| ==> (k in rows <==> k == i || k in rest);
    forall p | 0 <= p < |rows|
      ensures left > 0.0 ==> after[rows[p]].remaining == 0.0
      ensures 0 < p && after[rows[p]] != grants[rows[p]] ==> after[i].remaining == 0.0
    {
      if p > 0 {
        assert rest[p - 1] == rows[p];
      }
    }
    forall p, q | 0 < p < q < |rows| && after[rows[q]] != grants[rows[q]]
      ensures after[rows[p]].remaining == 0.0
    {
      assert rest[p - 1] == rows[p] && rest[q - 1] == rows[q];
    }
  }

  /** The loop serves as much as there is: the whole need, or every live grant. */
  lemma {:induction false} DrainServes(grants: seq<Grant>, now: Time, rows: seq<nat>, need: real)
    requires IsEligibleOrder(grants, now, rows) && 0.0 <= need
    ensures need - Drain(grants, rows, need).1 == MinReal(need, LiveTotal(grants, now))
  {
    var (after, left) := Drain(grants, rows, need);
    DrainEffect(grants, rows, need, now);
    NonNegativeTotal(after, now);
    if left > 0.0 {
      forall i | 0 <= i < |after|
        ensures after[i].Contribution(now) <= 0.0
      {
        if i in rows {
          var p :| 0 <= p < |rows| && rows[p] == i;
        }
      }
      NothingLeft(after, now);
    }
  }

  // ---------------------------------------------------------------- one consumption

  /**
   How a positive amount is split: as much as possible from the monthly pool, of the rest as much as possible from
   the live grants, and only what neither can pay is a shortfall.
   */
  lemma {:induction false} MonthlyPoolFirst(a: Account, amount: real, now: Time, rows: seq<nat>)
    requires IsEligibleOrder(a.grants, now, rows) && 0.0 < amount
    ensures var (after, r) := Consume(a, amount, rows);
      && r.monthly == MinReal(amount, MaxReal(0.0, a.limit - a.used))
      && r.extra == MinReal(amount - r.monthly, LiveTotal(a.grants, now))
      && r.shortfall == amount - r.monthly - r.extra
      && after.limit == a.limit && after.used == a.used + r.monthly && after.overage == a.overage + r.shortfall
      && (after.used < after.limit ==> after.grants == a.grants)
  {
    var monthly := MaxReal(0.0, a.limit - a.used);
    NonNegativeTotal(a.grants, now);
    if amount > monthly {
      DrainServes(a.grants, now, rows, amount - monthly);
      DrainEffect(a.grants, rows, amount - monthly, now);
    }
  }

  /** A positive consumption lowers the reported total by exactly its amount; any other leaves the account alone. */
  lemma {:induction false} ConsumeConserves(a: Account, amount: real, now: Time, rows: seq<nat>)
    requires IsEligibleOrder(a.grants, now, rows)
    ensures var (after, r) := Consume(a, amount, rows);
      && TotalRemaining(after, now) == TotalRemaining(a, now) - MaxReal(0.0, amount)
      && r.monthly + r.extra + r.shortfall == MaxReal(0.0, amount)
      && 0.0 <= r.monthly && 0.0 <= r.extra && 0.0 <= r.shortfall
      && after.used == a.used + r.monthly && after.overage == a.overage + r.shortfall
      && LiveTotal(after.grants, now) == LiveTotal(a.grants, now) - r.extra
      && (amount <= 0.0 ==> after == a)
  {
    var monthly := MaxReal(0.0, a.limit - a.used);
    if amount > monthly {
      DrainEffect(a.grants, rows, amount - monthly, now);
    }
  }

  /** Overage is booked only when the monthly pool and every live grant have run dry. */
  lemma ShortfallMeansExhausted(a: Account, amount: real, now: Time, rows: seq<nat>)
    requires IsEligibleOrder(a.grants, now, rows)
    requires Consume(a, amount, rows).1.shortfall > 0.0
    ensures var after := Consume(a, amount, rows).0;
      && after.limit <= after.used
      && forall i :: 0 <= i < |after.grants| ==>
           && !after.grants[i].EligibleAt(now)
           && (after.grants[i].remaining <= 0.0
               || (after.grants[i].expires.Some? && after.grants[i].expires.value <= now))
  {
    var monthly := MaxReal(0.0, a.limit - a.used);
    DrainEffect(a.grants, rows, amount - monthly, now);
    var after := Consume(a, amount, rows).0;
    forall i | 0 <= i < |after.grants|
      ensures !after.grants[i].EligibleAt(now)
    {
      if i in rows {
        var p :| 0 <= p < |rows| && rows[p] == i;
      } else {
        assert after.grants[i] == a.grants[i];
      }
    }
  }

  /** No grant ever grows, changes identity or drops below zero; expired and spent grants are not touched. */
  lemma ConsumeKeepsGrants(a: Account, amount: real, now: Time, rows: seq<nat>)
    requires IsEligibleOrder(a.grants, now, rows)
    ensures var after := Consume(a, amount, rows).0.grants;
      && |after| == |a.grants|
      && forall i :: 0 <= i < |after| ==>
           && SameGrant(a.grants[i], after[i])
           && after[i].remaining <= a.grants[i].remaining
           && (a.grants[i].EligibleAt(now) ==> 0.0 <= after[i].remaining)
           && (!a.grants[i].EligibleAt(now) ==> after[i] == a.grants[i])
           && (a.grants[i].expires.Some? && a.grants[i].expires.value <= now ==> after[i] == a.grants[i])
  {
    var monthly := MaxReal(0.0, a.limit - a.used);
    if amount > monthly {
      DrainEffect(a.grants, rows, amount - monthly, now);
    }
  }

  // ---------------------------------------------------------------- whole runs

  datatype Op =
    | Charge(amount: real, now: Time, rows: seq<nat>)
    | Reset
    | IssueGrant(amount: real, expires: Option<Time>)
    | SetLimit(limit: real)

  /** An account with what has been consumed, and taken from grants, since the last monthly reset. */
  datatype Books = Books(account: Account, consumed: real, fromGrants: real)

  ghost predicate Enabled(b: Books, op: Op) {
    op.Charge? ==> IsEligibleOrder(b.account.grants, op.now, op.rows)
  }

  ghost function ApplyOp(b: Books, op: Op): Books
    requires Enabled(b, op)
  {
    var a := b.account;
    match op
    case Charge(amount, now, rows) =>
      var (after, r) := Consume(a, amount, rows);
      Books(after, b.consumed + MaxReal(0.0, amount), b.fromGrants + r.extra)
    case Reset => Books(a.(used := 0.0, overage := 0.0), 0.0, 0.0)
    case IssueGrant(amount, expires) => b.(account := a.(grants := a.grants + [Grant(amount, amount, expires)]))
    case SetLimit(limit) => b.(account := a.(limit := limit))
  }

  ghost predicate IsRun(books: seq<Books>, ops: seq<Op>) {
    && |books| == |ops| + 1
    && books[0].account.used == books[0].account.overage == 0.0
    && books[0].account.grants == []
    && books[0].consumed == books[0].fromGrants == 0.0
    && forall i :: 0 <= i < |ops| ==> Enabled(books[i], ops[i]) && books[i + 1] == ApplyOp(books[i], ops[i])
  }

  ghost predicate BooksBalance(b: Books) {
    && b.consumed == b.account.used + b.account.overage + b.fromGrants
    && forall i :: 0 <= i < |b.account.grants| && 0.0 <= b.account.grants[i].original ==>
         0.0 <= b.account.grants[i].remaining <= b.account.grants[i].original
  }

  lemma OpKeepsBalance(b: Books, op: Op)
    requires BooksBalance(b) && Enabled(b, op)
    ensures BooksBalance(ApplyOp(b, op))
  {
    if op.Charge? {
      ConsumeConserves(b.account, op.amount, op.now, op.rows);
      ConsumeKeepsGrants(b.account, op.amount, op.now, op.rows);
    }
  }

  /**
   Over every run of charges, resets, grants and limit changes: what was consumed since the last reset is
   exactly used + overage + grant deductions, and every grant stays within 0..original.
   */
  lemma {:induction false} RunBalances(books: seq<Books>, ops: seq<Op>, i: nat)
    requires IsRun(books, ops) && i < |books|
    ensures BooksBalance(books[i])
  {
    if i == 0 {
    } else {
      RunBalances(books, ops, i - 1);
      OpKeepsBalance(books[i - 1], ops[i - 1]);
    }
  }

  /** In every run, a charge that leaves anything in the monthly pool has touched no grant and booked no overage. */
  lemma {:induction false} GrantsWaitForMonthlyPool(books: seq<Books>, ops: seq<Op>, i: nat)
    requires IsRun(books, ops) && i < |ops| && ops[i].Charge?
    requires books[i + 1].account.used < books[i + 1].account.limit
    ensures books[i + 1].account.grants == books[i].account.grants
    ensures books[i + 1].account.overage == books[i].account.overage
  {
    var a, op := books[i].account, ops[i];
    assert books[i + 1] == ApplyOp(books[i], op);
    if op.amount > 0.0 {
      MonthlyPoolFirst(a, op.amount, op.now, op.rows);
      NonNegativeTotal(a.grants, op.now);
      if Consume(a, op.amount, op.rows).1.shortfall > 0.0 {
        ShortfallMeansExhausted(a, op.amount, op.now, op.rows);
      }
    }
  }
}
