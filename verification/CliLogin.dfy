/**
 The CLI login flow: a browser approves the flow, the command line exchanges it for a token, and the OAuth callback
 may fail it. Approval and exchange are compare-and-set updates; failing is a read followed by a blind write.
 */
module CliLogin {
  import opened Common

  datatype Status = Pending | Approved | Used | Failed

  /** What a caller is shown: a pending flow past its expiry counts as expired. */
  datatype Shown = Expired | Plain(status: Status)

  function EffectiveStatus(status: Status, expires: Time, now: Time): Shown {
    if status == Pending && now > expires then Expired else Plain(status)
  }

  /** The stored row. */
  datatype Flow =
    Flow(status: Status, userId: Option<string>, provider: Option<string>, completed: Option<Time>, expires: Time)

  /** The UPDATE of approve_cli_flow: it finds a pending row only, whatever its expiry. */
  function TryApprove(f: Flow, user: string, provider: string, now: Time): Option<Flow> {
    if f.status != Pending then None
    else Some(f.(status := Approved, userId := Some(user), provider := Some(provider), completed := Some(now)))
  }

  /** The UPDATE of consume_cli_flow. */
  function TryConsume(f: Flow): Option<Flow> {
    if f.status != Approved then None else Some(f.(status := Used))
  }

  function FailedAt(f: Flow, now: Time): Flow { f.(status := Failed, completed := Some(now)) }

  class CliLoginFlow {
    var status: Status
    var userId: Option<string>
    var provider: Option<string>
    var completed: Option<Time>
    const expires: Time

    constructor (now: Time)
      ensures Value() == Flow(Pending, None, None, None, now + 600 * SECOND)
    {
      status, userId, provider, completed, expires := Pending, None, None, None, now + 600 * SECOND;
    }

    function Value(): Flow
      reads this
    {
      Flow(status, userId, provider, completed, expires)
    }

    /** approve_cli_flow: takes effect, and says so, exactly on a pending flow; else nothing changes. */
    method Approve(user: string, via: string, now: Time) returns (ok: bool)
      modifies this
      ensures ok <==> old(status) == Pending
      ensures TryApprove(old(Value()), user, via, now) == if ok then Some(Value()) else None
      ensures !ok ==> Value() == old(Value())
    {
      ok := status == Pending;
      if ok {
        status, userId, provider, completed := Approved, Some(user), Some(via), Some(now);
      }
    }

    /** consume_cli_flow: takes effect, and says so, exactly on an approved flow; else nothing changes. */
    method Consume() returns (ok: bool)
      modifies this`status
      ensures ok <==> old(status) == Approved
      ensures TryConsume(old(Value())) == if ok then Some(Value()) else None
      ensures !ok ==> Value() == old(Value())
    {
      ok := status == Approved;
      if ok {
        status := Used;
      }
    }

    /** The write of _fail_cli_flow, guarded only by the status read earlier. */
    method Fail(seen: Status, now: Time)
      modifies this
      ensures Value() == if seen == Pending then FailedAt(old(Value()), now) else old(Value())
    {
      if seen == Pending {
        status, completed := Failed, Some(now);
      }
    }
  }

  // ---------------------------------------------------------------- requests interleaving on one flow

  /** A request that has read the row and not yet written it. */
  datatype Request =
    | Approver(user: string, provider: string)
    | Failer
    | Exchanger(user: string)

  /** `approvals` and `tokens` record the users approved and the users tokens were issued for, in order. */
  datatype State = State(flow: Flow, requests: map<nat, Request>, approvals: seq<string>, tokens: seq<string>)

  datatype Step =
    /** the effective status is read and must be pending */
    | ReadToApprove(req: nat, user: string, provider: string, now: Time)
    | WriteApproval(req: nat, now: Time)
    /** only the stored status is read, not the expiry */
    | ReadToFail(req: nat)
    | WriteFailure(req: nat, now: Time)
    /** the effective status must be approved and the user must still exist */
    | ReadToExchange(req: nat, now: Time, userExists: bool)
    | ConsumeAndIssue(req: nat)

  function Apply(s: State, step: Step): State {
    var done := s.(requests := s.requests - {step.req});
    match step
    case ReadToApprove(req, user, provider, now) =>
      if EffectiveStatus(s.flow.status, s.flow.expires, now) == Plain(Pending)
      then s.(requests := s.requests[req := Approver(user, provider)]) else done
    case WriteApproval(req, now) =>
      if req in s.requests && s.requests[req].Approver? then
        var r := s.requests[req];
        var approved := TryApprove(s.flow, r.user, r.provider, now);
        if approved.None? then done else done.(flow := approved.value, approvals := s.approvals + [r.user])
      else done
    case ReadToFail(req) =>
      if s.flow.status == Pending then s.(requests := s.requests[req := Failer]) else done
    case WriteFailure(req, now) =>
      if req in s.requests && s.requests[req].Failer? then done.(flow := FailedAt(s.flow, now)) else done
    case ReadToExchange(req, now, userExists) =>
      if EffectiveStatus(s.flow.status, s.flow.expires, now) == Plain(Approved) && s.flow.userId.Some? && userExists
      then s.(requests := s.requests[req := Exchanger(s.flow.userId.value)]) else done
    case ConsumeAndIssue(req) =>
      if req in s.requests && s.requests[req].Exchanger? && TryConsume(s.flow).Some?
      then done.(flow := TryConsume(s.flow).value, tokens := s.tokens + [s.requests[req].user]) else done
  }

  function Init(created: Time): State {
    State(Flow(Pending, None, None, None, created + 600 * SECOND), map[], [], [])
  }

  ghost predicate IsRun(states: seq<State>, steps: seq<Step>, created: Time) {
    && |states| == |steps| + 1
    && states[0] == Init(created)
    && forall i :: 0 <= i < |steps| ==> states[i + 1] == Apply(states[i], steps[i])
  }

  ghost predicate Inv(s: State) {
    && |s.approvals| <= 1
    && (s.flow.status == Pending ==> s.approvals == [])
    && (s.flow.status in {Approved, Used} ==> |s.approvals| == 1)
    && s.flow.userId == (if s.approvals == [] then None else Some(s.approvals[0]))
    && (s.tokens == [] || (s.tokens == s.approvals && s.flow.status in {Used, Failed}))
    && (s.flow.status == Used ==> s.tokens == s.approvals)
    && (forall req :: req in s.requests && s.requests[req].Exchanger? ==> s.approvals == [s.requests[req].user])
  }

  lemma StepKeepsInv(s: State, step: Step)
    requires Inv(s)
    ensures Inv(Apply(s, step))
  {
    if step.WriteApproval? && s.flow.status == Pending {
      assert forall req :: req in s.requests ==> !s.requests[req].Exchanger?;
    }
  }

  lemma {:induction false} RunKeepsInv(states: seq<State>, steps: seq<Step>, created: Time, i: nat)
    requires IsRun(states, steps, created) && i < |states|
    ensures Inv(states[i])
  {
    if i == 0 {
    } else {
      RunKeepsInv(states, steps, created, i - 1);
      StepKeepsInv(states[i - 1], steps[i - 1]);
    }
  }

  /** However requests interleave, at most one token is ever issued, and only for the one user who approved the flow. */
  lemma AtMostOneToken(states: seq<State>, steps: seq<Step>, created: Time, i: nat)
    requires IsRun(states, steps, created) && i < |states|
    ensures |states[i].tokens| <= 1 && |states[i].approvals| <= 1
    ensures states[i].tokens != [] ==> states[i].tokens == states[i].approvals
    ensures states[i].tokens != [] ==> states[i].flow.userId == Some(states[i].tokens[0])
  {
    RunKeepsInv(states, steps, created, i);
  }

  /** Once the flow has a user it keeps that user, and once it has left pending it never returns. */
  lemma {:induction false} ApprovalIsFinal(states: seq<State>, steps: seq<Step>, created: Time, i: nat, j: nat)
    requires IsRun(states, steps, created) && i <= j < |states|
    ensures states[i].flow.userId.Some? ==>
      states[j].flow.userId == states[i].flow.userId && states[j].approvals == states[i].approvals
    ensures states[i].flow.status != Pending ==> states[j].flow.status != Pending
    ensures states[i].tokens != [] ==> states[j].tokens == states[i].tokens
    decreases j - i
  {
    if i == j {
    } else {
      ApprovalIsFinal(states, steps, created, i, j - 1);
      RunKeepsInv(states, steps, created, j - 1);
    }
  }

  /** Every approval comes from a request that found the flow pending and unexpired. */
  ghost predicate SawPendingUnexpired(states: seq<State>, steps: seq<Step>, k: nat, user: string) {
    && k < |steps| && k < |states| && steps[k].ReadToApprove? && steps[k].user == user
    && states[k].flow.status == Pending && steps[k].now <= states[k].flow.expires
  }

  lemma {:induction false} ApproverHadRead(states: seq<State>, steps: seq<Step>, created: Time, i: nat, req: nat)
    requires IsRun(states, steps, created) && i < |states|
    requires req in states[i].requests && states[i].requests[req].Approver?
    ensures exists k: nat :: k < i && SawPendingUnexpired(states, steps, k, states[i].requests[req].user)
  {
    var s, step := states[i - 1], steps[i - 1];
    if req in s.requests && s.requests[req] == states[i].requests[req] {
      ApproverHadRead(states, steps, created, i - 1, req);
    } else {
      assert SawPendingUnexpired(states, steps, i - 1, states[i].requests[req].user);
    }
  }

  /** So a token's user had asked to approve the flow while it was pending and within its ten minutes. */
  lemma {:induction false} TokenUserApprovedInTime(states: seq<State>, steps: seq<Step>, created: Time, i: nat)
    requires IsRun(states, steps, created) && i < |states| && states[i].approvals != []
    ensures exists k: nat :: k < i && SawPendingUnexpired(states, steps, k, states[i].approvals[0])
  {
    var s, step := states[i - 1], steps[i - 1];
    if s.approvals != [] {
      RunKeepsInv(states, steps, created, i - 1);
      RunKeepsInv(states, steps, created, i);
      TokenUserApprovedInTime(states, steps, created, i - 1);
    } else {
      assert step.WriteApproval? && step.req in s.requests && s.requests[step.req].Approver?;
      var user := s.requests[step.req].user;
      assert states[i].approvals == [user];
      ApproverHadRead(states, steps, created, i - 1, step.req);
      var k: nat :| k < i - 1 && SawPendingUnexpired(states, steps, k, user);
    }
  }

  /**
   A login nobody disturbs: the user approves and the command line exchanges. It yields the user's token if and only
   if the approval was asked for within ten minutes of the flow's creation.
   */
  lemma UndisturbedLoginSucceedsIff(created: Time, user: string, provider: string, asked: Time, later: Time)
    ensures
      var s1 := Apply(Init(created), ReadToApprove(1, user, provider, asked));
      var s2 := Apply(s1, WriteApproval(1, later));
      var s3 := Apply(s2, ReadToExchange(2, later, true));
      var s4 := Apply(s3, ConsumeAndIssue(2));
      && (asked <= created + 600 * SECOND ==> s4.tokens == [user] && s4.flow.status == Used)
      && (asked > created + 600 * SECOND ==> s4.tokens == [] && s4.flow.status == Pending)
  {
  }

  /** A deleted user gets no token, and a failure read and written undisturbed ends a pending flow. */
  lemma RefusedExchangeAndFailure(s: State, req: nat, now: Time)
    ensures Apply(Apply(s, ReadToExchange(req, now, false)), ConsumeAndIssue(req)).tokens == s.tokens
    ensures s.flow.status == Pending ==> Apply(Apply(s, ReadToFail(req)), WriteFailure(req, now)).flow.status == Failed
  {
  }

  // ---------------------------------------------------------------- what the blind write costs

  /** A failed flow stays failed, and whatever tokens it had are all it will ever have. */
  lemma {:induction false} FailedIsDead(states: seq<State>, steps: seq<Step>, created: Time, i: nat, j: nat)
    requires IsRun(states, steps, created) && i <= j < |states| && states[i].flow.status == Failed
    ensures states[j].flow.status == Failed && states[j].tokens == states[i].tokens
    decreases j - i
  {
    if i == j {
    } else {
      FailedIsDead(states, steps, created, i, j - 1);
    }
  }

  /** A failure read while pending and written after an approval wipes it out: the user is never given a token. */
  lemma FailureOverwritesApproval(user: string, states: seq<State>, steps: seq<Step>, created: Time, j: nat)
    requires IsRun(states, steps, created) && 4 <= j < |states|
    requires steps[..2] == [ReadToFail(1), ReadToApprove(2, user, "email", created)]
    requires steps[2..4] == [WriteApproval(2, created), WriteFailure(1, created)]
    ensures states[3].flow.status == Approved && states[4].flow.status == Failed && states[4].flow.userId == Some(user)
    ensures states[j].tokens == []
  {
    assert steps[..2][0] == steps[0] && steps[..2][1] == steps[1];
    assert steps[2..4][0] == steps[2] && steps[2..4][1] == steps[3];
    assert states[1] == Apply(states[0], steps[0]);
    assert states[2] == Apply(states[1], steps[1]);
    assert states[3] == Apply(states[2], steps[2]);
    assert states[4] == Apply(states[3], steps[3]);
    FailedIsDead(states, steps, created, 4, j);
  }

  /** Nobody who read the flow while pending is still to fail it. */
  ghost predicate NoFailer(s: State) { forall req :: req in s.requests ==> !s.requests[req].Failer? }

  /** An approval with no failer under way stays, until it is used for its one token. */
  lemma {:induction false} UncontestedApprovalSurvives(
      states: seq<State>, steps: seq<Step>, created: Time, i: nat, j: nat)
    requires IsRun(states, steps, created) && i <= j < |states|
    requires states[i].flow.status in {Approved, Used} && NoFailer(states[i])
    ensures states[j].flow.status in {Approved, Used} && NoFailer(states[j])
    ensures states[j].flow.status == Used <==> states[j].tokens == states[i].approvals
    decreases j - i
  {
    RunKeepsInv(states, steps, created, i);
    RunKeepsInv(states, steps, created, j);
    if i == j {
    } else {
      UncontestedApprovalSurvives(states, steps, created, i, j - 1);
      ApprovalIsFinal(states, steps, created, i, j);
    }
  }

  /** With a failer still to write, the approval can always be lost. */
  lemma ContestedApprovalCanBeLost(s: State, now: Time)
    requires s.flow.status in {Approved, Used} && !NoFailer(s)
    ensures exists req :: Apply(s, WriteFailure(req, now)).flow.status == Failed
  {
    var req :| req in s.requests && s.requests[req].Failer?;
    assert Apply(s, WriteFailure(req, now)).flow.status == Failed;
  }
}
