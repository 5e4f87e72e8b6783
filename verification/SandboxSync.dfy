/** Sandbox rows, Sandbox custom resources (CRs), and how a CR's conditions become a row status. */
module SandboxSync {
  import opened Common
  import opened Digits

  datatype Status = Creating | Ready | Stopped | Cold | Error | Deleting | Deleted

  datatype PendingOperation = Snapshotting | Restoring

  predicate IsValidTransition(from: Status, to: Status) {
    match from
    case Creating => to in {Ready, Error, Stopped, Deleting}
    case Ready => to in {Stopped, Error, Deleting}
    case Stopped => to in {Creating, Ready, Cold, Error, Deleting}
    case Cold => to in {Stopped, Ready, Error, Deleting}
    case Error => to in {Ready, Creating, Stopped, Cold, Deleting}
    case Deleting => to == Deleted
    case Deleted => false
  }

  /** The state machine, told by where a status can be reached from. */
  lemma WhereStatusesComeFrom(from: Status)
    ensures IsValidTransition(from, Deleted) <==> from == Deleting
    ensures IsValidTransition(from, Deleting) <==> from !in {Deleting, Deleted}
    ensures IsValidTransition(from, Error) <==> from !in {Error, Deleting, Deleted}
    ensures IsValidTransition(from, Stopped) <==> from !in {Stopped, Deleting, Deleted}
    ensures IsValidTransition(from, Ready) <==> from in {Creating, Stopped, Cold, Error}
    ensures IsValidTransition(from, Creating) <==> from in {Stopped, Error}
    ensures IsValidTransition(from, Cold) <==> from in {Stopped, Error}
  {
  }

  datatype Condition = Condition(kind: string, status: Option<string>, reason: Option<string>, message: Option<string>)

  datatype OwnerRef = OwnerRef(kind: string, name: string, controller: Option<bool>)

  /** A listed or watched CR; absent text fields are "". */
  datatype Cr = Cr(
    name: string,
    resourceVersion: Option<string>,
    owners: seq<OwnerRef>,
    operatingMode: Option<string>,
    conditions: seq<Condition>,
    serviceFqdn: string)

  datatype Row = Row(
    id: string,
    k8sNamespace: string,
    sandboxName: Option<string>,
    claimName: Option<string>,
    resourceVersion: Option<string>,
    status: Status,
    pending: Option<PendingOperation>,
    statusMessage: Option<string>,
    serviceFqdn: Option<string>,
    version: int,
    lastSynced: Option<Time>,
    gmtStarted: Option<Time>,
    gmtStopped: Option<Time>,
    gmtDeleted: Option<Time>)
  {
    /** Rows the sync loop still has to converge. */
    predicate SyncVisible() { gmtDeleted.None? || status == Deleting }
  }

  /** The controlling SandboxClaim: the first matching owner reference; `controller` defaults to true. */
  function ClaimOwner(owners: seq<OwnerRef>): Option<string> {
    if owners == [] then None
    else if owners[0].kind == "SandboxClaim" && owners[0].name != "" && owners[0].controller != Some(false)
    then Some(owners[0].name)
    else ClaimOwner(owners[1..])
  }

  predicate IsControllingClaim(ref: OwnerRef) {
    ref.kind == "SandboxClaim" && ref.name != "" && ref.controller != Some(false)
  }

  /** Reference i is the first that controls. */
  ghost predicate IsFirstClaim(owners: seq<OwnerRef>, i: nat) {
    && i < |owners| && IsControllingClaim(owners[i])
    && forall j :: 0 <= j < i ==> !IsControllingClaim(owners[j])
  }

  /** The claim found is the name of the first controlling reference. */
  lemma {:induction false} ClaimOwnerIsFirst(owners: seq<OwnerRef>, i: nat)
    requires IsFirstClaim(owners, i)
    ensures ClaimOwner(owners) == Some(owners[i].name)
    decreases i
  {
    if i == 0 {
    } else {
      assert !IsControllingClaim(owners[0]);
      ClaimOwnerIsFirst(owners[1..], i - 1);
    }
  }

  lemma {:induction false} NoClaimOwner(owners: seq<OwnerRef>)
    ensures ClaimOwner(owners).None? <==> forall i :: 0 <= i < |owners| ==> !IsControllingClaim(owners[i])
  {
    if owners == [] {
    } else {
      NoClaimOwner(owners[1..]);
      assert forall i :: 0 < i < |owners| ==> owners[i] == owners[1..][i - 1];
    }
  }

  /** The condition of a type; when a type is repeated the last one counts. */
  function ConditionOf(conditions: seq<Condition>, kind: string): Option<Condition> {
    if conditions == [] then None
    else
      var last := conditions[|conditions| - 1];
      if last.kind == kind then Some(last) else ConditionOf(conditions[..|conditions| - 1], kind)
  }

  /** Row i is the last condition of its type. */
  ghost predicate IsLastOf(conditions: seq<Condition>, kind: string, i: nat) {
    && i < |conditions| && conditions[i].kind == kind
    && forall j :: i < j < |conditions| ==> conditions[j].kind != kind
  }

  /** The condition found is the last of its type, and there is one if any has that type. */
  lemma {:induction false} ConditionOfIsLast(conditions: seq<Condition>, kind: string, i: nat)
    requires IsLastOf(conditions, kind, i)
    ensures ConditionOf(conditions, kind) == Some(conditions[i])
    decreases |conditions|
  {
    if i == |conditions| - 1 {
    } else {
      ConditionOfIsLast(conditions[..|conditions| - 1], kind, i);
    }
  }

  lemma {:induction false} NoConditionOf(conditions: seq<Condition>, kind: string)
    ensures ConditionOf(conditions, kind).None? <==> forall i :: 0 <= i < |conditions| ==> conditions[i].kind != kind
  {
    if conditions == [] {
    } else {
      NoConditionOf(conditions[..|conditions| - 1], kind);
    }
  }

  function Or(text: Option<string>, default: string): string {
    if text.Some? then text.value else default
  }

  function DeriveStatus(cr: Cr): (Status, string) {
    var ready := ConditionOf(cr.conditions, "Ready");
    var suspended := ConditionOf(cr.conditions, "Suspended");
    var finished := ConditionOf(cr.conditions, "Finished");
    var suspending := Or(cr.operatingMode, "Running") == "Suspended";
    if suspending && (suspended.None? || suspended.value.status == Some("True")) then
      (Stopped, "Sandbox is suspended")
    else if suspending && ready.Some? && ready.value.reason == Some("SandboxSuspended") then
      (Stopped, Or(ready.value.message, "Sandbox is suspending"))
    else if finished.Some? && finished.value.status == Some("True") then
      (Stopped, Or(finished.value.message, "Sandbox finished"))
    else if ready.None? then
      (Creating, "No Ready condition yet")
    else
      var reason := Or(ready.value.reason, "");
      var message := Or(ready.value.message, "");
      if reason == "SandboxExpired" then (Stopped, "Sandbox expired")
      else if reason == "SandboxSuspended" then (Stopped, if message == "" then "Sandbox is suspended" else message)
      else if reason == "ReconcilerError" then (Error, message)
      else if Or(ready.value.status, "Unknown") == "True" then (Ready, message)
      else (Creating, message)
  }

  /** The Ready condition with a reason that overrides its status. */
  predicate HasSpecialReason(ready: Condition) {
    ready.reason in {Some("SandboxExpired"), Some("SandboxSuspended"), Some("ReconcilerError")}
  }

  /** Told to suspend, and confirmed, by either condition. */
  predicate IsSuspended(cr: Cr) {
    && cr.operatingMode == Some("Suspended")
    && var suspended := ConditionOf(cr.conditions, "Suspended");
       var ready := ConditionOf(cr.conditions, "Ready");
       || suspended.None? || suspended.value.status == Some("True")
       || (ready.Some? && ready.value.reason == Some("SandboxSuspended"))
  }

  predicate IsFinished(cr: Cr) {
    var finished := ConditionOf(cr.conditions, "Finished");
    finished.Some? && finished.value.status == Some("True")
  }

  /** When a CR counts as ready, stopped, in error or still being created: exactly one of four disjoint cases. */
  lemma DerivedStatusCases(cr: Cr)
    ensures
      var status := DeriveStatus(cr).0;
      var ready := ConditionOf(cr.conditions, "Ready");
      var over := IsSuspended(cr) || IsFinished(cr);
      && (status == Stopped <==>
            over || (ready.Some? && ready.value.reason in {Some("SandboxExpired"), Some("SandboxSuspended")}))
      && (status == Ready <==>
            !over && ready.Some? && ready.value.status == Some("True") && !HasSpecialReason(ready.value))
      && (status == Error <==> !over && ready.Some? && ready.value.reason == Some("ReconcilerError"))
      && (status == Creating <==>
            !over && (ready.None? || (ready.value.status != Some("True") && !HasSpecialReason(ready.value))))
  {
  }

  /** A listed CR whose numeric resourceVersion is behind the row's. */
  predicate IsStale(cr: Option<string>, row: Option<string>) {
    && cr.Some? && row.Some? && cr.value != "" && row.value != "" && AllDigits(cr.value) && AllDigits(row.value)
    && ToNat(cr.value) < ToNat(row.value)
  }

  /** Versions are compared as the numbers they spell; anything else, or a missing version, is never stale. */
  lemma {:induction false} StaleIffSmaller(cr: Option<string>, row: Option<string>, n: nat, m: nat)
    ensures IsStale(Some(Decimal(n)), Some(Decimal(m))) <==> n < m
    ensures IsStale(cr, row) ==> cr.Some? && row.Some? && AllDigits(cr.value) && AllDigits(row.value)
    ensures cr in {None, Some("")} || row in {None, Some("")} ==> !IsStale(cr, row)
  {
    DecimalRoundTrip(n);
    DecimalRoundTrip(m);
  }

  predicate Suppressed(row: Row) { row.pending.Some? }

  /** The row part of `_optimistic_update`, when the version check passes. */
  function WriteStatus(
      row: Row, status: Status, resourceVersion: Option<string>, message: Option<string>, now: Time): Row
  {
    row.(status := status,
         version := row.version + 1,
         lastSynced := Some(now),
         resourceVersion :=
           if resourceVersion.Some? && resourceVersion.value != "" then resourceVersion else row.resourceVersion,
         statusMessage := if message.Some? then message else row.statusMessage,
         gmtStarted := if status == Ready then Some(now) else row.gmtStarted,
         gmtStopped := if status == Stopped then Some(now) else row.gmtStopped)
  }

  function WriteMetadata(row: Row, resourceVersion: Option<string>, now: Time): Row {
    row.(resourceVersion := resourceVersion, lastSynced := Some(now))
  }

  /** Name and endpoint of the CR, copied into the row; different from the row exactly when it is dirty. */
  function Tag(row: Row, cr: Cr): Row {
    row.(sandboxName := if cr.name != "" then Some(cr.name) else row.sandboxName,
         serviceFqdn := if cr.serviceFqdn != "" then Some(cr.serviceFqdn) else row.serviceFqdn)
  }

  /**
   What one turn of the reconcile loop does to a row: the flushed row, and whether the turn commits.
   `cr` is the CR paired with the row; the version check passes because nobody else writes.
   */
  function Converge(row: Row, cr: Option<Cr>, now: Time): (Row, bool) {
    match cr
    case None =>
      (match row.status
       case Deleting => (row.(status := Deleted, gmtDeleted := Some(now)), true)
       case Deleted => (WriteStatus(row, Error, None, None, now), true)
       case _ => (row, false))
    case Some(cr) =>
      if IsStale(cr.resourceVersion, row.resourceVersion) then (row, false)
      else
        var (status, message) := DeriveStatus(cr);
        var tagged := Tag(row, cr);
        var newVersion := cr.resourceVersion != row.resourceVersion;
        if Suppressed(row) then
          if newVersion then (WriteMetadata(tagged, cr.resourceVersion, now), true) else (tagged, tagged != row)
        else if !newVersion && status == row.status then (tagged, tagged != row)
        else if status != row.status && IsValidTransition(row.status, status) then
          (WriteStatus(tagged, status, cr.resourceVersion, Some(message), now), true)
        else if newVersion then (WriteMetadata(tagged, cr.resourceVersion, now), true)
        else (tagged, false)
  }

  /** Would the watch handler apply an event about this CR to this row? */
  predicate WatchMatches(row: Row, cr: Cr, k8sNamespace: string) {
    var owner := ClaimOwner(cr.owners);
    && (row.sandboxName == Some(cr.name)
        || row.claimName == Some(cr.name)
        || (owner.Some? && owner.value != cr.name && row.claimName == owner))
    && row.k8sNamespace == k8sNamespace
    && row.SyncVisible()
  }
}
