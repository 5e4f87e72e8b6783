/** What a reconcile pass achieves: where each row stands after it, compared with the CR it was paired with. */
module ReconcileEffect {
  import opened Common
  import opened Digits
  import opened SandboxSync
  import opened CrPairing
  import opened CommitLoop
  import opened Reconcile

  /** What changes only with a status, and what never changes in a turn with a CR. */
  ghost predicate SameIdentity(a: Row, b: Row) {
    && a.id == b.id && a.k8sNamespace == b.k8sNamespace && a.claimName == b.claimName
    && a.pending == b.pending && a.gmtDeleted == b.gmtDeleted
  }

  /** An old snapshot is refused. */
  lemma OldSnapshotIsRefused(row: Row, cr: Cr, now: Time)
    requires IsStale(cr.resourceVersion, row.resourceVersion)
    ensures Converge(row, Some(cr), now) == (row, false)
  {
  }

  /**
   Any other CR is followed: the row takes its name, its version and, unless an operation is pending or the state
   machine forbids it, its status with the message; the row version counts the status changes, and each commits.
   */
  lemma CurrentCrIsFollowed(row: Row, cr: Cr, now: Time)
    requires !IsStale(cr.resourceVersion, row.resourceVersion)
    ensures
      var (after, commits) := Converge(row, Some(cr), now);
      var (status, message) := DeriveStatus(cr);
      var changes := row.pending.None? && IsValidTransition(row.status, status);
      && SameIdentity(row, after)
      && (cr.name != "" ==> after.sandboxName == Some(cr.name))
      && (cr.serviceFqdn != "" ==> after.serviceFqdn == Some(cr.serviceFqdn))
      && (Versioned(cr) ==> after.resourceVersion == cr.resourceVersion)
      && after.status == (if changes then status else row.status)
      && after.statusMessage == (if changes then Some(message) else row.statusMessage)
      && after.version == (if changes then row.version + 1 else row.version)
      && after.gmtStarted == (if changes && status == Ready then Some(now) else row.gmtStarted)
      && after.gmtStopped == (if changes && status == Stopped then Some(now) else row.gmtStopped)
      && (changes || (Versioned(cr) && cr.resourceVersion != row.resourceVersion) ==>
            commits && after.lastSynced == Some(now))
  {
    DerivedStatusIsLive(cr);
  }

  /** A row without a CR: a deletion is completed, a row wrongly left as deleted is marked, the rest is left alone. */
  lemma MissingCrPolicy(row: Row, now: Time)
    ensures var (after, commits) := Converge(row, None, now);
      && (row.status == Deleting ==> after == row.(status := Deleted, gmtDeleted := Some(now)) && commits)
      && (row.status in {Creating, Ready, Stopped, Cold, Error} ==> after == row && !commits)
      && (row.status == Deleted ==> after.status == Error && after.version == row.version + 1 && commits)
  {
  }

  // ---------------------------------------------------------------- the whole pass, row by row

  /** A row's turn, given the CR it is paired with. */
  function Outcome(row: Row, cr: Option<Cr>, k8sNamespace: string, now: Time): (Row, bool) {
    if InPass(row, k8sNamespace) then Converge(row, cr, now) else (row, false)
  }

  /** The pairing of the rows after the first, from the pool the first turn leaves. */
  lemma {:induction false} PairingTail(rows: seq<Row>, p: Pool, k8sNamespace: string, now: Time)
    requires rows != []
    ensures Pairing(rows, p, k8sNamespace)[1..] ==
      Pairing(rows[1..], Turn(p, rows[0], k8sNamespace, now).rest, k8sNamespace)
  {
  }

  lemma {:induction false} FirstTurn(rows: seq<Row>, p: Pool, k8sNamespace: string, now: Time)
    requires rows != []
    ensures
      var t := Turn(p, rows[0], k8sNamespace, now);
      (t.row, t.commits) == Outcome(rows[0], Pairing(rows, p, k8sNamespace)[0], k8sNamespace, now)
  {
  }

  lemma {:induction false} TurnsFollowPairing(rows: seq<Row>, p: Pool, k8sNamespace: string, now: Time, i: nat)
    requires i < |rows|
    ensures
      var t := TurnOf(rows, p, TurnAt(k8sNamespace, now), i);
      (t.row, t.commits) == Outcome(rows[i], Pairing(rows, p, k8sNamespace)[i], k8sNamespace, now)
    decreases i
  {
    if i == 0 {
      FirstTurn(rows, p, k8sNamespace, now);
    } else {
      var rest := Turn(p, rows[0], k8sNamespace, now).rest;
      TurnsFollowPairing(rows[1..], rest, k8sNamespace, now, i - 1);
      PairingTail(rows, p, k8sNamespace, now);
      assert Pairing(rows, p, k8sNamespace)[i] == Pairing(rows, p, k8sNamespace)[1..][i - 1];
    }
  }

  /** Some turn from row i on commits. */
  ghost predicate CommittedFrom(rows: seq<Row>, m: seq<Option<Cr>>, k8sNamespace: string, now: Time, i: nat)
    requires |m| == |rows|
  {
    exists j :: i <= j < |rows| && Outcome(rows[j], m[j], k8sNamespace, now).1
  }

  /**
   After a pass each row is what converging it with its own CR made of it, provided that turn or a later one
   committed; otherwise it is what it was.
   */
  lemma {:induction false} PassRowByRow(rows: seq<Row>, crs: seq<Cr>, k8sNamespace: string, now: Time, i: nat)
    requires i < |rows|
    ensures
      var m := Pairing(rows, Fill(crs), k8sNamespace);
      var after := ReconcilePass(rows, crs, k8sNamespace, now);
      && |after| == |rows|
      && after[i] ==
         if CommittedFrom(rows, m, k8sNamespace, now, i) then Outcome(rows[i], m[i], k8sNamespace, now).0 else rows[i]
  {
    var p, turn := Fill(crs), TurnAt(k8sNamespace, now);
    var m := Pairing(rows, p, k8sNamespace);
    LoopIsSurvives(rows, p, turn);
    SurvivesAt(rows, p, turn, i);
    TurnsFollowPairing(rows, p, k8sNamespace, now, i);
    forall j | 0 <= j < |rows|
      ensures TurnOf(rows, p, turn, j).commits == Outcome(rows[j], m[j], k8sNamespace, now).1
    {
      TurnsFollowPairing(rows, p, k8sNamespace, now, j);
    }
  }

  /** A pass brings every row it may change to the status and version of its CR. */
  lemma {:induction false} PassReachesCrStatus(rows: seq<Row>, crs: seq<Cr>, k8sNamespace: string, now: Time, i: nat)
    requires i < |rows| && rows[i].k8sNamespace == k8sNamespace && rows[i].pending.None?
    requires rows[i].gmtDeleted.None? || rows[i].status == Deleting
    requires Pairing(rows, Fill(crs), k8sNamespace)[i].Some?
    requires var cr := Pairing(rows, Fill(crs), k8sNamespace)[i].value;
      && !IsStale(cr.resourceVersion, rows[i].resourceVersion)
      && IsValidTransition(rows[i].status, DeriveStatus(cr).0)
    ensures
      var cr := Pairing(rows, Fill(crs), k8sNamespace)[i].value;
      var after := ReconcilePass(rows, crs, k8sNamespace, now);
      && |after| == |rows| && after[i].status == DeriveStatus(cr).0
      && (Versioned(cr) ==> after[i].resourceVersion == cr.resourceVersion)
  {
    PassRowByRow(rows, crs, k8sNamespace, now, i);
    CurrentCrIsFollowed(rows[i], Pairing(rows, Fill(crs), k8sNamespace)[i].value, now);
  }

  /** Whatever is listed, a pass never takes a row's numeric version back, and an old snapshot changes nothing. */
  lemma {:induction false} PassNeverGoesBack(rows: seq<Row>, crs: seq<Cr>, k8sNamespace: string, now: Time, i: nat)
    requires i < |rows|
    ensures
      var m := Pairing(rows, Fill(crs), k8sNamespace)[i];
      var after := ReconcilePass(rows, crs, k8sNamespace, now);
      && |after| == |rows|
      && !IsStale(after[i].resourceVersion, rows[i].resourceVersion)
      && (m.Some? && IsStale(m.value.resourceVersion, rows[i].resourceVersion) ==> after[i] == rows[i])
  {
    PassRowByRow(rows, crs, k8sNamespace, now, i);
    var m := Pairing(rows, Fill(crs), k8sNamespace)[i];
    if InPass(rows[i], k8sNamespace) && m.Some? {
      if IsStale(m.value.resourceVersion, rows[i].resourceVersion) {
        OldSnapshotIsRefused(rows[i], m.value, now);
      } else {
        VersionAfter(rows[i], m.value, now);
      }
    }
  }

  lemma VersionAfter(row: Row, cr: Cr, now: Time)
    ensures Converge(row, Some(cr), now).0.resourceVersion in {row.resourceVersion, cr.resourceVersion}
  {
  }

  /** A pass completes the deletion of a row whose CR is gone, and touches no other row without a CR. */
  lemma {:induction false} PassWithoutCr(rows: seq<Row>, crs: seq<Cr>, k8sNamespace: string, now: Time, i: nat)
    requires i < |rows| && rows[i].k8sNamespace == k8sNamespace && Pairing(rows, Fill(crs), k8sNamespace)[i].None?
    requires rows[i].gmtDeleted.None? || rows[i].status == Deleting
    ensures
      var after := ReconcilePass(rows, crs, k8sNamespace, now);
      && |after| == |rows|
      && (rows[i].status == Deleting ==> after[i] == rows[i].(status := Deleted, gmtDeleted := Some(now)))
      && (rows[i].status in {Creating, Ready, Stopped, Cold, Error} ==> after[i] == rows[i])
  {
    PassRowByRow(rows, crs, k8sNamespace, now, i);
    MissingCrPolicy(rows[i], now);
  }

  /** Rows of other namespaces, and rows deleted for good, are not touched and take no CR. */
  lemma {:induction false} PassSkipsOthers(rows: seq<Row>, crs: seq<Cr>, k8sNamespace: string, now: Time, i: nat)
    requires i < |rows|
    requires rows[i].k8sNamespace != k8sNamespace || (rows[i].gmtDeleted.Some? && rows[i].status != Deleting)
    ensures var after := ReconcilePass(rows, crs, k8sNamespace, now);
      |after| == |rows| && after[i] == rows[i]
  {
    PassRowByRow(rows, crs, k8sNamespace, now, i);
  }
}
