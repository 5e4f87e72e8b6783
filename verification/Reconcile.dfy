/** A whole reconcile pass over the sandbox table, and why a second pass changes nothing. */
module Reconcile {
  import opened Common
  import opened SandboxSync
  import opened CrPairing
  import opened CommitLoop

  /** One turn of the pass: rows of other namespaces, and deleted rows, are not loaded at all. */
  function Turn(p: Pool, row: Row, k8sNamespace: string, now: Time): TurnResult<Row, Pool> {
    if !InPass(row, k8sNamespace) then TurnResult(row, false, p)
    else
      var (cr, rest) := Take(p, row);
      var (next, commits) := Converge(row, cr, now);
      TurnResult(next, commits, rest)
  }

  function TurnAt(k8sNamespace: string, now: Time): (Pool, Row) -> TurnResult<Row, Pool> {
    (p, row) => Turn(p, row, k8sNamespace, now)
  }

  function ReconcilePass(rows: seq<Row>, crs: seq<Cr>, k8sNamespace: string, now: Time): seq<Row> {
    Loop(rows, Fill(crs), TurnAt(k8sNamespace, now), [], rows)
  }

  class SandboxTable {
    var rows: seq<Row>

    constructor (rows: seq<Row>)
      ensures this.rows == rows
    {
      this.rows := rows;
    }

    static method ReconcileRow(maps: CrMaps, row: Row, k8sNamespace: string, now: Time)
        returns (next: Row, commits: bool)
      modifies maps
      ensures TurnResult(next, commits, maps.Value()) == TurnAt(k8sNamespace, now)(old(maps.Value()), row)
    {
      if row.k8sNamespace != k8sNamespace || !row.SyncVisible() {
        return row, false;
      }
      var cr := maps.Pop(row);
      var (converged, commit) := Converge(row, cr, now);
      return converged, commit;
    }

    /** One pass: `rows` is the committed table, `session` what has been flushed in this pass. */
    method Reconcile(crs: seq<Cr>, k8sNamespace: string, now: Time)
      modifies this
      ensures rows == ReconcilePass(old(rows), crs, k8sNamespace, now)
    {
      var maps := new CrMaps(crs);
      var sandboxes := rows;
      var session: seq<Row> := [];
      ghost var turn := TurnAt(k8sNamespace, now);
      var i := 0;
      while i < |sandboxes|
        invariant i <= |sandboxes|
        invariant Loop(sandboxes[i..], maps.Value(), turn, session, rows)
          == Loop(sandboxes, Fill(crs), turn, [], sandboxes)
      {
        assert sandboxes[i..][0] == sandboxes[i] && sandboxes[i..][1..] == sandboxes[i + 1..];
        var row, commits := ReconcileRow(maps, sandboxes[i], k8sNamespace, now);
        session := session + [row];
        if commits {
          rows := session + sandboxes[i + 1..];
        }
        i := i + 1;
      }
      assert sandboxes[i..] == [];
    }
  }

  // ---------------------------------------------------------------- when a second pass changes nothing

  /** A listed CR as the API server returns it, with a resourceVersion. */
  ghost predicate Versioned(cr: Cr) {
    cr.resourceVersion.Some? && cr.resourceVersion.value != ""
  }

  /**
   The guard of the branch that fails: a status is about to be written for a CR without a resourceVersion while the
   row has one. The status write keeps the row's version, so the next pass takes the CR for a new one and erases it.
   */
  ghost predicate ErasesVersion(row: Row, cr: Cr) {
    && !Versioned(cr) && cr.resourceVersion != row.resourceVersion
    && !Suppressed(row)
    && DeriveStatus(cr).0 != row.status && IsValidTransition(row.status, DeriveStatus(cr).0)
  }

  lemma DerivedStatusIsLive(cr: Cr)
    ensures DeriveStatus(cr).0 in {Stopped, Creating, Error, Ready}
  {
  }

  lemma ConvergeIsStable(row: Row, cr: Cr, now: Time, later: Time)
    requires row.SyncVisible() && !ErasesVersion(row, cr)
    ensures var settled := Converge(row, Some(cr), now).0;
      settled.SyncVisible() && Converge(settled, Some(cr), later) == (settled, false)
  {
    DerivedStatusIsLive(cr);
    assert Tag(Tag(row, cr), cr) == Tag(row, cr);
  }

  lemma ErasedVersionIsNotStable(row: Row, cr: Cr, now: Time, later: Time)
    requires row.SyncVisible() && ErasesVersion(row, cr)
    ensures var (settled, commits) := Converge(row, Some(cr), now);
      var (again, recommits) := Converge(settled, Some(cr), later);
      && settled.SyncVisible() && commits && recommits
      && settled.resourceVersion == row.resourceVersion && again.resourceVersion == cr.resourceVersion
  {
    DerivedStatusIsLive(cr);
  }

  /**
   Converging a converged row again neither changes nor commits it, whatever the clock says, if and only if the first
   time did not leave a version to be erased; in that case both times commit.
   */
  lemma ConvergeIsStableIff(row: Row, cr: Cr, now: Time, later: Time)
    requires row.SyncVisible()
    ensures var (settled, commits) := Converge(row, Some(cr), now);
      var (again, recommits) := Converge(settled, Some(cr), later);
      && settled.SyncVisible()
      && (again == settled <==> !ErasesVersion(row, cr))
      && (recommits <==> ErasesVersion(row, cr))
      && (ErasesVersion(row, cr) ==> commits)
  {
    if ErasesVersion(row, cr) {
      ErasedVersionIsNotStable(row, cr, now, later);
    } else {
      ConvergeIsStable(row, cr, now, later);
    }
  }

  /** A row without a CR settles at once, or leaves the pass. */
  lemma ConvergeWithoutCrIsStable(row: Row, now: Time, later: Time)
    ensures var settled := Converge(row, None, now).0;
      settled.SyncVisible() ==> Converge(settled, None, later) == (settled, false)
  {
  }

  /** A turn that does not commit does the same at any other time. */
  lemma QuietTurnIgnoresClock(row: Row, cr: Option<Cr>, now: Time, later: Time)
    ensures Converge(row, cr, now).1 == Converge(row, cr, later).1
    ensures !Converge(row, cr, now).1 ==> Converge(row, cr, now) == Converge(row, cr, later)
  {
  }

  /** The rename of `sandboxName` makes the row find the same CR again, and leaves the same pool behind. */
  lemma TakeIsStable(p: Pool, row: Row, now: Time)
    requires Consistent(p)
    ensures var (cr, rest) := Take(p, row);
      Take(p, Converge(row, cr, now).0) == (cr, rest)
  {
    TakeRemovesOne(p, row);
    var (cr, rest) := Take(p, row);
    var settled := Converge(row, cr, now).0;
    if cr.Some? && settled.sandboxName == Some(cr.value.name) {
      assert Take(p, settled) == (cr, Without(p, cr.value));
    } else {
      assert settled.sandboxName == row.sandboxName;
    }
  }

  lemma ConvergeKeepsNamespace(row: Row, cr: Option<Cr>, now: Time)
    ensures Converge(row, cr, now).0.k8sNamespace == row.k8sNamespace
  {
  }

  /** The turn pairs the row with nothing, or with a CR that erases no version. */
  ghost predicate GoodTurn(p: Pool, row: Row, k8sNamespace: string) {
    InPass(row, k8sNamespace) ==>
      var cr := Take(p, row).0;
      cr.Some? ==> !ErasesVersion(row, cr.value)
  }

  lemma TurnIsStableIff(p: Pool, row: Row, k8sNamespace: string, now: Time, later: Time)
    requires Consistent(p)
    ensures
      var t := Turn(p, row, k8sNamespace, now);
      var again := Turn(p, t.row, k8sNamespace, later);
      && Consistent(t.rest) && again.rest == t.rest
      && (GoodTurn(p, row, k8sNamespace) ==> again == TurnResult(t.row, false, t.rest))
      && (!GoodTurn(p, row, k8sNamespace) ==> t.commits && again.commits && again.row != t.row)
  {
    if InPass(row, k8sNamespace) {
      var (cr, rest) := Take(p, row);
      TakeRemovesOne(p, row);
      TakeIsStable(p, row, now);
      ConvergeKeepsNamespace(row, cr, now);
      if cr.Some? {
        ConvergeIsStableIff(row, cr.value, now, later);
      } else {
        ConvergeWithoutCrIsStable(row, now, later);
      }
    }
  }

  lemma PassesRedoEachOther(k8sNamespace: string, now: Time, later: Time)
    ensures Redoes(p => Consistent(p), (p, row) => GoodTurn(p, row, k8sNamespace),
                   TurnAt(k8sNamespace, now), TurnAt(k8sNamespace, later))
  {
    forall p, row | Consistent(p)
      ensures var t := TurnAt(k8sNamespace, now)(p, row);
        var again := TurnAt(k8sNamespace, later)(p, t.row);
        && Consistent(t.rest) && again.rest == t.rest
        && (GoodTurn(p, row, k8sNamespace) ==> again == TurnResult(t.row, false, t.rest))
        && (!GoodTurn(p, row, k8sNamespace) ==> t.commits && again.commits && again.row != t.row)
      ensures !TurnAt(k8sNamespace, now)(p, row).commits ==>
        && !TurnAt(k8sNamespace, later)(p, row).commits
        && TurnAt(k8sNamespace, later)(p, row).rest == TurnAt(k8sNamespace, now)(p, row).rest
    {
      TurnIsStableIff(p, row, k8sNamespace, now, later);
      QuietTurnIgnoresClock(row, Take(p, row).0, now, later);
    }
  }

  /** No row of the pass is paired with a CR that makes it lose its version. */
  ghost predicate NoVersionErased(rows: seq<Row>, p: Pool, k8sNamespace: string) {
    var m := Pairing(rows, p, k8sNamespace);
    forall i :: 0 <= i < |rows| && m[i].Some? ==> !ErasesVersion(rows[i], m[i].value)
  }

  /** Going turn by turn, or looking at the pairing as a whole, is the same. */
  lemma {:induction false} GoodTurnsAreGoodPairs(rows: seq<Row>, p: Pool, k8sNamespace: string, now: Time)
    ensures AllGood(rows, p, (q, row) => GoodTurn(q, row, k8sNamespace), TurnAt(k8sNamespace, now))
      <==> NoVersionErased(rows, p, k8sNamespace)
    decreases |rows|
  {
    if rows == [] {
    } else {
      var rest := Turn(p, rows[0], k8sNamespace, now).rest;
      GoodTurnsAreGoodPairs(rows[1..], rest, k8sNamespace, now);
      var m, tail := Pairing(rows, p, k8sNamespace), Pairing(rows[1..], rest, k8sNamespace);
      assert m[1..] == tail;
      assert GoodTurn(p, rows[0], k8sNamespace) <==> (m[0].Some? ==> !ErasesVersion(rows[0], m[0].value));
      if NoVersionErased(rows, p, k8sNamespace) {
        forall i | 0 <= i < |tail| && tail[i].Some?
          ensures !ErasesVersion(rows[1..][i], tail[i].value)
        {
          assert m[i + 1] == tail[i] && rows[1..][i] == rows[i + 1];
        }
      }
      if NoVersionErased(rows[1..], rest, k8sNamespace) {
        forall i | 1 <= i < |m| && m[i].Some?
          ensures !ErasesVersion(rows[i], m[i].value)
        {
          assert m[i] == tail[i - 1] && rows[i] == rows[1..][i - 1];
        }
      }
    }
  }

  /**
   When reconcile is idempotent, for every table and every list of distinct names: with the same list, the same row
   order and no other writer, a second pass at any other time changes no committed row if and only if no row was
   paired with an unversioned CR that changed its status while it had another version.
   */
  lemma {:induction false} ReconcileIsIdempotentIff(
      rows: seq<Row>, crs: seq<Cr>, k8sNamespace: string, now: Time, later: Time)
    requires DistinctNames(crs)
    ensures var once := ReconcilePass(rows, crs, k8sNamespace, now);
      ReconcilePass(once, crs, k8sNamespace, later) == once <==> NoVersionErased(rows, Fill(crs), k8sNamespace)
  {
    var p := Fill(crs);
    FillContents(crs);
    var turn, again := TurnAt(k8sNamespace, now), TurnAt(k8sNamespace, later);
    var good := (q, row) => GoodTurn(q, row, k8sNamespace);
    PassesRedoEachOther(k8sNamespace, now, later);
    LoopIsSurvives(rows, p, turn);
    SecondLoopIsQuietIff(rows, p, q => Consistent(q), good, turn, again);
    LoopIsSurvives(Survives(rows, p, turn), p, again);
    GoodTurnsAreGoodPairs(rows, p, k8sNamespace, now);
  }

  /** In particular it is idempotent whenever every listed CR has a resourceVersion. */
  lemma ReconcileIsIdempotent(rows: seq<Row>, crs: seq<Cr>, k8sNamespace: string, now: Time, later: Time)
    requires DistinctNames(crs) && forall i :: 0 <= i < |crs| && crs[i].name != "" ==> Versioned(crs[i])
    ensures var once := ReconcilePass(rows, crs, k8sNamespace, now);
      ReconcilePass(once, crs, k8sNamespace, later) == once
  {
    ReconcileIsIdempotentIff(rows, crs, k8sNamespace, now, later);
    FillContents(crs);
    var p := Fill(crs);
    var m := Pairing(rows, p, k8sNamespace);
    forall i | 0 <= i < |rows| && m[i].Some?
      ensures !ErasesVersion(rows[i], m[i].value)
    {
      MatchesAreJustified(rows, p, k8sNamespace, i);
      FillNames(crs, m[i].value.name);
      var k :| 0 <= k < |crs| && crs[k].name == m[i].value.name;
      assert crs[k] == m[i].value;
    }
  }

  /** And it is not, for a table of one row at version 7 and a list of one ready CR that carries no version. */
  lemma UnversionedCrIsNotIdempotent(row: Row, cr: Cr, now: Time, later: Time)
    requires row.SyncVisible() && row.pending.None? && row.status == Creating && row.resourceVersion == Some("7")
    requires cr.name != "" && row.sandboxName == Some(cr.name)
    requires cr.resourceVersion == None && DeriveStatus(cr).0 == Ready
    ensures var once := ReconcilePass([row], [cr], row.k8sNamespace, now);
      ReconcilePass(once, [cr], row.k8sNamespace, later) != once
  {
    var p := Fill([cr]);
    assert [cr][..0] == [];
    assert p == Add(Fill([]), cr);
    assert Take(p, row).0 == Some(cr);
    assert Pairing([row], p, row.k8sNamespace)[0] == Some(cr);
    assert ErasesVersion([row][0], cr);
    ReconcileIsIdempotentIff([row], [cr], row.k8sNamespace, now, later);
  }
}
