/**
 A loop over table rows inside one database session. Each turn flushes a row and may commit; a commit makes
 everything flushed so far durable, and what is flushed after the last commit is rolled back at the end.
 */
module CommitLoop {

  datatype TurnResult<R, P> = TurnResult(row: R, commits: bool, rest: P)

  /** The loop as written: rows flushed so far, the durable table, and the pool the turns draw from. */
  function Loop<R, P>(todo: seq<R>, pool: P, turn: (P, R) -> TurnResult<R, P>, session: seq<R>, durable: seq<R>): seq<R>
    decreases |todo|
  {
    if todo == [] then durable
    else
      var t := turn(pool, todo[0]);
      var flushed := session + [t.row];
      Loop(todo[1..], t.rest, turn, flushed, if t.commits then flushed + todo[1..] else durable)
  }

  predicate Commits<R, P>(todo: seq<R>, pool: P, turn: (P, R) -> TurnResult<R, P>)
    decreases |todo|
  {
    todo != [] && (turn(pool, todo[0]).commits || Commits(todo[1..], turn(pool, todo[0]).rest, turn))
  }

  /** What the rows are afterwards: a row's flush survives iff its own turn or a later one commits. */
  function Survives<R, P>(todo: seq<R>, pool: P, turn: (P, R) -> TurnResult<R, P>): (r: seq<R>)
    ensures |r| == |todo|
    decreases |todo|
  {
    if !Commits(todo, pool, turn) then todo
    else [turn(pool, todo[0]).row] + Survives(todo[1..], turn(pool, todo[0]).rest, turn)
  }

  lemma {:induction false} LoopSurvives<R, P>(
      todo: seq<R>, pool: P, turn: (P, R) -> TurnResult<R, P>, session: seq<R>, durable: seq<R>)
    ensures Loop(todo, pool, turn, session, durable)
      == if Commits(todo, pool, turn) then session + Survives(todo, pool, turn) else durable
    decreases |todo|
  {
    if todo == [] {
    } else {
      var t := turn(pool, todo[0]);
      var flushed := session + [t.row];
      var next := if t.commits then flushed + todo[1..] else durable;
      LoopSurvives(todo[1..], t.rest, turn, flushed, next);
      assert session + ([t.row] + Survives(todo[1..], t.rest, turn)) == flushed + Survives(todo[1..], t.rest, turn);
    }
  }

  /** The loop started on a table ends with the surviving rows. */
  lemma {:induction false} LoopIsSurvives<R, P>(table: seq<R>, pool: P, turn: (P, R) -> TurnResult<R, P>)
    ensures Loop(table, pool, turn, [], table) == Survives(table, pool, turn)
  {
    LoopSurvives(table, pool, turn, [], table);
  }

  /** The i-th turn of the loop. */
  function TurnOf<R, P>(todo: seq<R>, pool: P, turn: (P, R) -> TurnResult<R, P>, i: nat): TurnResult<R, P>
    requires i < |todo|
    decreases i
  {
    if i == 0 then turn(pool, todo[0]) else TurnOf(todo[1..], turn(pool, todo[0]).rest, turn, i - 1)
  }

  ghost predicate CommitsFrom<R, P>(todo: seq<R>, pool: P, turn: (P, R) -> TurnResult<R, P>, i: nat) {
    exists j :: i <= j < |todo| && TurnOf(todo, pool, turn, j).commits
  }

  lemma {:induction false} CommitsIff<R, P>(todo: seq<R>, pool: P, turn: (P, R) -> TurnResult<R, P>)
    ensures Commits(todo, pool, turn) <==> CommitsFrom(todo, pool, turn, 0)
    decreases |todo|
  {
    if todo == [] {
    } else {
      var rest := turn(pool, todo[0]).rest;
      CommitsIff(todo[1..], rest, turn);
      ShiftedTurns(todo, pool, turn, 0);
    }
  }

  /** Looking at the loop from its second turn. */
  lemma ShiftedTurns<R, P>(todo: seq<R>, pool: P, turn: (P, R) -> TurnResult<R, P>, i: nat)
    requires todo != []
    ensures CommitsFrom(todo, pool, turn, i + 1) <==> CommitsFrom(todo[1..], turn(pool, todo[0]).rest, turn, i)
    ensures CommitsFrom(todo, pool, turn, 0) <==> turn(pool, todo[0]).commits || CommitsFrom(todo, pool, turn, 1)
  {
    var rest := turn(pool, todo[0]).rest;
    assert forall j :: 0 < j < |todo| ==> TurnOf(todo, pool, turn, j) == TurnOf(todo[1..], rest, turn, j - 1);
    if CommitsFrom(todo[1..], rest, turn, i) {
      var j :| i <= j < |todo[1..]| && TurnOf(todo[1..], rest, turn, j).commits;
      assert TurnOf(todo, pool, turn, j + 1).commits;
    }
    if turn(pool, todo[0]).commits {
      assert TurnOf(todo, pool, turn, 0).commits;
    }
  }

  /** Row by row: the row's own turn if it or a later one commits, else the row as it was. */
  lemma {:induction false} SurvivesAt<R, P>(todo: seq<R>, pool: P, turn: (P, R) -> TurnResult<R, P>, i: nat)
    requires i < |todo|
    ensures Survives(todo, pool, turn)[i] ==
      if CommitsFrom(todo, pool, turn, i) then TurnOf(todo, pool, turn, i).row else todo[i]
    decreases i
  {
    CommitsIff(todo, pool, turn);
    if i == 0 {
    } else {
      ShiftedTurns(todo, pool, turn, i - 1);
      SurvivesAt(todo[1..], turn(pool, todo[0]).rest, turn, i - 1);
    }
  }

  /**
   `again` redoes the turns of `turn` and draws the same from the pool. A settled row stays put quietly where the
   turn was `good`; otherwise both turns commit and the second changes the row.
   */
  ghost predicate Redoes<R(!new), P(!new)>(
      valid: P -> bool, good: (P, R) -> bool, turn: (P, R) -> TurnResult<R, P>, again: (P, R) -> TurnResult<R, P>)
  {
    && (forall pool, row :: valid(pool) ==> valid(turn(pool, row).rest))
    && (forall pool, row :: valid(pool) ==> again(pool, turn(pool, row).row).rest == turn(pool, row).rest)
    && (forall pool, row :: valid(pool) && good(pool, row) ==>
          again(pool, turn(pool, row).row) == TurnResult(turn(pool, row).row, false, turn(pool, row).rest))
    && (forall pool, row :: valid(pool) && !good(pool, row) ==>
          && turn(pool, row).commits
          && again(pool, turn(pool, row).row).commits
          && again(pool, turn(pool, row).row).row != turn(pool, row).row)
    && (forall pool, row :: valid(pool) && !turn(pool, row).commits ==>
          !again(pool, row).commits && again(pool, row).rest == turn(pool, row).rest)
  }

  /** Every turn of the loop is good. */
  ghost predicate AllGood<R(!new), P(!new)>(
      todo: seq<R>, pool: P, good: (P, R) -> bool, turn: (P, R) -> TurnResult<R, P>)
    decreases |todo|
  {
    todo == [] || (good(pool, todo[0]) && AllGood(todo[1..], turn(pool, todo[0]).rest, good, turn))
  }

  /** A loop without commits was good throughout, and again has no commits. */
  lemma {:induction false} QuietAgain<R(!new), P(!new)>(
      todo: seq<R>, pool: P, valid: P -> bool, good: (P, R) -> bool,
      turn: (P, R) -> TurnResult<R, P>, again: (P, R) -> TurnResult<R, P>)
    requires Redoes(valid, good, turn, again) && valid(pool) && !Commits(todo, pool, turn)
    ensures !Commits(todo, pool, again) && AllGood(todo, pool, good, turn)
    decreases |todo|
  {
    if todo == [] {
    } else {
      assert valid(turn(pool, todo[0]).rest);
      QuietAgain(todo[1..], turn(pool, todo[0]).rest, valid, good, turn, again);
    }
  }

  /** The second loop, over what survived the first, changes nothing if and only if every turn of the first was good. */
  lemma {:induction false} SecondLoopIsQuietIff<R(!new), P(!new)>(
      todo: seq<R>, pool: P, valid: P -> bool, good: (P, R) -> bool,
      turn: (P, R) -> TurnResult<R, P>, again: (P, R) -> TurnResult<R, P>)
    requires Redoes(valid, good, turn, again) && valid(pool)
    ensures var once := Survives(todo, pool, turn);
      Survives(once, pool, again) == once <==> AllGood(todo, pool, good, turn)
    decreases |todo|
  {
    if !Commits(todo, pool, turn) {
      QuietAgain(todo, pool, valid, good, turn, again);
    } else {
      var t := turn(pool, todo[0]);
      var once := Survives(todo, pool, turn);
      var rest := Survives(todo[1..], t.rest, turn);
      assert once == [t.row] + rest && once[0] == t.row && once[1..] == rest;
      assert valid(t.rest);
      SecondLoopIsQuietIff(todo[1..], t.rest, valid, good, turn, again);
      if Commits(once, pool, again) {
        var twice := Survives(once, pool, again);
        assert twice == [again(pool, t.row).row] + Survives(rest, t.rest, again);
        assert twice[0] == again(pool, t.row).row && twice[1..] == Survives(rest, t.rest, again);
      }
    }
  }
}
