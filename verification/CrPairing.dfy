/** How a reconcile pass hands out the listed CRs to the rows, popping two dictionaries as it goes. */
module CrPairing {
  import opened Common
  import opened SandboxSync

  /** The CRs not yet handed out, by name, and the CR name each controlling claim points at. */
  datatype Pool = Pool(crs: map<string, Cr>, owners: map<string, string>)

  /** Every owner entry points at a CR still in the pool whose controlling claim is that entry's key. */
  ghost predicate Consistent(p: Pool) {
    && (forall n :: n in p.crs ==> n != "" && p.crs[n].name == n)
    && (forall o :: o in p.owners ==> p.owners[o] in p.crs && ClaimOwner(p.crs[p.owners[o]].owners) == Some(o))
  }

  function Add(p: Pool, cr: Cr): Pool {
    if cr.name == "" then p
    else
      var owner := ClaimOwner(cr.owners);
      Pool(p.crs[cr.name := cr], if owner.Some? then p.owners[owner.value := cr.name] else p.owners)
  }

  function Fill(crs: seq<Cr>): Pool {
    if crs == [] then Pool(map[], map[]) else Add(Fill(crs[..|crs| - 1]), crs[|crs| - 1])
  }

  /** The pool without a CR and without the entry of its controlling claim. */
  function Without(p: Pool, cr: Cr): Pool {
    var owner := ClaimOwner(cr.owners);
    Pool(p.crs - {cr.name}, if owner.Some? then p.owners - {owner.value} else p.owners)
  }

  predicate Hit(p: Pool, key: Option<string>) { key.Some? && key.value != "" && key.value in p.crs }

  /** `_pop_sandbox_cr_for_reconcile`. */
  function Take(p: Pool, row: Row): (Option<Cr>, Pool) {
    if Hit(p, row.sandboxName) then TakeNamed(p, row.sandboxName.value)
    else if Hit(p, row.claimName) then TakeNamed(p, row.claimName.value)
    else if Hit(p, Some(row.id)) then TakeNamed(p, row.id)
    else if row.claimName.Some? && row.claimName.value != "" && row.claimName.value in p.owners then
      var name := p.owners[row.claimName.value];
      (if name in p.crs then Some(p.crs[name]) else None, Pool(p.crs - {name}, p.owners - {row.claimName.value}))
    else (None, p)
  }

  function TakeNamed(p: Pool, name: string): (Option<Cr>, Pool)
    requires name in p.crs
  {
    var owner := ClaimOwner(p.crs[name].owners);
    (Some(p.crs[name]), Pool(p.crs - {name}, if owner.Some? then p.owners - {owner.value} else p.owners))
  }

  class CrMaps {
    var crMap: map<string, Cr>
    var claimOwnerMap: map<string, string>

    ghost function Value(): Pool
      reads this
    {
      Pool(crMap, claimOwnerMap)
    }

    constructor (crs: seq<Cr>)
      ensures Value() == Fill(crs)
    {
      crMap, claimOwnerMap := map[], map[];
      new;
      var i := 0;
      while i < |crs|
        invariant i <= |crs| && Value() == Fill(crs[..i])
      {
        var cr := crs[i];
        assert crs[..i + 1][..i] == crs[..i];
        if cr.name != "" {
          crMap := crMap[cr.name := cr];
          var owner := ClaimOwner(cr.owners);
          if owner.Some? {
            claimOwnerMap := claimOwnerMap[owner.value := cr.name];
          }
        }
        i := i + 1;
      }
      assert crs[..i] == crs;
    }

    method Pop(row: Row) returns (cr: Option<Cr>)
      modifies this
      ensures (cr, Value()) == Take(old(Value()), row)
    {
      var keys := [row.sandboxName, row.claimName, Some(row.id)];
      var k := 0;
      while k < 3
        invariant k <= 3 && Value() == old(Value())
        invariant forall j :: 0 <= j < k ==> !Hit(Value(), keys[j])
      {
        if keys[k].Some? && keys[k].value != "" && keys[k].value in crMap {
          assert k > 0 ==> !Hit(old(Value()), keys[0]);
          assert k > 1 ==> !Hit(old(Value()), keys[1]);
          assert k == 0 || k == 1 || k == 2;
          var found := crMap[keys[k].value];
          crMap := crMap - {keys[k].value};
          var owner := ClaimOwner(found.owners);
          if owner.Some? {
            claimOwnerMap := claimOwnerMap - {owner.value};
          }
          return Some(found);
        }
        k := k + 1;
      }
      assert !Hit(Value(), keys[0]) && !Hit(Value(), keys[1]) && !Hit(Value(), keys[2]);
      if row.claimName.Some? && row.claimName.value != "" && row.claimName.value in claimOwnerMap {
        var name := claimOwnerMap[row.claimName.value];
        claimOwnerMap := claimOwnerMap - {row.claimName.value};
        cr := if name in crMap then Some(crMap[name]) else None;
        crMap := crMap - {name};
        return;
      }
      return None;
    }
  }

  // ---------------------------------------------------------------- consistency throughout a pass

  /** Names are unique within a namespace, as the API server guarantees. */
  ghost predicate DistinctNames(crs: seq<Cr>) {
    forall i, j :: 0 <= i < j < |crs| && crs[i].name != "" ==> crs[i].name != crs[j].name
  }

  lemma {:induction false} FillNames(crs: seq<Cr>, n: string)
    requires n in Fill(crs).crs
    ensures exists i :: 0 <= i < |crs| && crs[i].name == n
  {
    var front := crs[..|crs| - 1];
    if n in Fill(front).crs {
      FillNames(front, n);
      var i :| 0 <= i < |front| && front[i].name == n;
      assert crs[i].name == n;
    } else {
      assert crs[|crs| - 1].name == n;
    }
  }

  lemma AddKeepsConsistent(p: Pool, cr: Cr)
    requires Consistent(p) && cr.name !in p.crs
    ensures Consistent(Add(p, cr))
  {
  }

  lemma {:induction false} FillContents(crs: seq<Cr>)
    requires DistinctNames(crs)
    ensures Consistent(Fill(crs))
    ensures forall i :: 0 <= i < |crs| && crs[i].name != "" ==>
      crs[i].name in Fill(crs).crs && Fill(crs).crs[crs[i].name] == crs[i]
  {
    if crs == [] {
    } else {
      var front := crs[..|crs| - 1];
      var cr := crs[|crs| - 1];
      FillContents(front);
      if cr.name != "" {
        assert cr.name !in Fill(front).crs by {
          if cr.name in Fill(front).crs {
            FillNames(front, cr.name);
          }
        }
      }
      assert cr.name !in Fill(front).crs;
      AddKeepsConsistent(Fill(front), cr);
    }
  }

  lemma NamedRemovesOne(p: Pool, name: string)
    requires Consistent(p) && name in p.crs
    ensures var (cr, rest) := TakeNamed(p, name);
      cr == Some(p.crs[name]) && cr.value.name == name && rest == Without(p, p.crs[name]) && Consistent(rest)
  {
    WithoutIsConsistent(p, p.crs[name]);
  }

  lemma WithoutIsConsistent(p: Pool, cr: Cr)
    requires Consistent(p) && cr.name in p.crs && p.crs[cr.name] == cr
    ensures Consistent(Without(p, cr))
  {
    var rest := Without(p, cr);
    forall o | o in rest.owners
      ensures rest.owners[o] in rest.crs
    {
      assert ClaimOwner(p.crs[p.owners[o]].owners) == Some(o);
    }
  }

  /** In a consistent pool, taking removes exactly the CR handed out; the way it was found does not matter. */
  lemma TakeRemovesOne(p: Pool, row: Row)
    requires Consistent(p)
    ensures var (cr, rest) := Take(p, row);
      && Consistent(rest)
      && (cr.None? ==> rest == p)
      && (cr.Some? ==>
            && cr.value.name in p.crs && p.crs[cr.value.name] == cr.value
            && rest == Without(p, cr.value))
  {
    if Hit(p, row.sandboxName) {
      NamedRemovesOne(p, row.sandboxName.value);
    } else if Hit(p, row.claimName) {
      NamedRemovesOne(p, row.claimName.value);
    } else if Hit(p, Some(row.id)) {
      NamedRemovesOne(p, row.id);
    } else if row.claimName.Some? && row.claimName.value != "" && row.claimName.value in p.owners {
      WithoutIsConsistent(p, p.crs[p.owners[row.claimName.value]]);
    }
  }

  /** A match is one the watch handler would make too, or the CR is named by the row id. */
  lemma TakeMatchesWatch(p: Pool, row: Row, k8sNamespace: string)
    requires Consistent(p)
    requires row.k8sNamespace == k8sNamespace && row.SyncVisible()
    requires Take(p, row).0.Some?
    ensures var cr := Take(p, row).0.value; WatchMatches(row, cr, k8sNamespace) || cr.name == row.id
  {
  }

  /**
   Which CR a row gets: the one with its sandbox name, else with its claim name, else with its id, else the one its
   claim's entry points at; and none if and only if the pool has none of these.
   */
  lemma TakeFindsIff(p: Pool, row: Row)
    requires Consistent(p)
    ensures
      var cr := Take(p, row).0;
      var byClaim := row.claimName.Some? && row.claimName.value != "" && row.claimName.value in p.owners;
      && (cr.None? <==>
            && (forall n :: n in p.crs ==> Some(n) !in {row.sandboxName, row.claimName, Some(row.id)})
            && !byClaim)
      && (forall n :: n in p.crs && row.sandboxName == Some(n) ==> cr == Some(p.crs[n]))
      && (forall n :: n in p.crs && row.claimName == Some(n) && !Hit(p, row.sandboxName) ==> cr == Some(p.crs[n]))
      && (row.id in p.crs && !Hit(p, row.sandboxName) && !Hit(p, row.claimName) ==> cr == Some(p.crs[row.id]))
      && (byClaim && !Hit(p, row.sandboxName) && !Hit(p, row.claimName) && row.id !in p.crs ==>
            cr == Some(p.crs[p.owners[row.claimName.value]]))
  {
  }

  /** The list gives every controlling claim an entry, and no one else. */
  lemma {:induction false} FillOwners(crs: seq<Cr>, o: string)
    ensures o in Fill(crs).owners <==>
      exists k :: 0 <= k < |crs| && crs[k].name != "" && ClaimOwner(crs[k].owners) == Some(o)
  {
    if crs == [] {
    } else {
      var front, last := crs[..|crs| - 1], crs[|crs| - 1];
      FillOwners(front, o);
      if o in Fill(front).owners {
        var k :| 0 <= k < |front| && front[k].name != "" && ClaimOwner(front[k].owners) == Some(o);
        assert crs[k] == front[k];
      }
      if last.name != "" && ClaimOwner(last.owners) == Some(o) {
        assert crs[|crs| - 1] == last;
      }
    }
  }

  // ---------------------------------------------------------------- whole passes

  predicate InPass(row: Row, k8sNamespace: string) { row.k8sNamespace == k8sNamespace && row.SyncVisible() }

  /** The CR each row is paired with; rows outside the pass get none. */
  function Pairing(rows: seq<Row>, p: Pool, k8sNamespace: string): (m: seq<Option<Cr>>)
    ensures |m| == |rows|
  {
    if rows == [] then []
    else if !InPass(rows[0], k8sNamespace) then [None] + Pairing(rows[1..], p, k8sNamespace)
    else
      var (cr, rest) := Take(p, rows[0]);
      [cr] + Pairing(rows[1..], rest, k8sNamespace)
  }

  function Leftover(rows: seq<Row>, p: Pool, k8sNamespace: string): Pool {
    if rows == [] then p
    else if !InPass(rows[0], k8sNamespace) then Leftover(rows[1..], p, k8sNamespace)
    else Leftover(rows[1..], Take(p, rows[0]).1, k8sNamespace)
  }

  ghost predicate Paired(m: seq<Option<Cr>>, n: string) {
    exists i :: 0 <= i < |m| && m[i].Some? && m[i].value.name == n
  }

  lemma PairedCons(head: Option<Cr>, tail: seq<Option<Cr>>, n: string)
    ensures Paired([head] + tail, n) <==> (head.Some? && head.value.name == n) || Paired(tail, n)
  {
    var m := [head] + tail;
    if Paired(tail, n) {
      var i :| 0 <= i < |tail| && tail[i].Some? && tail[i].value.name == n;
      assert m[i + 1] == tail[i];
    }
    if head.Some? && head.value.name == n {
      assert m[0] == head;
    }
    if Paired(m, n) {
      var i :| 0 <= i < |m| && m[i].Some? && m[i].value.name == n;
      if i > 0 {
        assert tail[i - 1] == m[i];
      }
    }
  }

  /** Paired and left over split the pool: nothing is lost and nothing is handed out from elsewhere. */
  lemma {:induction false} PairingSplitsPool(rows: seq<Row>, p: Pool, k8sNamespace: string, n: string)
    requires Consistent(p)
    ensures var m := Pairing(rows, p, k8sNamespace);
      && (n in p.crs <==> Paired(m, n) || n in Leftover(rows, p, k8sNamespace).crs)
      && !(Paired(m, n) && n in Leftover(rows, p, k8sNamespace).crs)
      && Consistent(Leftover(rows, p, k8sNamespace))
  {
    if rows == [] {
    } else {
      if !InPass(rows[0], k8sNamespace) {
        PairingSplitsPool(rows[1..], p, k8sNamespace, n);
        PairedCons(None, Pairing(rows[1..], p, k8sNamespace), n);
      } else {
        var (cr, rest) := Take(p, rows[0]);
        TakeRemovesOne(p, rows[0]);
        PairingSplitsPool(rows[1..], rest, k8sNamespace, n);
        PairedCons(cr, Pairing(rows[1..], rest, k8sNamespace), n);
      }
    }
  }

  /** No CR goes to two rows, and every match is justified. */
  lemma {:induction false} PairingIsInjective(rows: seq<Row>, p: Pool, k8sNamespace: string, i: nat, j: nat)
    requires Consistent(p) && i < j < |rows|
    requires var m := Pairing(rows, p, k8sNamespace); m[i].Some? && m[j].Some?
    ensures var m := Pairing(rows, p, k8sNamespace); m[i].value.name != m[j].value.name
  {
    var m := Pairing(rows, p, k8sNamespace);
    if !InPass(rows[0], k8sNamespace) {
      if i > 0 {
        PairingIsInjective(rows[1..], p, k8sNamespace, i - 1, j - 1);
      }
    } else {
      var (cr, rest) := Take(p, rows[0]);
      TakeRemovesOne(p, rows[0]);
      if i > 0 {
        PairingIsInjective(rows[1..], rest, k8sNamespace, i - 1, j - 1);
      } else {
        var tail := Pairing(rows[1..], rest, k8sNamespace);
        assert tail[j - 1] == m[j];
        assert Paired(tail, m[j].value.name);
        PairingSplitsPool(rows[1..], rest, k8sNamespace, m[j].value.name);
      }
    }
  }

  lemma {:induction false} MatchesAreJustified(rows: seq<Row>, p: Pool, k8sNamespace: string, i: nat)
    requires Consistent(p) && i < |rows|
    requires Pairing(rows, p, k8sNamespace)[i].Some?
    ensures var cr := Pairing(rows, p, k8sNamespace)[i].value;
      && (WatchMatches(rows[i], cr, k8sNamespace) || cr.name == rows[i].id)
      && cr.name in p.crs && p.crs[cr.name] == cr
  {
    if !InPass(rows[0], k8sNamespace) {
      assert Pairing(rows, p, k8sNamespace)[1..] == Pairing(rows[1..], p, k8sNamespace);
      MatchesAreJustified(rows[1..], p, k8sNamespace, i - 1);
    } else {
      TakeRemovesOne(p, rows[0]);
      if i == 0 {
        TakeMatchesWatch(p, rows[0], k8sNamespace);
      } else {
        MatchesAreJustified(rows[1..], Take(p, rows[0]).1, k8sNamespace, i - 1);
      }
    }
  }

  /** The three facts for the list a pass really starts from. */
  lemma {:induction false} ListedCrsArePairedOnce(crs: seq<Cr>, rows: seq<Row>, k8sNamespace: string, k: nat)
    requires DistinctNames(crs) && k < |crs| && crs[k].name != ""
    ensures var m := Pairing(rows, Fill(crs), k8sNamespace);
      var left := Leftover(rows, Fill(crs), k8sNamespace).crs;
      && (Paired(m, crs[k].name) <==> crs[k].name !in left)
      && (forall i, j :: 0 <= i < j < |rows| && m[i].Some? && m[j].Some? ==> m[i].value.name != m[j].value.name)
      && (forall i :: 0 <= i < |rows| && m[i].Some? ==> m[i].value in crs)
  {
    FillContents(crs);
    var p := Fill(crs);
    var m := Pairing(rows, p, k8sNamespace);
    PairingSplitsPool(rows, p, k8sNamespace, crs[k].name);
    forall i, j | 0 <= i < j < |rows| && m[i].Some? && m[j].Some?
      ensures m[i].value.name != m[j].value.name
    {
      PairingIsInjective(rows, p, k8sNamespace, i, j);
    }
    forall i | 0 <= i < |rows| && m[i].Some?
      ensures m[i].value in crs
    {
      MatchesAreJustified(rows, p, k8sNamespace, i);
      FillNames(crs, m[i].value.name);
      var q :| 0 <= q < |crs| && crs[q].name == m[i].value.name;
      assert crs[q] == m[i].value;
    }
  }
}
