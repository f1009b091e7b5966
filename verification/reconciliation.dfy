/**
 * Nested-relation reconciliation: resolving a list of names to the
 * requesting user's existing or newly created rows (the ORM's
 * `get_or_create`) and adding each to a recipe's relation set.
 */
module Reconciliation {
  import opened Wrappers
  import opened Catalog

  /** The rows of `rows` that belong to `owner` and are called `name`, in table order. */
  function Filter(rows: seq<Row>, owner: UserId, name: string): (r: seq<Row>)
    ensures |r| <= |rows|
    ensures forall i :: 0 <= i < |r| ==> r[i] in rows && Matches(r[i], owner, name)
  {
    if rows == [] then []
    else (if Matches(rows[0], owner, name) then [rows[0]] else []) + Filter(rows[1..], owner, name)
  }

  /** The lookup finds nothing exactly when no row matches, and two or more exactly when a match is duplicated. */
  lemma {:induction false} FilterCount(rows: seq<Row>, owner: UserId, name: string)
    ensures |Filter(rows, owner, name)| == 0 <==> !HasRow(rows, owner, name)
    ensures |Filter(rows, owner, name)| >= 2 <==> Duplicated(rows, owner, name)
  {
    if rows != [] {
      var rest := rows[1..];
      FilterCount(rest, owner, name);
      if HasRow(rest, owner, name) {
        var j :| 0 <= j < |rest| && Matches(rest[j], owner, name);
        assert rows[j + 1] == rest[j];
      }
      if Duplicated(rest, owner, name) {
        var i, j :| 0 <= i < j < |rest| && Matches(rest[i], owner, name) && Matches(rest[j], owner, name);
        assert rows[i + 1] == rest[i] && rows[j + 1] == rest[j];
      }
      if HasRow(rows, owner, name) && !Matches(rows[0], owner, name) {
        var j :| 0 <= j < |rows| && Matches(rows[j], owner, name);
        assert rest[j - 1] == rows[j];
      }
      if Duplicated(rows, owner, name) {
        var i, j :| 0 <= i < j < |rows| && Matches(rows[i], owner, name) && Matches(rows[j], owner, name);
        assert rest[j - 1] == rows[j];
        if i > 0 {
          assert rest[i - 1] == rows[i];
        }
      }
    }
  }

  /** What `get_or_create` hands back: the row and whether it was inserted, or the error it raised. */
  datatype Fetch = Fetched(row: Row, created: bool) | Failed(error: Error)

  /**
   * `get_or_create(user=owner, name=name)` on table `t`: the single matching
   * row if there is one, a fresh row if there is none, an error if there
   * are several. Returns the table afterwards and the outcome.
   */
  function GetOrCreate(t: Table, owner: UserId, name: string): (Table, Fetch)
  {
    var found := Filter(t.rows, owner, name);
    if |found| == 0 then
      var row := Row(t.nextId, owner, name);
      (Table(t.rows + [row], t.nextId + 1), Fetched(row, true))
    else if |found| == 1 then
      (t, Fetched(found[0], false))
    else
      (t, Failed(MultipleObjectsReturned))
  }

  /**
   * The lookup yields a row of `owner` called `name`; it inserts one, with
   * the next id, exactly when there was none and leaves the table alone
   * otherwise; it fails exactly when two rows match.
   */
  lemma GetOrCreateSpec(t: Table, owner: UserId, name: string)
    ensures var r := GetOrCreate(t, owner, name);
      && (r.1.Fetched? ==> r.1.row in r.0.rows && Matches(r.1.row, owner, name))
      && ((r.1.Fetched? && r.1.created) <==> !HasRow(t.rows, owner, name))
      && (r.1.Failed? <==> Duplicated(t.rows, owner, name))
      && (r.1.Fetched? && r.1.created ==> r.0 == Table(t.rows + [r.1.row], t.nextId + 1) && r.1.row.id == t.nextId)
      && (!(r.1.Fetched? && r.1.created) ==> r.0 == t)
  {
    FilterCount(t.rows, owner, name);
    var found := Filter(t.rows, owner, name);
    if |found| == 1 {
      assert found[0] in found;
    }
  }

  /** The table and relation set a reconciliation leaves, and the error that stopped it, if any. */
  datatype Reconciled = Reconciled(table: Table, links: set<RowId>, error: Option<Error>)

  /**
   * `_get_or_create_tags` / `_get_or_create_ingredients`: for each name in
   * order, get or create the owner's row and add its id to `links`. An error
   * stops the loop; rows and links added before it stay.
   */
  function Reconcile(t: Table, links: set<RowId>, owner: UserId, names: seq<string>): (r: Reconciled)
    decreases |names|
  {
    if names == [] then Reconciled(t, links, None)
    else
      var (t1, f) := GetOrCreate(t, owner, names[0]);
      match f
      case Failed(e) => Reconciled(t, links, Some(e))
      case Fetched(row, _) => Reconcile(t1, links + {row.id}, owner, names[1..])
  }

  /** Reconciliation keeps the existing rows as a prefix, never lowers the id counter and only adds links; also when it stops on an error. */
  lemma {:induction false} ReconcileGrows(t: Table, links: set<RowId>, owner: UserId, names: seq<string>)
    ensures var r := Reconcile(t, links, owner, names);
      && |t.rows| <= |r.table.rows| && r.table.rows[..|t.rows|] == t.rows
      && t.nextId <= r.table.nextId
      && links <= r.links
    decreases |names|
  {
    if names != [] {
      GetOrCreateSpec(t, owner, names[0]);
      var g := GetOrCreate(t, owner, names[0]);
      if g.1.Fetched? {
        ReconcileGrows(g.0, links + {g.1.row.id}, owner, names[1..]);
      }
    }
  }

  /** Every row reconciliation inserts is owned by the requesting user and named in the list. */
  lemma {:induction false} ReconcileNewRowsNamed(t: Table, links: set<RowId>, owner: UserId, names: seq<string>)
    ensures var r := Reconcile(t, links, owner, names);
      forall i :: |t.rows| <= i < |r.table.rows| ==> r.table.rows[i].owner == owner && r.table.rows[i].name in names
    decreases |names|
  {
    if names != [] {
      GetOrCreateSpec(t, owner, names[0]);
      var g := GetOrCreate(t, owner, names[0]);
      if g.1.Fetched? {
        var t1, row := g.0, g.1.row;
        ReconcileNewRowsNamed(t1, links + {row.id}, owner, names[1..]);
        ReconcileGrows(t1, links + {row.id}, owner, names[1..]);
        var r := Reconcile(t1, links + {row.id}, owner, names[1..]);
        assert r == Reconcile(t, links, owner, names);
        assert forall i :: |t1.rows| <= i < |r.table.rows| ==> r.table.rows[i].name in names[1..];
        assert forall i :: |t.rows| <= i < |t1.rows| ==> r.table.rows[i] == row;
      }
    }
  }

  /**
   * Reconciliation only appends rows, all of them owned by the requesting
   * user and named in the list, never lowers the id counter, and only adds
   * links; this holds also when it stops on an error.
   */
  lemma ReconcileAppends(t: Table, links: set<RowId>, owner: UserId, names: seq<string>)
    ensures var r := Reconcile(t, links, owner, names);
      && |t.rows| <= |r.table.rows| && r.table.rows[..|t.rows|] == t.rows
      && t.nextId <= r.table.nextId
      && links <= r.links
      && (forall i :: |t.rows| <= i < |r.table.rows| ==> r.table.rows[i].owner == owner && r.table.rows[i].name in names)
  {
    ReconcileGrows(t, links, owner, names);
    ReconcileNewRowsNamed(t, links, owner, names);
  }

  /** Reconciliation keeps row ids distinct and below the table's counter. */
  lemma {:induction false} ReconcileKeepsTableValid(t: Table, links: set<RowId>, owner: UserId, names: seq<string>)
    requires TableValid(t)
    ensures TableValid(Reconcile(t, links, owner, names).table)
    decreases |names|
  {
    if names != [] {
      GetOrCreateSpec(t, owner, names[0]);
      var g := GetOrCreate(t, owner, names[0]);
      if g.1.Fetched? {
        assert TableValid(g.0);
        ReconcileKeepsTableValid(g.0, links + {g.1.row.id}, owner, names[1..]);
      }
    }
  }

  /** One turn of the loop: reconciling the names from position `i` on. */
  lemma ReconcileFrom(t: Table, links: set<RowId>, owner: UserId, names: seq<string>, i: nat)
    requires i < |names|
    ensures var g := GetOrCreate(t, owner, names[i]);
      Reconcile(t, links, owner, names[i..]) ==
        if g.1.Failed? then Reconciled(t, links, Some(g.1.error))
        else Reconcile(g.0, links + {g.1.row.id}, owner, names[i + 1..])
  {
    assert names[i..][0] == names[i];
    assert names[i..][1..] == names[i + 1..];
  }

  // ---------------------------------------------------------------------
  // Properties of a single lookup and of a reconciliation

  /** Appending a row creates no duplicate unless the owner already had a row of that name. */
  lemma AppendKeepsNoDuplicate(rows: seq<Row>, row: Row, o: UserId, n: string)
    requires !Duplicated(rows, o, n)
    requires Matches(row, o, n) ==> !HasRow(rows, o, n)
    ensures !Duplicated(rows + [row], o, n)
  {
    var s := rows + [row];
    forall i, j | 0 <= i < j < |s| && Matches(s[i], o, n) ensures !Matches(s[j], o, n) {
      assert s[i] == rows[i];
      if j < |rows| {
        assert s[j] == rows[j];
      }
    }
  }

  /** A duplicate stays a duplicate when rows are appended. */
  lemma DuplicatedPersists(rows: seq<Row>, longer: seq<Row>, o: UserId, n: string)
    requires |rows| <= |longer| && longer[..|rows|] == rows
    requires Duplicated(rows, o, n)
    ensures Duplicated(longer, o, n)
  {
    var i, j :| 0 <= i < j < |rows| && Matches(rows[i], o, n) && Matches(rows[j], o, n);
    assert longer[i] == rows[i] && longer[j] == rows[j];
  }

  /** A lookup never creates a duplicate: every (owner, name) with at most one row keeps at most one. */
  lemma GetOrCreateNoDuplicate(t: Table, owner: UserId, name: string)
    ensures var g := GetOrCreate(t, owner, name);
      forall o, n :: !Duplicated(t.rows, o, n) ==> !Duplicated(g.0.rows, o, n)
  {
    GetOrCreateSpec(t, owner, name);
    var g := GetOrCreate(t, owner, name);
    if g.1.Fetched? && g.1.created {
      forall o, n | !Duplicated(t.rows, o, n) ensures !Duplicated(g.0.rows, o, n) {
        AppendKeepsNoDuplicate(t.rows, g.1.row, o, n);
      }
    }
  }

  /** A row of `owner` whose name is listed contributes its id to the named ids. */
  lemma IdsNamedHas(t: Table, owner: UserId, names: seq<string>, i: nat)
    requires i < |t.rows| && t.rows[i].owner == owner && t.rows[i].name in names
    ensures t.rows[i].id in IdsNamed(t, owner, names)
  {
    assert t.rows[i] in t.rows;
  }

  /** Naming fewer names names fewer ids. */
  lemma IdsNamedSub(t: Table, owner: UserId, sub: seq<string>, names: seq<string>)
    requires forall n :: n in sub ==> n in names
    ensures IdsNamed(t, owner, sub) <= IdsNamed(t, owner, names)
  {
  }

  /**
   * Ownership, in every case including a failed one: every id the
   * reconciliation adds to the relation set is the id of a row of the
   * requesting owner named in the list.
   */
  lemma {:induction false} ReconcileOwnership(t: Table, links: set<RowId>, owner: UserId, names: seq<string>)
    ensures var r := Reconcile(t, links, owner, names);
      r.links - links <= IdsNamed(r.table, owner, names)
    decreases |names|
  {
    if names != [] {
      GetOrCreateSpec(t, owner, names[0]);
      var p := GetOrCreate(t, owner, names[0]);
      var t1, f := p.0, p.1;
      if f.Fetched? {
        var rest := names[1..];
        var r := Reconcile(t1, links + {f.row.id}, owner, rest);
        assert r == Reconcile(t, links, owner, names);
        ReconcileOwnership(t1, links + {f.row.id}, owner, rest);
        ReconcileGrows(t1, links + {f.row.id}, owner, rest);
        var i :| 0 <= i < |t1.rows| && t1.rows[i] == f.row;
        assert r.table.rows[i] == f.row;
        IdsNamedHas(r.table, owner, names, i);
        IdsNamedSub(r.table, owner, rest, names);
      }
    }
  }

  /** Reconciliation never creates a duplicate, also when it stops on an error. */
  lemma {:induction false} ReconcileNoNewDuplicates(t: Table, links: set<RowId>, owner: UserId, names: seq<string>)
    ensures var r := Reconcile(t, links, owner, names);
      forall o, n :: !Duplicated(t.rows, o, n) ==> !Duplicated(r.table.rows, o, n)
    decreases |names|
  {
    if names != [] {
      GetOrCreateNoDuplicate(t, owner, names[0]);
      var g := GetOrCreate(t, owner, names[0]);
      if g.1.Fetched? {
        assert Reconcile(t, links, owner, names) == Reconcile(g.0, links + {g.1.row.id}, owner, names[1..]);
        ReconcileNoNewDuplicates(g.0, links + {g.1.row.id}, owner, names[1..]);
      }
    }
  }

  /**
   * Reconciliation succeeds exactly when no listed name already has two
   * rows of `owner`; a duplicate elsewhere in the table does not matter.
   */
  lemma {:induction false} ReconcileSucceeds(t: Table, links: set<RowId>, owner: UserId, names: seq<string>)
    ensures Reconcile(t, links, owner, names).error == None <==> NoneDuplicated(t.rows, owner, names)
    decreases |names|
  {
    if names != [] {
      GetOrCreateSpec(t, owner, names[0]);
      GetOrCreateNoDuplicate(t, owner, names[0]);
      var g := GetOrCreate(t, owner, names[0]);
      if g.1.Fetched? {
        var t1, rest := g.0, names[1..];
        assert Reconcile(t, links, owner, names) == Reconcile(t1, links + {g.1.row.id}, owner, rest);
        ReconcileSucceeds(t1, links + {g.1.row.id}, owner, rest);
        forall n | n in rest ensures Duplicated(t.rows, owner, n) ==> Duplicated(t1.rows, owner, n) {
          if Duplicated(t.rows, owner, n) {
            DuplicatedPersists(t.rows, t1.rows, owner, n);
          }
        }
        forall n | n in names && n != names[0] ensures n in rest {
        }
      }
    }
  }

  /** A successful reconciliation leaves every listed name with at most one row of `owner`. */
  lemma ReconcileLeavesNoneDuplicated(t: Table, links: set<RowId>, owner: UserId, names: seq<string>)
    ensures var r := Reconcile(t, links, owner, names);
      r.error == None ==> NoneDuplicated(r.table.rows, owner, names)
  {
    ReconcileSucceeds(t, links, owner, names);
    ReconcileNoNewDuplicates(t, links, owner, names);
  }

  /** Reconciliation keeps a table with at most one row per (owner, name) that way. */
  lemma ReconcileKeepsUnique(t: Table, links: set<RowId>, owner: UserId, names: seq<string>)
    ensures Unique(t.rows) ==> Unique(Reconcile(t, links, owner, names).table.rows)
  {
    var rows := Reconcile(t, links, owner, names).table.rows;
    ReconcileNoNewDuplicates(t, links, owner, names);
    if Unique(t.rows) {
      forall i, j | 0 <= i < j < |rows| && rows[i].owner == rows[j].owner
        ensures rows[i].name != rows[j].name
      {
        assert !Duplicated(t.rows, rows[i].owner, rows[i].name);
      }
    }
  }

  /** A successful reconciliation leaves a row of `owner` for every listed name. */
  lemma {:induction false} ReconcileCovers(t: Table, links: set<RowId>, owner: UserId, names: seq<string>)
    ensures var r := Reconcile(t, links, owner, names);
      r.error == None ==> forall n :: n in names ==> HasRow(r.table.rows, owner, n)
    decreases |names|
  {
    if names != [] {
      GetOrCreateSpec(t, owner, names[0]);
      var p := GetOrCreate(t, owner, names[0]);
      if p.1.Fetched? {
        var t1, row := p.0, p.1.row;
        var rest := names[1..];
        var r := Reconcile(t1, links + {row.id}, owner, rest);
        assert r == Reconcile(t, links, owner, names);
        ReconcileCovers(t1, links + {row.id}, owner, rest);
        ReconcileGrows(t1, links + {row.id}, owner, rest);
        var i :| 0 <= i < |t1.rows| && t1.rows[i] == row;
        assert r.table.rows[i] == row;
        forall n | n in names ensures r.error == None ==> HasRow(r.table.rows, owner, n) {
          if n != names[0] {
            assert n in rest;
          }
        }
      }
    }
  }

  /** Every row reconciliation inserts is for a name `owner` did not have, so an existing row is always reused. */
  lemma {:induction false} ReconcileCreatesOnlyMissing(t: Table, links: set<RowId>, owner: UserId, names: seq<string>)
    ensures var r := Reconcile(t, links, owner, names);
      forall i :: |t.rows| <= i < |r.table.rows| ==> !HasRow(t.rows, owner, r.table.rows[i].name)
    decreases |names|
  {
    if names != [] {
      GetOrCreateSpec(t, owner, names[0]);
      var p := GetOrCreate(t, owner, names[0]);
      if p.1.Fetched? {
        var t1, row := p.0, p.1.row;
        var rest := names[1..];
        assert Reconcile(t1, links + {row.id}, owner, rest) == Reconcile(t, links, owner, names);
        ReconcileCreatesOnlyMissing(t1, links + {row.id}, owner, rest);
        ReconcileGrows(t1, links + {row.id}, owner, rest);
        NewRowsMissing(t, t1, Reconcile(t1, links + {row.id}, owner, rest).table, owner, row);
      }
    }
  }

  /**
   * A successful reconciliation adds to the relation set exactly the ids of
   * `owner`'s rows named in the list.
   */
  lemma {:induction false} ReconcileLinksExact(t: Table, links: set<RowId>, owner: UserId, names: seq<string>)
    ensures var r := Reconcile(t, links, owner, names);
      r.error == None ==> r.links == links + IdsNamed(r.table, owner, names)
    decreases |names|
  {
    if names != [] {
      GetOrCreateSpec(t, owner, names[0]);
      var p := GetOrCreate(t, owner, names[0]);
      if p.1.Fetched? {
        var t1, row := p.0, p.1.row;
        var rest := names[1..];
        var r := Reconcile(t1, links + {row.id}, owner, rest);
        assert r == Reconcile(t, links, owner, names);
        ReconcileLinksExact(t1, links + {row.id}, owner, rest);
        ReconcileGrows(t1, links + {row.id}, owner, rest);
        GetOrCreateNoDuplicate(t, owner, names[0]);
        ReconcileNoNewDuplicates(t1, links + {row.id}, owner, rest);
        assert !Duplicated(r.table.rows, owner, names[0]);
        var i :| 0 <= i < |t1.rows| && t1.rows[i] == row;
        assert r.table.rows[i] == row;
        HeadIds(r.table, owner, names, i);
      }
    }
  }

  /**
   * When no listed name already has two rows of `owner`, reconciling
   * `names` succeeds, leaves each listed name with exactly one row of
   * `owner`, keeps a unique table unique, creates rows only for names
   * `owner` did not have, and links exactly the ids of `owner`'s rows named
   * in the list.
   */
  lemma ReconcileExact(t: Table, links: set<RowId>, owner: UserId, names: seq<string>)
    requires NoneDuplicated(t.rows, owner, names)
    ensures var r := Reconcile(t, links, owner, names);
      && r.error == None
      && NoneDuplicated(r.table.rows, owner, names)
      && (Unique(t.rows) ==> Unique(r.table.rows))
      && r.links == links + IdsNamed(r.table, owner, names)
      && (forall n :: n in names ==> HasRow(r.table.rows, owner, n))
      && (forall i :: |t.rows| <= i < |r.table.rows| ==> !HasRow(t.rows, owner, r.table.rows[i].name))
  {
    ReconcileSucceeds(t, links, owner, names);
    ReconcileLeavesNoneDuplicated(t, links, owner, names);
    ReconcileKeepsUnique(t, links, owner, names);
    ReconcileLinksExact(t, links, owner, names);
    ReconcileCovers(t, links, owner, names);
    ReconcileCreatesOnlyMissing(t, links, owner, names);
  }

  /** When the first name has only row `i` of `owner`, the ids named by `names` are that row's and the ids named by the rest. */
  lemma HeadIds(T: Table, owner: UserId, names: seq<string>, i: nat)
    requires names != [] && !Duplicated(T.rows, owner, names[0])
    requires i < |T.rows| && Matches(T.rows[i], owner, names[0])
    ensures IdsNamed(T, owner, names) == {T.rows[i].id} + IdsNamed(T, owner, names[1..])
  {
    var row := T.rows[i];
    forall x | x in T.rows && x.owner == owner && x.name in names
      ensures x.id in {row.id} + IdsNamed(T, owner, names[1..])
    {
      if x.name == names[0] {
        var k :| 0 <= k < |T.rows| && T.rows[k] == x;
        assert k == i;
      } else {
        assert x.name in names[1..];
      }
    }
    IdsNamedHas(T, owner, names, i);
    IdsNamedSub(T, owner, names[1..], names);
  }

  /** Rows appended after `t1` were missing from `t1`; if `t1` only added `row` to `t`, they were missing from `t` too. */
  lemma NewRowsMissing(t: Table, t1: Table, T: Table, owner: UserId, row: Row)
    requires |t.rows| <= |t1.rows| <= |T.rows|
    requires t1.rows[..|t.rows|] == t.rows && T.rows[..|t1.rows|] == t1.rows
    requires forall k :: |t.rows| <= k < |t1.rows| ==> t1.rows[k] == row
    requires |t1.rows| > |t.rows| ==> !HasRow(t.rows, owner, row.name)
    requires forall k :: |t1.rows| <= k < |T.rows| ==> !HasRow(t1.rows, owner, T.rows[k].name)
    ensures forall k :: |t.rows| <= k < |T.rows| ==> !HasRow(t.rows, owner, T.rows[k].name)
  {
    forall k | |t.rows| <= k < |T.rows|
      ensures !HasRow(t.rows, owner, T.rows[k].name)
    {
      if k < |t1.rows| {
        assert T.rows[k] == t1.rows[k] == row;
      }
    }
  }

  /** The names of `names` for which `owner` has no row in `t`. */
  function MissingNames(t: Table, owner: UserId, names: seq<string>): set<string> {
    set n | n in names && !HasRow(t.rows, owner, n)
  }

  /**
   * A successful reconciliation inserts exactly one row per distinct name
   * the owner did not have, and none for a name the owner had or for a
   * repetition.
   */
  lemma {:induction false} ReconcileCreatesOnePerMissingName(t: Table, links: set<RowId>, owner: UserId, names: seq<string>)
    ensures var r := Reconcile(t, links, owner, names);
      r.error == None ==> |r.table.rows| == |t.rows| + |MissingNames(t, owner, names)|
    decreases |names|
  {
    if names == [] {
      assert MissingNames(t, owner, names) == {};
    } else {
      GetOrCreateSpec(t, owner, names[0]);
      var p := GetOrCreate(t, owner, names[0]);
      if p.1.Fetched? {
        var t1, row := p.0, p.1.row;
        var rest := names[1..];
        assert Reconcile(t1, links + {row.id}, owner, rest) == Reconcile(t, links, owner, names);
        ReconcileCreatesOnePerMissingName(t1, links + {row.id}, owner, rest);
        if p.1.created {
          MissingAfterCreate(t, t1, owner, names, row);
        } else {
          MissingAfterFetch(t, owner, names);
        }
      }
    }
  }

  /** Creating the row for the first name removes exactly that name from the missing ones. */
  lemma MissingAfterCreate(t: Table, t1: Table, owner: UserId, names: seq<string>, row: Row)
    requires names != [] && !HasRow(t.rows, owner, names[0])
    requires Matches(row, owner, names[0]) && t1.rows == t.rows + [row]
    ensures MissingNames(t, owner, names) == {names[0]} + MissingNames(t1, owner, names[1..])
    ensures names[0] !in MissingNames(t1, owner, names[1..])
  {
    var n0, rest := names[0], names[1..];
    forall n ensures n in MissingNames(t, owner, names) <==> n == n0 || n in MissingNames(t1, owner, rest) {
      if n in names && n != n0 {
        assert n in rest;
        if HasRow(t1.rows, owner, n) {
          var m :| 0 <= m < |t1.rows| && Matches(t1.rows[m], owner, n);
          assert m < |t.rows| && t.rows[m] == t1.rows[m];
        }
      }
      if n in rest {
        assert n in names;
        if HasRow(t.rows, owner, n) {
          var m :| 0 <= m < |t.rows| && Matches(t.rows[m], owner, n);
          assert t1.rows[m] == t.rows[m];
        }
      }
    }
    assert Matches(t1.rows[|t.rows|], owner, n0);
  }

  /** Fetching the existing row for the first name leaves the missing names as they were. */
  lemma MissingAfterFetch(t: Table, owner: UserId, names: seq<string>)
    requires names != [] && HasRow(t.rows, owner, names[0])
    ensures MissingNames(t, owner, names) == MissingNames(t, owner, names[1..])
  {
    forall n ensures n in MissingNames(t, owner, names) <==> n in MissingNames(t, owner, names[1..]) {
      if n in names && n != names[0] {
        assert n in names[1..];
      }
      if n in names[1..] {
        assert n in names;
      }
    }
  }

  /** Reconciling a concatenation is reconciling the first part, then, unless that failed, the second. */
  lemma {:induction false} ReconcileSplit(t: Table, links: set<RowId>, owner: UserId, a: seq<string>, b: seq<string>)
    ensures var ra := Reconcile(t, links, owner, a);
      Reconcile(t, links, owner, a + b) ==
        if ra.error.Some? then ra else Reconcile(ra.table, ra.links, owner, b)
    decreases |a|
  {
    if a != [] {
      assert (a + b)[0] == a[0];
      assert (a + b)[1..] == a[1..] + b;
      var (t1, f) := GetOrCreate(t, owner, a[0]);
      if f.Fetched? {
        ReconcileSplit(t1, links + {f.row.id}, owner, a[1..], b);
      }
    } else {
      assert a + b == b;
    }
  }

  /**
   * When every name already has exactly one row and those rows are already
   * linked, reconciliation changes nothing.
   */
  lemma {:induction false} ReconcileStable(t: Table, links: set<RowId>, owner: UserId, names: seq<string>)
    requires NoneDuplicated(t.rows, owner, names)
    requires forall n :: n in names ==> HasRow(t.rows, owner, n)
    requires IdsNamed(t, owner, names) <= links
    ensures Reconcile(t, links, owner, names) == Reconciled(t, links, None)
    decreases |names|
  {
    if names != [] {
      GetOrCreateSpec(t, owner, names[0]);
      var (t1, f) := GetOrCreate(t, owner, names[0]);
      assert HasRow(t.rows, owner, names[0]);
      assert t1 == t;
      assert f.row.id in IdsNamed(t, owner, names);
      var rest := names[1..];
      forall n | n in rest ensures n in names { }
      assert IdsNamed(t, owner, rest) <= IdsNamed(t, owner, names);
      assert links + {f.row.id} == links;
      ReconcileStable(t, links, owner, rest);
    }
  }

  /** After a successful reconciliation, reconciling any sublist of the same names changes nothing. */
  lemma ReconcileAgainSucceeded(t: Table, links: set<RowId>, owner: UserId, names: seq<string>, again: seq<string>)
    requires forall n :: n in again ==> n in names
    ensures var r := Reconcile(t, links, owner, names);
      r.error == None ==> Reconcile(r.table, r.links, owner, again) == Reconciled(r.table, r.links, None)
  {
    var r := Reconcile(t, links, owner, names);
    if r.error == None {
      ReconcileLeavesNoneDuplicated(t, links, owner, names);
      ReconcileCovers(t, links, owner, names);
      ReconcileLinksExact(t, links, owner, names);
      IdsNamedSub(r.table, owner, again, names);
      ReconcileStable(r.table, r.links, owner, again);
    }
  }

  /**
   * Where a failed reconciliation stopped: the names before position `k`
   * reconciled without error to the state it returns, and the name at `k`
   * has two rows of `owner` there.
   */
  lemma {:induction false} ReconcileFailurePoint(t: Table, links: set<RowId>, owner: UserId, names: seq<string>)
    returns (k: nat)
    requires Reconcile(t, links, owner, names).error.Some?
    ensures var r := Reconcile(t, links, owner, names);
      && k < |names|
      && Reconcile(t, links, owner, names[..k]) == Reconciled(r.table, r.links, None)
      && Duplicated(r.table.rows, owner, names[k])
    decreases |names|
  {
    GetOrCreateSpec(t, owner, names[0]);
    var p := GetOrCreate(t, owner, names[0]);
    if p.1.Failed? {
      k := 0;
      assert names[..0] == [];
    } else {
      var t1, id, rest := p.0, p.1.row.id, names[1..];
      assert Reconcile(t1, links + {id}, owner, rest) == Reconcile(t, links, owner, names);
      var k' := ReconcileFailurePoint(t1, links + {id}, owner, rest);
      k := k' + 1;
      assert names[..k][0] == names[0] && names[..k][1..] == rest[..k'];
      assert names[k] == rest[k'];
    }
  }

  /**
   * Reconciling the same list a second time creates no row and changes no
   * link; when the first run failed, the second fails at the same name and
   * leaves the same state.
   */
  lemma ReconcileTwice(t: Table, links: set<RowId>, owner: UserId, names: seq<string>)
    ensures var r := Reconcile(t, links, owner, names);
      Reconcile(r.table, r.links, owner, names) == r
  {
    var r := Reconcile(t, links, owner, names);
    if r.error == None {
      ReconcileAgainSucceeded(t, links, owner, names, names);
    } else {
      var k := ReconcileFailurePoint(t, links, owner, names);
      var before, after := names[..k], names[k..];
      assert names == before + after;
      ReconcileAgainSucceeded(t, links, owner, before, before);
      assert Reconcile(r.table, r.links, owner, before) == Reconciled(r.table, r.links, None);
      ReconcileSplit(r.table, r.links, owner, before, after);
      GetOrCreateSpec(r.table, owner, names[k]);
      assert after != [] && after[0] == names[k];
      assert Reconcile(r.table, r.links, owner, after) == Reconciled(r.table, r.links, Some(MultipleObjectsReturned));
      assert r.error.value.MultipleObjectsReturned?;
      assert Reconcile(r.table, r.links, owner, before + after) == r;
    }
  }

  /** Naming an already listed name once more creates no row and changes no link. */
  lemma ReconcileRepeatedName(t: Table, links: set<RowId>, owner: UserId, names: seq<string>, n: string)
    requires n in names
    ensures Reconcile(t, links, owner, names + [n]) == Reconcile(t, links, owner, names)
  {
    ReconcileSplit(t, links, owner, names, [n]);
    ReconcileAgainSucceeded(t, links, owner, names, [n]);
  }

  /** A name repeated anywhere after its first mention creates no row and changes no link. */
  lemma ReconcileRepeatedNameAnywhere(t: Table, links: set<RowId>, owner: UserId, a: seq<string>, n: string, b: seq<string>)
    requires n in a
    ensures Reconcile(t, links, owner, a + [n] + b) == Reconcile(t, links, owner, a + b)
  {
    ReconcileSplit(t, links, owner, a + [n], b);
    ReconcileSplit(t, links, owner, a, b);
    ReconcileRepeatedName(t, links, owner, a, n);
  }
}
