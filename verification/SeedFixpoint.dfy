/**
 The passes reach a fixed point within their bound, and at that point every table still short
 of its target has a cause.
 */
module SeedFixpoint {
  import opened Wrappers
  import opened SeedExpansion

  /** The expander's copy of every listed table is the table, and it has no copy of any other. */
  ghost predicate Synced(s: State, names: set<string>) {
    s.parents.Keys == names && forall name :: name in names ==> name in s.db && s.parents[name] == s.db[name]
  }

  function Target(env: Env, t: Table): nat {
    env.target(t.name)
  }

  ghost predicate WantsRows(env: Env, tables: seq<Table>) {
    forall t :: t in tables ==> Target(env, t) > 0
  }

  ghost predicate Full(env: Env, s: State, t: Table)
    requires t.name in s.db
  {
    |s.db[t.name]| >= Target(env, t)
  }

  ghost predicate Distinct<T>(names: seq<T>) {
    forall i, j :: 0 <= i < j < |names| ==> names[i] != names[j]
  }

  /** The table had its one insert: it was short, its rows stayed in front, and now it has its target. */
  ghost predicate Filled(env: Env, name: string, before: seq<Row>, after: seq<Row>) {
    |before| < env.target(name) == |after| && before <= after
  }

  /** No table had two inserts, each insert filled its table, and nothing else changed. */
  ghost predicate Accounted(env: Env, db0: map<string, seq<Row>>, s: State, names: set<string>) {
    && s.db.Keys == db0.Keys
    && Distinct(s.inserted)
    && (forall name :: name in s.inserted ==> name in names && name in db0 && Filled(env, name, db0[name], s.db[name]))
    && (forall name :: name in db0 && name !in s.inserted ==> s.db[name] == db0[name])
  }

  ghost predicate Good(env: Env, db0: map<string, seq<Row>>, s: State, names: set<string>) {
    Synced(s, names) && Accounted(env, db0, s, names)
  }

  ghost predicate Settled(env: Env, s: State, tables: seq<Table>)
    requires Known(s, tables)
  {
    forall t :: t in tables ==> Plan(env, t, s.db[t.name], s.parents).Err?
  }

  // ----- One table

  lemma {:induction false} NewRowsCount(env: Env, t: Table, existing: seq<Row>, parents: map<string, seq<Row>>,
                                        last: nat)
    requires last >= |existing|
    ensures var r := NewRows(env, t, existing, parents, last); r.Ok? ==> |r.value| == last - |existing|
    decreases last
  {
    if last > |existing| {
      NewRowsCount(env, t, existing, parents, last - 1);
    }
  }

  lemma {:induction false} ExpandStep(env: Env, db0: map<string, seq<Row>>, s: State, t: Table, names: set<string>)
    requires Good(env, db0, s, names) && t.name in names
    ensures var r := Expand(env, s, t);
            && Good(env, db0, r.0, names)
            && r.0.inserted == s.inserted + (if r.1 then [t.name] else [])
            && (!r.1 ==> r.0 == s)
  {
    var r := Expand(env, s, t);
    var existing := s.db[t.name];
    if Plan(env, t, existing, s.parents).Ok? {
      NewRowsCount(env, t, existing, s.parents, Target(env, t));
      assert t.name !in s.inserted;
      assert Filled(env, t.name, existing, r.0.db[t.name]);
    } else {
      assert s.parents[t.name := existing] == s.parents;
    }
  }

  // ----- One pass

  lemma {:induction false} PassKeeps(env: Env, db0: map<string, seq<Row>>, s: State, tables: seq<Table>, count: nat)
    requires Known(s, tables) && Good(env, db0, s, TableNames(tables)) && count <= |tables|
    ensures var r := Pass(env, s, tables, count);
            Good(env, db0, r.0, TableNames(tables)) && |r.0.inserted| >= |s.inserted| + if r.1 then 1 else 0
  {
    if count > 0 {
      PassKeeps(env, db0, s, tables, count - 1);
      var before, t := Pass(env, s, tables, count - 1), tables[count - 1];
      assert t.name in TableNames(tables);
      ExpandStep(env, db0, before.0, t, TableNames(tables));
      assert Pass(env, s, tables, count) ==
             (Expand(env, before.0, t).0, before.1 || Expand(env, before.0, t).1);
    }
  }

  lemma QuietStep(env: Env, s: State, t: Table, names: set<string>)
    requires Synced(s, names) && t.name in names
    ensures !Expand(env, s, t).1 <==> Plan(env, t, s.db[t.name], s.parents).Err?
    ensures !Expand(env, s, t).1 ==> Expand(env, s, t).0 == s
  {
    assert s.parents[t.name := s.db[t.name]] == s.parents;
  }

  // ----- The run as a sequence of table visits

  function ExpandAll(env: Env, s: State, visits: seq<Table>): (r: State)
    requires forall t :: t in visits ==> t.name in s.db
    ensures forall name :: name in s.db ==> name in r.db
  {
    if visits == [] then s
    else Expand(env, ExpandAll(env, s, visits[..|visits| - 1]), visits[|visits| - 1]).0
  }

  ghost predicate Visitable(s: State, visits: seq<Table>) {
    forall t :: t in visits ==> t.name in s.db
  }

  lemma LastVisit(env: Env, s: State, visits: seq<Table>, t: Table)
    requires Visitable(s, visits) && t.name in s.db
    ensures Visitable(s, visits + [t])
    ensures ExpandAll(env, s, visits + [t]) == Expand(env, ExpandAll(env, s, visits), t).0
  {
    assert (visits + [t])[..|visits|] == visits;
  }

  lemma VisitableParts(s: State, first: seq<Table>, second: seq<Table>)
    ensures Visitable(s, first + second) <==> Visitable(s, first) && Visitable(s, second)
  {
    assert forall t :: t in first || t in second ==> t in first + second;
  }

  lemma {:induction false} ExpandAllSplit(env: Env, s: State, first: seq<Table>, second: seq<Table>)
    requires Visitable(s, first) && Visitable(s, second)
    ensures Visitable(s, first + second)
    ensures ExpandAll(env, s, first + second) == ExpandAll(env, ExpandAll(env, s, first), second)
  {
    VisitableParts(s, first, second);
    if second == [] {
      assert first + second == first;
    } else {
      var front, last := second[..|second| - 1], second[|second| - 1];
      assert second == front + [last];
      VisitableParts(s, front, [last]);
      ExpandAllSplit(env, s, first, front);
      assert last in second;
      LastVisit(env, s, first + front, last);
      LastVisit(env, ExpandAll(env, s, first), front, last);
      assert first + second == first + front + [last];
    }
  }

  lemma {:induction false} PassVisits(env: Env, s: State, tables: seq<Table>, count: nat)
    requires Known(s, tables) && count <= |tables|
    ensures Pass(env, s, tables, count).0 == ExpandAll(env, s, tables[..count])
  {
    if count > 0 {
      PassVisits(env, s, tables, count - 1);
      assert tables[..count][..count - 1] == tables[..count - 1];
    }
  }

  lemma {:induction false} PassesVisits(env: Env, s: State, tables: seq<Table>, count: nat) returns (visits: seq<Table>)
    requires Known(s, tables)
    ensures forall t :: t in visits ==> t in tables
    ensures Passes(env, s, tables, count).0 == ExpandAll(env, s, visits)
  {
    visits := [];
    if count > 0 {
      visits := PassesVisits(env, s, tables, count - 1);
      var before := Passes(env, s, tables, count - 1);
      if before.1 {
        PassVisits(env, before.0, tables, |tables|);
        assert tables[..|tables|] == tables;
        ExpandAllSplit(env, s, visits, tables);
        visits := visits + tables;
      }
    }
  }

  lemma SeedCoverageVisits(env: Env, db: map<string, seq<Row>>, tables: seq<Table>) returns (visits: seq<Table>)
    requires forall t :: t in tables ==> t.name in db
    ensures forall t :: t in visits ==> t in tables
    ensures SeedCoverage(env, db, tables) == ExpandAll(env, Load(db, tables), visits)
  {
    visits := PassesVisits(env, Load(db, tables), tables, |tables|);
  }

  lemma {:induction false} VisitsSynced(env: Env, s: State, visits: seq<Table>, names: set<string>)
    requires Synced(s, names) && forall t :: t in visits ==> t.name in names
    ensures Synced(ExpandAll(env, s, visits), names)
  {
    if visits != [] {
      VisitsSynced(env, s, visits[..|visits| - 1], names);
    }
  }

  /** A pass without progress changed nothing. */
  lemma {:induction false} QuietPassIsSame(env: Env, s: State, tables: seq<Table>, count: nat)
    requires Known(s, tables) && Synced(s, TableNames(tables)) && count <= |tables|
    requires !Pass(env, s, tables, count).1
    ensures Pass(env, s, tables, count).0 == s
  {
    if count > 0 {
      QuietPassIsSame(env, s, tables, count - 1);
      QuietStep(env, s, tables[count - 1], TableNames(tables));
    }
  }

  /** A pass without progress found nothing to insert. */
  lemma {:induction false} QuietPassFindsNothing(env: Env, s: State, tables: seq<Table>, count: nat, i: nat)
    requires Known(s, tables) && Synced(s, TableNames(tables)) && i < count <= |tables|
    requires !Pass(env, s, tables, count).1
    ensures Plan(env, tables[i], s.db[tables[i].name], s.parents).Err?
  {
    if i < count - 1 {
      QuietPassFindsNothing(env, s, tables, count - 1, i);
    } else {
      QuietPassIsSame(env, s, tables, count - 1);
      QuietStep(env, s, tables[count - 1], TableNames(tables));
    }
  }

  lemma QuietWholePass(env: Env, s: State, tables: seq<Table>)
    requires Known(s, tables) && Synced(s, TableNames(tables)) && !Pass(env, s, tables, |tables|).1
    ensures Pass(env, s, tables, |tables|).0 == s && Settled(env, s, tables)
  {
    QuietPassIsSame(env, s, tables, |tables|);
    forall t | t in tables ensures Plan(env, t, s.db[t.name], s.parents).Err? {
      var i :| 0 <= i < |tables| && tables[i] == t;
      QuietPassFindsNothing(env, s, tables, |tables|, i);
    }
  }

  lemma {:induction false} DistinctFits<T>(names: seq<T>, room: set<T>)
    requires Distinct(names) && forall name :: name in names ==> name in room
    ensures |names| <= |room|
    ensures |names| == |room| ==> forall name :: name in room ==> name in names
  {
    if names != [] {
      var front, last := names[..|names| - 1], names[|names| - 1];
      assert last in names;
      forall name | name in front ensures name in room - {last} {
        assert name in names;
      }
      DistinctFits(front, room - {last});
      forall name | |names| == |room| && name in room ensures name in names {
        if name != last {
          assert name in front;
        }
      }
    }
  }

  lemma {:induction false} NamesFit(tables: seq<Table>)
    ensures |TableNames(tables)| <= |tables|
  {
    if tables != [] {
      var front, last := tables[..|tables| - 1], tables[|tables| - 1];
      NamesFit(front);
      assert tables == front + [last];
      assert TableNames(tables) == TableNames(front) + {last.name};
    }
  }

  /** Once as many inserts have run as there are tables, every table has had its one insert. */
  lemma AllInsertedIsSettled(env: Env, db0: map<string, seq<Row>>, s: State, tables: seq<Table>)
    requires Known(s, tables) && Good(env, db0, s, TableNames(tables)) && |s.inserted| >= |tables|
    ensures Settled(env, s, tables)
  {
    DistinctFits(s.inserted, TableNames(tables));
    NamesFit(tables);
    forall t | t in tables ensures Plan(env, t, s.db[t.name], s.parents).Err? {
      assert t.name in TableNames(tables);
    }
  }

  lemma {:induction false} PassesSettle(env: Env, db0: map<string, seq<Row>>, s: State, tables: seq<Table>, count: nat)
    requires Known(s, tables) && Good(env, db0, s, TableNames(tables))
    ensures var r := Passes(env, s, tables, count);
            && Good(env, db0, r.0, TableNames(tables))
            && (if r.1 then |r.0.inserted| >= |s.inserted| + count else Settled(env, r.0, tables))
  {
    if count > 0 {
      PassesSettle(env, db0, s, tables, count - 1);
      var before := Passes(env, s, tables, count - 1);
      if before.1 {
        PassKeeps(env, db0, before.0, tables, |tables|);
        if !Pass(env, before.0, tables, |tables|).1 {
          QuietWholePass(env, before.0, tables);
        }
      }
    }
  }

  // ----- The bound is enough

  /**
   As many passes as there are tables always suffice: the run ends where no table would be
   inserted into any more, and on the way each table had at most one insert, which filled it to
   its target exactly and left its earlier rows in place.
   */
  lemma BoundSuffices(env: Env, db: map<string, seq<Row>>, tables: seq<Table>)
    requires forall t :: t in tables ==> t.name in db
    ensures var s := SeedCoverage(env, db, tables);
            && Good(env, db, s, TableNames(tables)) && Settled(env, s, tables)
            && forall t :: t in tables ==> Expand(env, s, t) == (s, false)
  {
    PassesSettle(env, db, Load(db, tables), tables, |tables|);
    var s := SeedCoverage(env, db, tables);
    if |s.inserted| >= |tables| {
      AllInsertedIsSettled(env, db, s, tables);
    }
    forall t | t in tables ensures Expand(env, s, t) == (s, false) {
      assert t.name in TableNames(tables);
      assert s.parents[t.name := s.db[t.name]] == s.parents;
    }
  }

  /** Seeding again, over the same database, inserts nothing. */
  lemma SeedingTwiceIsSeedingOnce(env: Env, db: map<string, seq<Row>>, tables: seq<Table>)
    requires forall t :: t in tables ==> t.name in db
    ensures var s := SeedCoverage(env, db, tables);
            SeedCoverage(env, s.db, tables) == Load(s.db, tables)
  {
    BoundSuffices(env, db, tables);
    var s := SeedCoverage(env, db, tables);
    assert Load(s.db, tables).parents == s.parents;
    if tables != [] {
      QuietPasses(env, Load(s.db, tables), tables, |tables|);
    }
  }

  lemma {:induction false} QuietPasses(env: Env, s: State, tables: seq<Table>, count: nat)
    requires Known(s, tables) && Synced(s, TableNames(tables)) && Settled(env, s, tables) && count > 0
    ensures Passes(env, s, tables, count) == (s, false)
  {
    if count > 1 {
      QuietPasses(env, s, tables, count - 1);
    } else {
      assert Passes(env, s, tables, 0) == (s, true);
      QuietPass(env, s, tables, |tables|);
    }
  }

  lemma {:induction false} QuietPass(env: Env, s: State, tables: seq<Table>, count: nat)
    requires Known(s, tables) && Synced(s, TableNames(tables)) && Settled(env, s, tables) && count <= |tables|
    ensures Pass(env, s, tables, count) == (s, false)
  {
    if count > 0 {
      QuietPass(env, s, tables, count - 1);
      QuietStep(env, s, tables[count - 1], TableNames(tables));
    }
  }

  // ----- Why a table stays short

  lemma {:induction false} ApplyKeysFails(t: Table, keys: seq<ForeignKey>, row: Row, parents: map<string, seq<Row>>,
                                          variant: nat)
    requires variant > 0
    ensures ApplyKeys(t, keys, row, parents, variant).None? <==>
            exists key :: key in keys && RequiredKey(t, key) && !HasRows(parents, key.table)
  {
    if keys != [] {
      var front, last := keys[..|keys| - 1], keys[|keys| - 1];
      ApplyKeysFails(t, front, row, parents, variant);
      assert keys == front + [last];
      assert forall key :: key in keys <==> key in front || key == last;
    }
  }

  /** A required key of the table points at a table without rows, or at one that is not expanded. */
  ghost predicate LacksParent(t: Table, parents: map<string, seq<Row>>) {
    exists key :: key in t.foreignKeys && RequiredKey(t, key) && !HasRows(parents, key.table)
  }

  lemma {:induction false} NewRowsStops(env: Env, t: Table, existing: seq<Row>, parents: map<string, seq<Row>>,
                                        last: nat)
    requires last >= |existing|
    ensures var r := NewRows(env, t, existing, parents, last);
            && (LacksParent(t, parents) && last > |existing| <==> r == Err(MissingParent))
            && (r.Err? ==> r.error.MissingParent? || r.error.Unresolved?)
    decreases last
  {
    if last > |existing| {
      NewRowsStops(env, t, existing, parents, last - 1);
      ApplyKeysFails(t, t.foreignKeys, BaseRow(env, t, Insertable(t.columns), SourceRow(existing, last), last),
                     parents, last);
    }
  }

  lemma PlanStops(env: Env, t: Table, existing: seq<Row>, parents: map<string, seq<Row>>)
    ensures var r := Plan(env, t, existing, parents);
            && (r == Err(Enough) <==> |existing| >= Target(env, t))
            && (r == Err(MissingParent) <==> |existing| < Target(env, t) && LacksParent(t, parents))
  {
    if |existing| < Target(env, t) {
      NewRowsStops(env, t, existing, parents, Target(env, t));
    }
  }

  /** The candidate row after `count` rounds of variation. */
  function Variation(env: Env, t: Table, row: Row, variant: int, count: nat): Row {
    if count == 0 then row
    else Vary(env, t, Variation(env, t, row, variant, count - 1), Tracked(t), variant + count)
  }

  lemma VariationStep(env: Env, t: Table, row: Row, variant: int, count: nat)
    ensures Variation(env, t, row, variant, count + 1) ==
            Vary(env, t, Variation(env, t, row, variant, count), Tracked(t), variant + count + 1)
  {
  }

  lemma {:induction false} GivenUp(env: Env, t: Table, row: Row, rows: seq<Row>, variant: int, attempt: nat)
    requires attempt <= MAX_ATTEMPTS
    ensures Conflict(Resolve(env, t, Variation(env, t, row, variant, attempt), rows, variant, attempt), rows,
                     Tracked(t)) <==>
            AllConflict(env, t, row, rows, variant, attempt)
    decreases MAX_ATTEMPTS - attempt
  {
    var conflict := Conflict(Variation(env, t, row, variant, attempt), rows, Tracked(t));
    if !conflict || attempt == MAX_ATTEMPTS {
      assert Resolve(env, t, Variation(env, t, row, variant, attempt), rows, variant, attempt) ==
             Variation(env, t, row, variant, attempt);
    } else {
      VariationStep(env, t, row, variant, attempt);
      GivenUp(env, t, row, rows, variant, attempt + 1);
    }
  }

  ghost predicate AllConflict(env: Env, t: Table, row: Row, rows: seq<Row>, variant: int, first: nat) {
    forall count :: first <= count <= 100 ==>
        Conflict(Variation(env, t, row, variant, count), rows, Tracked(t))
  }

  /** A conflict is given up exactly when the row and all its 100 variations conflict. */
  lemma GivenUpIff(env: Env, t: Table, row: Row, rows: seq<Row>, variant: int)
    ensures Conflict(Resolve(env, t, row, rows, variant, 0), rows, Tracked(t)) <==>
            AllConflict(env, t, row, rows, variant, 0)
  {
    GivenUp(env, t, row, rows, variant, 0);
  }

  lemma {:induction false} EmptyIndexConflicts(row: Row, rows: seq<Row>, indexes: seq<seq<string>>)
    requires rows != [] && indexes != [] && indexes[0] == []
    ensures Conflict(row, rows, indexes)
  {
    if |indexes| > 1 {
      EmptyIndexConflicts(row, rows, indexes[..|indexes| - 1]);
    } else {
      assert UniqueKey(row, []) == Some("") == UniqueKey(rows[|rows| - 1], []);
    }
  }

  /**
   All rows share the empty key, so a table without a primary key is given a row only if it has
   none and wants one.
   */
  lemma NoPrimaryKeyNoRows(env: Env, t: Table, existing: seq<Row>, parents: map<string, seq<Row>>)
    requires t.primaryKeys == [] && Target(env, t) >= 2
    ensures Plan(env, t, existing, parents).Err?
  {
    var target := Target(env, t);
    if |existing| < target && NewRows(env, t, existing, parents, target).Ok? {
      var rows := NewRows(env, t, existing, parents, target - 1).value;
      NewRowsCount(env, t, existing, parents, target - 1);
      var base := BaseRow(env, t, Insertable(t.columns), SourceRow(existing, target), target);
      var row := ApplyKeys(t, t.foreignKeys, base, parents, target).value;
      EmptyIndexConflicts(Resolve(env, t, row, existing + rows, target, 0), existing + rows, Tracked(t));
    }
  }

  /** A table its own data stops: an unresolved unique conflict, or no column to insert. */
  ghost predicate StopsItself(env: Env, s: State, t: Table)
    requires t.name in s.db
  {
    var r := Plan(env, t, s.db[t.name], s.parents);
    r.Err? && (r.error.Unresolved? || r.error.NoColumns?)
  }

  /** At the fixed point a table is short exactly when it stops itself or lacks a required parent. */
  lemma ShortIffStopped(env: Env, s: State, t: Table, tables: seq<Table>)
    requires Known(s, tables) && Settled(env, s, tables) && t in tables
    ensures !Full(env, s, t) <==>
            StopsItself(env, s, t) || (|s.db[t.name]| < Target(env, t) && LacksParent(t, s.parents))
  {
    PlanStops(env, t, s.db[t.name], s.parents);
  }

  // ----- Chains of required keys

  /** `t` waits for `p`: it has a required key into `p`, which has no rows. */
  ghost predicate WaitsFor(s: State, t: Table, p: Table) {
    && p.name in s.db && s.db[p.name] == []
    && exists key :: key in t.foreignKeys && RequiredKey(t, key) && key.table == p.name
  }

  ghost predicate WaitsOutside(t: Table, tables: seq<Table>) {
    exists key :: key in t.foreignKeys && RequiredKey(t, key) && key.table !in TableNames(tables)
  }

  ghost predicate IsChain(s: State, path: seq<Table>, tables: seq<Table>) {
    && path != []
    && (forall i :: 0 <= i < |path| ==> path[i] in tables)
    && (forall i :: 0 <= i < |path| - 1 ==> WaitsFor(s, path[i], path[i + 1]))
  }

  /** Where a chain of waiting ends: in a table that stops itself, one waiting outside, or a cycle. */
  ghost predicate RootCause(env: Env, s: State, path: seq<Table>, tables: seq<Table>)
    requires path != [] && path[|path| - 1].name in s.db
  {
    var last := path[|path| - 1];
    StopsItself(env, s, last) || WaitsOutside(last, tables) || exists p :: p in path && WaitsFor(s, last, p)
  }

  ghost function PathNames(path: seq<Table>): seq<string> {
    seq(|path|, i requires 0 <= i < |path| => path[i].name)
  }

  lemma NextInChain(env: Env, s: State, t: Table, tables: seq<Table>) returns (next: Table)
    requires Known(s, tables) && Synced(s, TableNames(tables)) && Settled(env, s, tables) && t in tables
             && WantsRows(env, tables)
    requires !Full(env, s, t) && !StopsItself(env, s, t) && !WaitsOutside(t, tables)
    ensures next in tables && WaitsFor(s, t, next) && !Full(env, s, next)
  {
    ShortIffStopped(env, s, t, tables);
    var key :| key in t.foreignKeys && RequiredKey(t, key) && !HasRows(s.parents, key.table);
    assert key.table in TableNames(tables);
    next :| next in tables && next.name == key.table;
  }

  lemma {:induction false} FollowChain(env: Env, s: State, path: seq<Table>, tables: seq<Table>)
    returns (full: seq<Table>)
    requires Known(s, tables) && Synced(s, TableNames(tables)) && Settled(env, s, tables) && WantsRows(env, tables)
    requires IsChain(s, path, tables) && Distinct(PathNames(path)) && !Full(env, s, path[|path| - 1])
    ensures path <= full && IsChain(s, full, tables) && RootCause(env, s, full, tables)
    decreases |tables| - |path|
  {
    var last := path[|path| - 1];
    full := path;
    if !RootCause(env, s, path, tables) {
      var next := NextInChain(env, s, last, tables);
      forall i | 0 <= i < |path| ensures path[i].name != next.name {
        assert path[i] in path;
        assert path[i].name == next.name ==> WaitsFor(s, last, path[i]);
      }
      assert PathNames(path + [next]) == PathNames(path) + [next.name];
      PathFits(path + [next], tables);
      full := FollowChain(env, s, path + [next], tables);
    }
  }

  /** From every short table a chain of required keys through empty tables leads to a root cause. */
  lemma ShortTableHasRootCause(env: Env, db: map<string, seq<Row>>, tables: seq<Table>, t: Table)
    returns (chain: seq<Table>)
    requires (forall u :: u in tables ==> u.name in db) && WantsRows(env, tables)
    requires t in tables && !Full(env, SeedCoverage(env, db, tables), t)
    ensures chain != [] && chain[0] == t
    ensures var s := SeedCoverage(env, db, tables); IsChain(s, chain, tables) && RootCause(env, s, chain, tables)
  {
    BoundSuffices(env, db, tables);
    chain := FollowChain(env, SeedCoverage(env, db, tables), [t], tables);
  }

  // ----- Completeness

  /** The table has fewer rows than its target before the run, so the run has to fill it. */
  ghost predicate StartsShort(env: Env, db: map<string, seq<Row>>, t: Table)
    requires t.name in db
  {
    |db[t.name]| < Target(env, t)
  }

  /** Required keys of tables that start short lead to lower ranks, as far as they lead to listed tables. */
  ghost predicate Acyclic(env: Env, db: map<string, seq<Row>>, tables: seq<Table>, rank: map<string, nat>)
    requires forall t :: t in tables ==> t.name in db
  {
    forall t, key :: t in tables && StartsShort(env, db, t) && key in t.foreignKeys && RequiredKey(t, key)
                     && key.table in TableNames(tables) ==>
      t.name in rank && key.table in rank && rank[key.table] < rank[t.name]
  }

  ghost predicate UniqueNames(tables: seq<Table>) {
    forall t, u :: t in tables && u in tables && t.name == u.name ==> t == u
  }

  /** The table has to be filled, but a required key leads outside the list. */
  ghost predicate CutOff(env: Env, db: map<string, seq<Row>>, t: Table, tables: seq<Table>)
    requires t.name in db
  {
    StartsShort(env, db, t) && WaitsOutside(t, tables)
  }

  /** Rows are only added, so a table short after the run was short before it. */
  lemma ShortStartedShort(env: Env, db: map<string, seq<Row>>, tables: seq<Table>, t: Table)
    requires (forall u :: u in tables ==> u.name in db) && t in tables
    requires !Full(env, SeedCoverage(env, db, tables), t)
    ensures StartsShort(env, db, t)
  {
    BoundSuffices(env, db, tables);
  }

  /** Every table on a chain from a short table is short: all but the first are empty. */
  lemma ChainIsShort(env: Env, s: State, chain: seq<Table>, tables: seq<Table>, i: nat)
    requires Known(s, tables) && IsChain(s, chain, tables) && WantsRows(env, tables)
    requires !Full(env, s, chain[0]) && i < |chain|
    ensures chain[i] in tables && !Full(env, s, chain[i])
  {
    if i > 0 {
      assert WaitsFor(s, chain[i - 1], chain[i - 1 + 1]);
    }
  }

  lemma {:induction false} RankDescends(env: Env, db: map<string, seq<Row>>, tables: seq<Table>, chain: seq<Table>,
                                        rank: map<string, nat>, i: nat, j: nat)
    requires (forall t :: t in tables ==> t.name in db) && WantsRows(env, tables) && Acyclic(env, db, tables, rank)
    requires var s := SeedCoverage(env, db, tables); IsChain(s, chain, tables) && !Full(env, s, chain[0])
    requires i < j < |chain|
    ensures chain[i].name in rank && chain[j].name in rank && rank[chain[j].name] < rank[chain[i].name]
    decreases j
  {
    var s := SeedCoverage(env, db, tables);
    assert WaitsFor(s, chain[j - 1], chain[j - 1 + 1]);
    ChainIsShort(env, s, chain, tables, j - 1);
    ShortStartedShort(env, db, tables, chain[j - 1]);
    if i < j - 1 {
      RankDescends(env, db, tables, chain, rank, i, j - 1);
    }
  }

  /** With ranks, a chain from a short table ends in a table that stops itself or is cut off. */
  lemma ChainEndsInStop(env: Env, db: map<string, seq<Row>>, tables: seq<Table>, chain: seq<Table>,
                        rank: map<string, nat>)
    requires (forall t :: t in tables ==> t.name in db) && WantsRows(env, tables) && Acyclic(env, db, tables, rank)
    requires var s := SeedCoverage(env, db, tables);
             IsChain(s, chain, tables) && !Full(env, s, chain[0]) && RootCause(env, s, chain, tables)
    ensures var last := chain[|chain| - 1];
            StopsItself(env, SeedCoverage(env, db, tables), last) || CutOff(env, db, last, tables)
  {
    var s := SeedCoverage(env, db, tables);
    var last := chain[|chain| - 1];
    ChainIsShort(env, s, chain, tables, |chain| - 1);
    ShortStartedShort(env, db, tables, last);
    if !StopsItself(env, s, last) && !WaitsOutside(last, tables) {
      var p :| p in chain && WaitsFor(s, last, p);
      var i :| 0 <= i < |chain| && chain[i] == p;
      if i < |chain| - 1 {
        RankDescends(env, db, tables, chain, rank, i, |chain| - 1);
      }
      assert false;
    }
  }

  // ----- Keys that lead outside the list

  lemma {:induction false} VisitsLeaveOut(env: Env, s: State, visits: seq<Table>, names: set<string>, t: Table,
                                          key: ForeignKey)
    requires Synced(s, names) && (forall u :: u in visits ==> u.name in names)
    requires t.name in names && forall u :: u in visits && u.name == t.name ==> u == t
    requires key in t.foreignKeys && RequiredKey(t, key) && key.table !in names
    ensures ExpandAll(env, s, visits).db[t.name] == s.db[t.name]
  {
    if visits != [] {
      var front, last := visits[..|visits| - 1], visits[|visits| - 1];
      VisitsLeaveOut(env, s, front, names, t, key);
      VisitsSynced(env, s, front, names);
      var before := ExpandAll(env, s, front);
      if last.name == t.name {
        PlanStops(env, t, before.db[t.name], before.parents);
        assert !HasRows(before.parents, key.table);
      }
    }
  }

  /** A table with a required key that leads outside the list ends with exactly the rows it had. */
  lemma OutsideKeyKeepsRows(env: Env, db: map<string, seq<Row>>, tables: seq<Table>, t: Table)
    requires (forall u :: u in tables ==> u.name in db) && t in tables && WaitsOutside(t, tables)
    requires UniqueNames(tables)
    ensures SeedCoverage(env, db, tables).db[t.name] == db[t.name]
  {
    var visits := SeedCoverageVisits(env, db, tables);
    var key :| key in t.foreignKeys && RequiredKey(t, key) && key.table !in TableNames(tables);
    VisitsLeaveOut(env, Load(db, tables), visits, TableNames(tables), t, key);
  }

  /**
   When the required keys of the tables that start short form no cycle, every table reaches its
   target if and only if none stops itself and none that starts short has a required key outside
   the list.
   */
  lemma EveryTableFullIff(env: Env, db: map<string, seq<Row>>, tables: seq<Table>, rank: map<string, nat>)
    requires (forall t :: t in tables ==> t.name in db) && WantsRows(env, tables)
    requires UniqueNames(tables) && Acyclic(env, db, tables, rank)
    ensures var s := SeedCoverage(env, db, tables);
            (forall t :: t in tables ==> Full(env, s, t)) <==>
            (forall t :: t in tables ==> !StopsItself(env, s, t) && !CutOff(env, db, t, tables))
  {
    BoundSuffices(env, db, tables);
    var s := SeedCoverage(env, db, tables);
    forall t | t in tables ensures StopsItself(env, s, t) || CutOff(env, db, t, tables) ==> !Full(env, s, t) {
      ShortIffStopped(env, s, t, tables);
      if CutOff(env, db, t, tables) {
        OutsideKeyKeepsRows(env, db, tables, t);
      }
    }
    if t :| t in tables && !Full(env, s, t) {
      var chain := ShortTableHasRootCause(env, db, tables, t);
      ChainEndsInStop(env, db, tables, chain, rank);
    }
  }

  lemma PathFits(path: seq<Table>, tables: seq<Table>)
    requires Distinct(PathNames(path)) && forall i :: 0 <= i < |path| ==> path[i] in tables
    ensures |path| <= |tables|
  {
    DistinctFits(PathNames(path), TableNames(tables));
    NamesFit(tables);
  }
}
