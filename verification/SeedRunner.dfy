/**
 The expander as it runs: an object over the database and its own copy of the tables, whose
 loops build rows column by column and retry until no unique index conflicts.
 */
module SeedRunner {
  import opened Wrappers
  import opened SeedExpansion

  class Seeder {
    const env: Env
    var db: map<string, seq<Row>>
    var parentRows: map<string, seq<Row>>
    var inserted: seq<string>

    ghost function Now(): State
      reads this
    {
      State(db, parentRows, inserted)
    }

    constructor (env: Env, db: map<string, seq<Row>>)
      ensures this.env == env && Now() == State(db, map[], [])
    {
      this.env := env;
      this.db := db;
      parentRows := map[];
      inserted := [];
    }

    method BuildRow(t: Table, source: Row, variant: int) returns (row: Row)
      ensures row == BaseRow(env, t, Insertable(t.columns), source, variant)
    {
      row := map[];
      var columns := Insertable(t.columns);
      for i := 0 to |columns|
        invariant row == BaseRow(env, t, columns[..i], source, variant)
      {
        assert columns[..i + 1][..i] == columns[..i];
        row := AddColumn(env, t, row, columns[i], source, variant);
      }
      assert columns[..|columns|] == columns;
    }

    method ApplyForeignKeys(t: Table, built: Row, variant: nat) returns (ok: bool, row: Row)
      requires variant > 0
      ensures ApplyKeys(t, t.foreignKeys, built, parentRows, variant) == if ok then Some(row) else None
    {
      row := built;
      for i := 0 to |t.foreignKeys|
        invariant ApplyKeys(t, t.foreignKeys[..i], built, parentRows, variant) == Some(row)
      {
        var key := t.foreignKeys[i];
        assert t.foreignKeys[..i + 1][..i] == t.foreignKeys[..i];
        if key.table !in parentRows || parentRows[key.table] == [] {
          if RequiredKey(t, key) {
            KeysStayFailed(t, built, parentRows, variant, i + 1);
            return false, row;
          }
        } else {
          var source := parentRows[key.table];
          row := row[key.column := Field(source[(variant - 1) % |source|], key.refColumn)];
        }
      }
      assert t.foreignKeys[..|t.foreignKeys|] == t.foreignKeys;
      return true, row;
    }

    method VaryRow(t: Table, built: Row, variant: int) returns (row: Row)
      ensures row == Vary(env, t, built, Tracked(t), variant)
    {
      row := built;
      var indexes := Tracked(t);
      for i := 0 to |indexes|
        invariant row == Vary(env, t, built, indexes[..i], variant)
      {
        assert indexes[..i + 1][..i] == indexes[..i];
        var before := row;
        for j := 0 to |indexes[i]|
          invariant row == VaryIndex(env, t, before, indexes[i][..j], variant)
        {
          assert indexes[i][..j + 1][..j] == indexes[i][..j];
          row := VaryColumn(env, t, row, indexes[i][j], variant);
        }
        assert indexes[i][..|indexes[i]|] == indexes[i];
      }
      assert indexes[..|indexes|] == indexes;
    }

    method ResolveConflicts(t: Table, built: Row, rows: seq<Row>, variant: int) returns (row: Row)
      ensures row == Resolve(env, t, built, rows, variant, 0)
    {
      row := built;
      var attempt := 0;
      while attempt < MAX_ATTEMPTS && Conflict(row, rows, Tracked(t))
        invariant 0 <= attempt <= MAX_ATTEMPTS
        invariant Resolve(env, t, row, rows, variant, attempt) == Resolve(env, t, built, rows, variant, 0)
      {
        row := VaryRow(t, row, variant + attempt + 1);
        if !Conflict(row, rows, Tracked(t)) {
          break;
        }
        attempt := attempt + 1;
      }
    }

    /** The rows to insert into a short table, or why there are none. */
    method BuildRows(t: Table, existing: seq<Row>) returns (result: Result<seq<Row>, Stop>)
      requires |existing| < env.target(t.name)
      ensures result == NewRows(env, t, existing, parentRows, env.target(t.name))
      ensures result != Err(Enough)
    {
      var target := env.target(t.name);
      var rows: seq<Row> := [];
      var variant := |existing| + 1;
      while variant <= target
        invariant |existing| + 1 <= variant <= target + 1
        invariant NewRows(env, t, existing, parentRows, variant - 1) == Ok(rows)
      {
        var row := BuildRow(t, SourceRow(existing, variant), variant);
        var ok;
        ok, row := ApplyForeignKeys(t, row, variant);
        if !ok {
          RowsStayStopped(env, t, existing, parentRows, variant, target);
          return Err(MissingParent);
        }
        row := ResolveConflicts(t, row, existing + rows, variant);
        if Conflict(row, existing + rows, Tracked(t)) {
          RowsStayStopped(env, t, existing, parentRows, variant, target);
          return Err(Unresolved(variant));
        }
        rows := rows + [row];
        variant := variant + 1;
      }
      return Ok(rows);
    }

    method ExpandTable(t: Table) returns (progressed: bool)
      requires t.name in db
      modifies this
      ensures (Now(), progressed) == Expand(env, old(Now()), t)
    {
      var existing := db[t.name];
      if |existing| >= env.target(t.name) {
        parentRows := parentRows[t.name := existing];
        return false;
      }
      var built := BuildRows(t, existing);
      if built.Err? {
        return false;
      }
      var columnNames := ColumnNames(Insertable(t.columns), built.value);
      if columnNames == [] {
        return false;
      }
      var refreshed := existing + StoredRows(env, t, existing, built.value, columnNames);
      db := db[t.name := refreshed];
      parentRows := parentRows[t.name := refreshed];
      inserted := inserted + [t.name];
      return true;
    }

    method LoadTables(tables: seq<Table>)
      requires parentRows == map[] && inserted == [] && forall t :: t in tables ==> t.name in db
      modifies this`parentRows
      ensures Now() == Load(db, tables)
    {
      for i := 0 to |tables|
        invariant parentRows == map name | name in TableNames(tables[..i]) :: db[name]
      {
        assert TableNames(tables[..i + 1]) == TableNames(tables[..i]) + {tables[i].name} by {
          assert tables[..i + 1] == tables[..i] + [tables[i]];
        }
        parentRows := parentRows[tables[i].name := db[tables[i].name]];
      }
      assert tables[..|tables|] == tables;
    }

    method RunPass(tables: seq<Table>) returns (progressed: bool)
      requires Known(Now(), tables)
      modifies this
      ensures (Now(), progressed) == Pass(env, old(Now()), tables, |tables|)
    {
      progressed := false;
      for i := 0 to |tables|
        invariant (Now(), progressed) == Pass(env, old(Now()), tables, i)
      {
        var more := ExpandTable(tables[i]);
        progressed := progressed || more;
      }
    }

    /** The whole run: load every table, then pass over them until a pass makes no progress. */
    method SeedSemanticCoverage(tables: seq<Table>)
      requires parentRows == map[] && inserted == [] && forall t :: t in tables ==> t.name in db
      modifies this
      ensures Now() == SeedCoverage(env, old(db), tables)
    {
      LoadTables(tables);
      ghost var loaded := Now();
      var pass := 0;
      while pass < |tables|
        invariant 0 <= pass <= |tables|
        invariant (Now(), true) == Passes(env, loaded, tables, pass)
      {
        var progressed := RunPass(tables);
        pass := pass + 1;
        if !progressed {
          PassesStop(env, loaded, tables, pass, |tables|);
          break;
        }
      }
    }
  }

  lemma {:induction false} KeysStayFailed(t: Table, row: Row, parents: map<string, seq<Row>>, variant: nat, count: nat)
    requires variant > 0 && count <= |t.foreignKeys|
    requires ApplyKeys(t, t.foreignKeys[..count], row, parents, variant).None?
    ensures ApplyKeys(t, t.foreignKeys, row, parents, variant).None?
    decreases |t.foreignKeys| - count
  {
    if count < |t.foreignKeys| {
      assert t.foreignKeys[..count + 1][..count] == t.foreignKeys[..count];
      KeysStayFailed(t, row, parents, variant, count + 1);
    } else {
      assert t.foreignKeys[..count] == t.foreignKeys;
    }
  }

  lemma {:induction false} RowsStayStopped(env: Env, t: Table, existing: seq<Row>, parents: map<string, seq<Row>>,
                                           at: nat, last: nat)
    requires |existing| <= at <= last && NewRows(env, t, existing, parents, at).Err?
    ensures NewRows(env, t, existing, parents, last) == NewRows(env, t, existing, parents, at)
    decreases last
  {
    if at < last {
      RowsStayStopped(env, t, existing, parents, at, last - 1);
    }
  }

  lemma {:induction false} PassesStop(env: Env, s: State, tables: seq<Table>, at: nat, count: nat)
    requires Known(s, tables) && at <= count && !Passes(env, s, tables, at).1
    ensures Passes(env, s, tables, count) == Passes(env, s, tables, at)
  {
    if at < count {
      PassesStop(env, s, tables, at, count - 1);
    }
  }
}
