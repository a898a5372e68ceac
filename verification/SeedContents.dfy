/** What the rows an insert adds hold, column by column, and what is then stored. */
module SeedContents {
  import opened Wrappers
  import opened SeedExpansion
  import opened SeedFixpoint
  import opened SeedIntegrity
  import opened SeedConflicts

  // ----- One column through the rounds of variation

  /** How often one round varies the column: once for each place it has in an index. */
  function Places(indexes: seq<seq<string>>, name: string): nat {
    if indexes == [] then 0
    else Places(indexes[..|indexes| - 1], name) + multiset(indexes[|indexes| - 1])[name]
  }

  /** The value made from the one before, so often in a row. */
  function Again(env: Env, t: Table, c: Column, value: Option<Value>, variant: int, times: nat): Option<Value> {
    if times == 0 then value
    else Some(env.scalar(t.name, c, Again(env, t, c, value, variant, times - 1), variant))
  }

  /** Round k makes the column's value with variant + k. */
  function AfterRounds(env: Env, t: Table, c: Column, value: Option<Value>, variant: int, rounds: nat, times: nat)
    : Option<Value>
  {
    if rounds == 0 then value
    else Again(env, t, c, AfterRounds(env, t, c, value, variant, rounds - 1, times), variant + rounds, times)
  }

  ghost predicate Changeable(t: Table, name: string) {
    FindColumn(t.columns, name).Some? && name !in KeyColumns(t)
  }

  lemma {:induction false} IndexByColumn(env: Env, t: Table, row: Row, index: seq<string>, variant: int, name: string)
    ensures Held(VaryIndex(env, t, row, index, variant), name) ==
            if Changeable(t, name) then
              Again(env, t, FindColumn(t.columns, name).value, Held(row, name), variant, multiset(index)[name])
            else Held(row, name)
  {
    if index != [] {
      var front, last := index[..|index| - 1], index[|index| - 1];
      IndexByColumn(env, t, row, front, variant, name);
      assert index == front + [last];
      assert multiset(index)[name] == multiset(front)[name] + if name == last then 1 else 0;
    }
  }

  lemma {:induction false} AgainTwice(env: Env, t: Table, c: Column, value: Option<Value>, variant: int, a: nat, b: nat)
    ensures Again(env, t, c, Again(env, t, c, value, variant, a), variant, b) ==
            Again(env, t, c, value, variant, a + b)
  {
    if b > 0 {
      AgainTwice(env, t, c, value, variant, a, b - 1);
    }
  }

  lemma {:induction false} RoundByColumn(env: Env, t: Table, row: Row, indexes: seq<seq<string>>, variant: int,
                                         name: string)
    ensures Held(Vary(env, t, row, indexes, variant), name) ==
            if Changeable(t, name) then
              Again(env, t, FindColumn(t.columns, name).value, Held(row, name), variant, Places(indexes, name))
            else Held(row, name)
  {
    if indexes != [] {
      var front, last := indexes[..|indexes| - 1], indexes[|indexes| - 1];
      RoundByColumn(env, t, row, front, variant, name);
      IndexByColumn(env, t, Vary(env, t, row, front, variant), last, variant, name);
      if Changeable(t, name) {
        AgainTwice(env, t, FindColumn(t.columns, name).value, Held(row, name), variant, Places(front, name),
                   multiset(last)[name]);
      }
    }
  }

  /** The nested loops over indexes and columns change each column for itself. */
  lemma {:induction false} RoundsByColumn(env: Env, t: Table, row: Row, variant: int, rounds: nat, name: string)
    ensures Held(Variation(env, t, row, variant, rounds), name) ==
            if Changeable(t, name) then
              AfterRounds(env, t, FindColumn(t.columns, name).value, Held(row, name), variant, rounds,
                          Places(Tracked(t), name))
            else Held(row, name)
  {
    if rounds > 0 {
      RoundsByColumn(env, t, row, variant, rounds - 1, name);
      RoundByColumn(env, t, Variation(env, t, row, variant, rounds - 1), Tracked(t), variant + rounds, name);
    }
  }

  lemma {:induction false} NoPlace(indexes: seq<seq<string>>, name: string)
    requires forall index :: index in indexes ==> name !in index
    ensures Places(indexes, name) == 0
  {
    if indexes != [] {
      assert indexes[|indexes| - 1] in indexes;
      NoPlace(indexes[..|indexes| - 1], name);
    }
  }

  lemma {:induction false} NoPlaceNoChange(env: Env, t: Table, c: Column, value: Option<Value>, variant: int,
                                           rounds: nat)
    ensures AfterRounds(env, t, c, value, variant, rounds, 0) == value
  {
    if rounds > 0 {
      NoPlaceNoChange(env, t, c, value, variant, rounds - 1);
    }
  }

  /** The conflict is resolved in the first round, counted from none, that leaves the row without one. */
  lemma {:induction false} FirstFreeRound(env: Env, t: Table, row: Row, rows: seq<Row>, variant: int, attempt: nat)
    returns (rounds: nat)
    requires attempt <= MAX_ATTEMPTS
    ensures attempt <= rounds <= MAX_ATTEMPTS
    ensures Resolve(env, t, Variation(env, t, row, variant, attempt), rows, variant, attempt) ==
            Variation(env, t, row, variant, rounds)
    ensures forall k :: attempt <= k < rounds ==> Conflict(Variation(env, t, row, variant, k), rows, Tracked(t))
    decreases MAX_ATTEMPTS - attempt
  {
    rounds := attempt;
    if attempt < MAX_ATTEMPTS && Conflict(Variation(env, t, row, variant, attempt), rows, Tracked(t)) {
      VariationStep(env, t, row, variant, attempt);
      rounds := FirstFreeRound(env, t, row, rows, variant, attempt + 1);
    }
  }

  // ----- The values a row starts from

  /** What the row the new one is modelled on holds there: existing rows are used in turn. */
  function ModelValue(existing: seq<Row>, variant: nat, name: string): Option<Value>
    requires variant > 0
  {
    if existing != [] && name in existing[(variant - 1) % |existing|] then
      Some(existing[(variant - 1) % |existing|][name])
    else None
  }

  /** A column that is no foreign key: its date stamp, its generated value, or nothing. */
  ghost predicate PlainStart(env: Env, t: Table, existing: seq<Row>, variant: nat, c: Column, start: Option<Value>)
    requires variant > 0
  {
    var model := ModelValue(existing, variant, c.name);
    if c.autoIncrement then start == None
    else if c.name in {"createdAt", "updatedAt"} && model.Some? && model.value.Date? then
      start == Some(env.stamp(variant))
    else if model.Some? || (!c.nullable && c.default == None) then
      start == Some(env.scalar(t.name, c, model, variant))
    else start == None
  }

  /** A foreign key column: parent rows are used in turn, and without any the column is left out. */
  ghost predicate KeyStart(parents: map<string, seq<Row>>, variant: nat, key: ForeignKey, start: Option<Value>)
    requires variant > 0
  {
    if key.table in parents && |parents[key.table]| > 0 then
      var parent := parents[key.table][(variant - 1) % |parents[key.table]|];
      start == Some(if key.refColumn in parent then parent[key.refColumn] else Null)
    else start == None
  }

  /** The row before any round. */
  ghost predicate Starts(env: Env, t: Table, existing: seq<Row>, parents: map<string, seq<Row>>, variant: nat,
                         first: Row)
    requires variant > 0
  {
    && (forall c :: c in t.columns && c.name !in KeyColumns(t) ==>
          PlainStart(env, t, existing, variant, c, Held(first, c.name)))
    && (forall key :: key in t.foreignKeys ==> KeyStart(parents, variant, key, Held(first, key.column)))
    && forall name :: name in first ==> name in Names(t.columns) || name in KeyColumns(t)
  }

  lemma {:induction false} BaseOnly(env: Env, t: Table, columns: seq<Column>, source: Row, variant: int, name: string)
    requires name in BaseRow(env, t, columns, source, variant)
    ensures name !in KeyColumns(t) && exists c :: c in columns && c.name == name
  {
    var front, last := columns[..|columns| - 1], columns[|columns| - 1];
    if name in BaseRow(env, t, front, source, variant) {
      BaseOnly(env, t, front, source, variant, name);
      var c :| c in front && c.name == name;
      assert c in columns;
    } else {
      assert last in columns && last.name == name;
    }
  }

  lemma {:induction false} BaseStart(env: Env, t: Table, columns: seq<Column>, existing: seq<Row>, variant: nat,
                                     c: Column)
    requires variant > 0 && c in columns && c.name !in KeyColumns(t) && !c.autoIncrement
    requires forall d :: d in columns && d.name == c.name ==> d == c
    ensures PlainStart(env, t, existing, variant, c,
                       Held(BaseRow(env, t, columns, SourceRow(existing, variant), variant), c.name))
  {
    var front, last, source := columns[..|columns| - 1], columns[|columns| - 1], SourceRow(existing, variant);
    assert Held(source, c.name) == ModelValue(existing, variant, c.name);
    if c in front {
      BaseStart(env, t, front, existing, variant, c);
    } else if c.name in BaseRow(env, t, front, source, variant) {
      BaseOnly(env, t, front, source, variant, c.name);
    }
  }

  lemma {:induction false} KeysStart(t: Table, count: nat, row: Row, parents: map<string, seq<Row>>, variant: nat)
    requires variant > 0 && count <= |t.foreignKeys| && KeysDistinct(t.foreignKeys)
    requires forall k :: k in t.foreignKeys ==> k.column !in row
    requires ApplyKeys(t, t.foreignKeys[..count], row, parents, variant).Some?
    ensures var r := ApplyKeys(t, t.foreignKeys[..count], row, parents, variant).value;
            && (forall i :: 0 <= i < count ==>
                  KeyStart(parents, variant, t.foreignKeys[i], Held(r, t.foreignKeys[i].column)))
            && (forall i :: count <= i < |t.foreignKeys| ==> t.foreignKeys[i].column !in r)
            && forall name :: name !in KeyColumns(t) ==> Held(r, name) == Held(row, name)
  {
    if count > 0 {
      assert t.foreignKeys[..count][..count - 1] == t.foreignKeys[..count - 1];
      KeysStart(t, count - 1, row, parents, variant);
      assert t.foreignKeys[count - 1] in t.foreignKeys;
    }
  }

  lemma CandidateStarts(env: Env, t: Table, existing: seq<Row>, parents: map<string, seq<Row>>, variant: nat)
    requires variant > 0 && ColumnsNamed(t) && KeysDistinct(t.foreignKeys)
    requires var base := BaseRow(env, t, Insertable(t.columns), SourceRow(existing, variant), variant);
             ApplyKeys(t, t.foreignKeys, base, parents, variant).Some?
    ensures var base := BaseRow(env, t, Insertable(t.columns), SourceRow(existing, variant), variant);
            Starts(env, t, existing, parents, variant, ApplyKeys(t, t.foreignKeys, base, parents, variant).value)
  {
    var columns, source := Insertable(t.columns), SourceRow(existing, variant);
    var base := BaseRow(env, t, columns, source, variant);
    forall name | name in base ensures name !in KeyColumns(t) && name in Names(t.columns) {
      BaseOnly(env, t, columns, source, variant, name);
      var c :| c in columns && c.name == name;
      InsertableIn(t.columns, c);
    }
    forall c | c in columns ensures c in t.columns && !c.autoIncrement {
      InsertableIn(t.columns, c);
    }
    forall k | k in t.foreignKeys ensures k.column !in base {
      assert k.column in KeyColumns(t);
    }
    assert t.foreignKeys[..|t.foreignKeys|] == t.foreignKeys;
    KeysStart(t, |t.foreignKeys|, base, parents, variant);
    forall c | c in t.columns && c.name !in KeyColumns(t)
      ensures PlainStart(env, t, existing, variant, c, Held(base, c.name))
    {
      if c.autoIncrement {
        assert c.name !in base by {
          if c.name in base {
            BaseOnly(env, t, columns, source, variant, c.name);
          }
        }
      } else {
        InsertableHas(t.columns, c);
        BaseStart(env, t, columns, existing, variant, c);
      }
    }
  }

  // ----- The rows of a plan

  lemma {:induction false} RowOfVariant(env: Env, t: Table, existing: seq<Row>, parents: map<string, seq<Row>>,
                                        last: nat, variant: nat)
    requires |existing| < variant <= last && NewRows(env, t, existing, parents, last).Ok?
    ensures var rows := NewRows(env, t, existing, parents, last).value;
            && |rows| == last - |existing|
            && NewRow(env, t, existing, parents, rows[..variant - |existing| - 1], variant) ==
               Ok(rows[variant - |existing| - 1])
    decreases last
  {
    NewRowsCount(env, t, existing, parents, last);
    NewRowsCount(env, t, existing, parents, last - 1);
    var rows, before := NewRows(env, t, existing, parents, last).value,
                        NewRows(env, t, existing, parents, last - 1).value;
    if variant < last {
      RowOfVariant(env, t, existing, parents, last - 1, variant);
      assert rows[..variant - |existing| - 1] == before[..variant - |existing| - 1];
    } else {
      assert rows[..variant - |existing| - 1] == before;
    }
  }

  /** The value of the column of a row that started from `start` and was varied for so many rounds. */
  ghost predicate Ends(env: Env, t: Table, c: Column, start: Option<Value>, variant: int, rounds: nat,
                       end: Option<Value>)
  {
    end == AfterRounds(env, t, c, start, variant, rounds, Places(Tracked(t), c.name))
  }

  /**
   Row v of a plan starts from the values given above, column by column, and is varied for the
   first number of rounds that leaves it without a conflict with the rows before it.
   */
  lemma PlannedRow(env: Env, t: Table, existing: seq<Row>, parents: map<string, seq<Row>>, variant: nat)
    returns (first: Row, rounds: nat)
    requires ColumnsNamed(t) && KeysDistinct(t.foreignKeys) && Plan(env, t, existing, parents).Ok?
    requires |existing| < variant <= env.target(t.name)
    ensures Starts(env, t, existing, parents, variant, first) && rounds <= 100
    ensures var rows := Plan(env, t, existing, parents).value;
            && |rows| == env.target(t.name) - |existing|
            && var row, earlier := rows[variant - |existing| - 1], existing + rows[..variant - |existing| - 1];
            && (forall c :: c in t.columns && c.name !in KeyColumns(t) ==>
                  Ends(env, t, c, Held(first, c.name), variant, rounds, Held(row, c.name)))
            && (forall key :: key in t.foreignKeys ==> Held(row, key.column) == Held(first, key.column))
            && (forall name :: name in row ==> name in Names(t.columns) || name in KeyColumns(t))
            && !Conflict(row, earlier, Tracked(t))
            && forall k :: 0 <= k < rounds ==> Conflict(Variation(env, t, first, variant, k), earlier, Tracked(t))
  {
    var rows := Plan(env, t, existing, parents).value;
    RowOfVariant(env, t, existing, parents, env.target(t.name), variant);
    var earlier := rows[..variant - |existing| - 1];
    var base := BaseRow(env, t, Insertable(t.columns), SourceRow(existing, variant), variant);
    first := ApplyKeys(t, t.foreignKeys, base, parents, variant).value;
    CandidateStarts(env, t, existing, parents, variant);
    rounds := FirstFreeRound(env, t, first, existing + earlier, variant, 0);
    var row := rows[variant - |existing| - 1];
    assert row == Variation(env, t, first, variant, rounds);
    forall name ensures Held(row, name) ==
            if Changeable(t, name) then
              AfterRounds(env, t, FindColumn(t.columns, name).value, Held(first, name), variant, rounds,
                          Places(Tracked(t), name))
            else Held(first, name)
    {
      RoundsByColumn(env, t, first, variant, rounds, name);
    }
    forall c | c in t.columns && c.name !in KeyColumns(t)
      ensures Ends(env, t, c, Held(first, c.name), variant, rounds, Held(row, c.name))
    {
      assert FindColumn(t.columns, c.name) == Some(c);
    }
    forall key | key in t.foreignKeys ensures Held(row, key.column) == Held(first, key.column) {
      assert !Changeable(t, key.column);
    }
    forall name | name in row ensures name in Names(t.columns) || name in KeyColumns(t) {
      assert Held(row, name).Some?;
      if name !in first {
        assert Changeable(t, name);
        assert FindColumn(t.columns, name).value in t.columns;
      }
    }
  }

  /** A column in no tracked index holds what it started from. */
  lemma UntrackedColumn(env: Env, t: Table, existing: seq<Row>, parents: map<string, seq<Row>>, variant: nat,
                        c: Column)
    requires ColumnsNamed(t) && KeysDistinct(t.foreignKeys) && Plan(env, t, existing, parents).Ok?
    requires |existing| < variant <= env.target(t.name)
    requires c in t.columns && c.name !in KeyColumns(t)
    requires forall index :: index in [t.primaryKeys] + t.uniqueIndexes ==> c.name !in index
    ensures |Plan(env, t, existing, parents).value| == env.target(t.name) - |existing|
    ensures PlainStart(env, t, existing, variant, c,
                       Held(Plan(env, t, existing, parents).value[variant - |existing| - 1], c.name))
  {
    var first, rounds := PlannedRow(env, t, existing, parents, variant);
    NoPlace(Tracked(t), c.name);
    NoPlaceNoChange(env, t, c, Held(first, c.name), variant, rounds);
  }

  /**
   The missing parent, spelled out: the table wants rows, and a foreign key whose column exists,
   is not nullable and has no default refers to a table without rows.
   */
  lemma MissingParentIff(env: Env, t: Table, existing: seq<Row>, parents: map<string, seq<Row>>)
    requires ColumnsNamed(t)
    ensures Plan(env, t, existing, parents) == Err(MissingParent) <==>
            && |existing| < env.target(t.name)
            && exists key, c ::
                 && key in t.foreignKeys && c in t.columns && c.name == key.column
                 && !c.nullable && c.default == None
                 && (key.table !in parents || |parents[key.table]| == 0)
  {
    PlanStops(env, t, existing, parents);
    if LacksParent(t, parents) {
      var key :| key in t.foreignKeys && RequiredKey(t, key) && !HasRows(parents, key.table);
      var c := FindColumn(t.columns, key.column).value;
      assert c in t.columns && c.name == key.column;
    }
    forall key, c | && key in t.foreignKeys && c in t.columns && c.name == key.column
                    && !c.nullable && c.default == None
                    && (key.table !in parents || |parents[key.table]| == 0)
      ensures LacksParent(t, parents)
    {
      assert FindColumn(t.columns, key.column) == Some(c);
      assert RequiredKey(t, key) && !HasRows(parents, key.table);
    }
  }

  // ----- What a run stores

  /** What the database has for a column of an inserted row, from what the new rows hold there. */
  ghost predicate StoresAs(env: Env, t: Table, c: Column, existing: seq<Row>, rows: seq<Row>, k: nat, stored: Row)
    requires k < |rows|
  {
    && c.name in stored
    && stored[c.name] ==
       (if c.autoIncrement then env.counter(t.name, c.name, existing, k)
        else if c.name in rows[k] then rows[k][c.name]
        else if exists row :: row in rows && c.name in row then Null
        else if c.default.Some? then Text(c.default.value) else Null)
  }

  lemma StoredColumn(env: Env, t: Table, c: Column, existing: seq<Row>, rows: seq<Row>, k: nat)
    requires ColumnsNamed(t) && c in t.columns && k < |rows|
    ensures var listed := ColumnNames(Insertable(t.columns), rows);
            StoresAs(env, t, c, existing, rows, k, StoredRows(env, t, existing, rows, listed)[k])
  {
    var listed := ColumnNames(Insertable(t.columns), rows);
    StoredRowsAt(env, t, existing, rows, listed, k);
    assert FindColumn(t.columns, c.name) == Some(c) && c.name in Names(t.columns);
    if !c.autoIncrement {
      InsertableHas(t.columns, c);
      if row :| row in rows && c.name in row {
        ColumnNamesHas(Insertable(t.columns), rows, c, row);
      } else if c.name in listed {
        ColumnNamesOnly(Insertable(t.columns), rows, c.name);
      }
      assert rows[k] in rows;
    }
  }

  /** The tables as they were at one visit: each has its starting rows or already its final ones. */
  ghost predicate Between(parents: map<string, seq<Row>>, names: set<string>, start: map<string, seq<Row>>,
                          end: map<string, seq<Row>>)
  {
    && parents.Keys == names && names <= start.Keys && names <= end.Keys
    && forall name :: name in names ==> parents[name] == start[name] || parents[name] == end[name]
  }

  /** The table's rows in the state are its starting rows and then those planned from them. */
  ghost predicate FilledFrom(env: Env, db: map<string, seq<Row>>, t: Table, parents: map<string, seq<Row>>,
                             now: seq<Row>)
    requires t.name in db
  {
    && Plan(env, t, db[t.name], parents).Ok?
    && var rows := Plan(env, t, db[t.name], parents).value;
       now == db[t.name] + StoredRows(env, t, db[t.name], rows, ColumnNames(Insertable(t.columns), rows))
  }

  /** Later visits leave a filled table alone and take others only to their final state. */
  lemma StaysBetween(env: Env, db: map<string, seq<Row>>, before: State, last: Table, names: set<string>,
                     parents: map<string, seq<Row>>)
    requires Good(env, db, before, names) && last.name in names && Between(parents, names, db, before.db)
    ensures Between(parents, names, db, Expand(env, before, last).0.db)
    ensures forall name :: name in before.inserted ==>
              name in before.db && Expand(env, before, last).0.db[name] == before.db[name]
  {
    ExpandStep(env, db, before, last, names);
    var after := Expand(env, before, last).0;
    forall name | name in before.inserted ensures name in before.db && after.db[name] == before.db[name] {
      if name == last.name {
        assert Filled(env, name, db[name], before.db[name]);
      }
    }
    forall name | name in names ensures parents[name] == db[name] || parents[name] == after.db[name] {
      assert name !in before.inserted ==> before.db[name] == db[name];
    }
  }

  /** The visit that fills a table plans from its starting rows. */
  lemma FillsHere(env: Env, db: map<string, seq<Row>>, before: State, t: Table, names: set<string>)
    requires Good(env, db, before, names) && t.name in names && t.name !in before.inserted
    requires t.name in Expand(env, before, t).0.inserted
    ensures t.name in db && FilledFrom(env, db, t, before.parents, Expand(env, before, t).0.db[t.name])
    ensures Between(before.parents, names, db, Expand(env, before, t).0.db)
  {
    ExpandStep(env, db, before, t, names);
    assert before.db[t.name] == db[t.name];
    forall name | name in names
      ensures before.parents[name] == db[name] || before.parents[name] == Expand(env, before, t).0.db[name]
    {
      assert before.parents[name] == before.db[name];
    }
  }

  lemma {:induction false} VisitsFill(env: Env, db: map<string, seq<Row>>, s: State, visits: seq<Table>,
                                      names: set<string>, t: Table)
    returns (parents: map<string, seq<Row>>)
    requires Good(env, db, s, names) && (forall u :: u in visits ==> u.name in names)
    requires t.name in names && forall u :: u in visits && u.name == t.name ==> u == t
    requires t.name in db && t.name in ExpandAll(env, s, visits).inserted && t.name !in s.inserted
    ensures Good(env, db, ExpandAll(env, s, visits), names)
    ensures Between(parents, names, db, ExpandAll(env, s, visits).db)
    ensures FilledFrom(env, db, t, parents, ExpandAll(env, s, visits).db[t.name])
  {
    var front, last := visits[..|visits| - 1], visits[|visits| - 1];
    var before := ExpandAll(env, s, front);
    VisitsGood(env, db, s, visits, names);
    VisitsGood(env, db, s, front, names);
    if t.name in before.inserted {
      parents := VisitsFill(env, db, s, front, names, t);
      StaysBetween(env, db, before, last, names, parents);
    } else {
      parents := before.parents;
      ExpandStep(env, db, before, last, names);
      assert last.name == t.name && last in visits;
      FillsHere(env, db, before, t, names);
    }
  }

  lemma {:induction false} VisitsGood(env: Env, db: map<string, seq<Row>>, s: State, visits: seq<Table>,
                                      names: set<string>)
    requires Good(env, db, s, names) && forall u :: u in visits ==> u.name in names
    ensures Good(env, db, ExpandAll(env, s, visits), names)
  {
    if visits != [] {
      VisitsGood(env, db, s, visits[..|visits| - 1], names);
      ExpandStep(env, db, ExpandAll(env, s, visits[..|visits| - 1]), visits[|visits| - 1], names);
    }
  }

  lemma SeedingFills(env: Env, db: map<string, seq<Row>>, tables: seq<Table>, t: Table)
    returns (parents: map<string, seq<Row>>)
    requires (forall u :: u in tables ==> u.name in db) && UniqueNames(tables) && t in tables
    requires |db[t.name]| < |SeedCoverage(env, db, tables).db[t.name]|
    ensures Between(parents, TableNames(tables), db, SeedCoverage(env, db, tables).db)
    ensures FilledFrom(env, db, t, parents, SeedCoverage(env, db, tables).db[t.name])
  {
    var visits := SeedCoverageVisits(env, db, tables);
    BoundSuffices(env, db, tables);
    parents := VisitsFill(env, db, Load(db, tables), visits, TableNames(tables), t);
  }

  /**
   A table the run filled keeps its rows in front; row v behind them is stored from a row planned
   at one visit, from the starting rows of the table and from tables each in its starting or its
   final state.
   */
  lemma SeededRow(env: Env, db: map<string, seq<Row>>, tables: seq<Table>, t: Table, variant: nat)
    returns (parents: map<string, seq<Row>>)
    requires (forall u :: u in tables ==> u.name in db) && UniqueNames(tables) && t in tables
    requires ColumnsNamed(t) && KeysDistinct(t.foreignKeys)
    requires |db[t.name]| < variant <= |SeedCoverage(env, db, tables).db[t.name]|
    ensures Between(parents, TableNames(tables), db, SeedCoverage(env, db, tables).db)
    ensures var now, n, plan := SeedCoverage(env, db, tables).db[t.name], |db[t.name]|,
                                Plan(env, t, db[t.name], parents);
            && |now| == env.target(t.name) && now[..n] == db[t.name]
            && plan.Ok? && |plan.value| == |now| - n
            && forall c :: c in t.columns ==>
               StoresAs(env, t, c, db[t.name], plan.value, variant - n - 1, now[variant - 1])
  {
    var end := SeedCoverage(env, db, tables);
    parents := SeedingFills(env, db, tables, t);
    var plan := Plan(env, t, db[t.name], parents);
    NewRowsCount(env, t, db[t.name], parents, env.target(t.name));
    forall c | c in t.columns
      ensures StoresAs(env, t, c, db[t.name], plan.value, variant - |db[t.name]| - 1, end.db[t.name][variant - 1])
    {
      StoredColumn(env, t, c, db[t.name], plan.value, variant - |db[t.name]| - 1);
    }
  }

  /** What is stored in a column outside every key and index, told from the starting rows alone. */
  ghost predicate PlainStored(env: Env, t: Table, existing: seq<Row>, variant: nat, c: Column, stored: Value)
    requires variant > 0
  {
    var model := ModelValue(existing, variant, c.name);
    if c.name in {"createdAt", "updatedAt"} && model.Some? && model.value.Date? then stored == env.stamp(variant)
    else if model.Some? || (!c.nullable && c.default == None) then stored == env.scalar(t.name, c, model, variant)
    else stored == Null || (c.default.Some? && stored == Text(c.default.value))
  }

  /** After the run, row v of a filled table holds the value made for variant v from its model row. */
  lemma SeededPlainColumn(env: Env, db: map<string, seq<Row>>, tables: seq<Table>, t: Table, variant: nat, c: Column)
    requires (forall u :: u in tables ==> u.name in db) && UniqueNames(tables) && t in tables
    requires ColumnsNamed(t) && KeysDistinct(t.foreignKeys)
    requires |db[t.name]| < variant <= |SeedCoverage(env, db, tables).db[t.name]|
    requires c in t.columns && c.name !in KeyColumns(t) && !c.autoIncrement
    requires forall index :: index in [t.primaryKeys] + t.uniqueIndexes ==> c.name !in index
    ensures c.name in SeedCoverage(env, db, tables).db[t.name][variant - 1]
    ensures PlainStored(env, t, db[t.name], variant, c, SeedCoverage(env, db, tables).db[t.name][variant - 1][c.name])
  {
    var parents := SeededRow(env, db, tables, t, variant);
    UntrackedColumn(env, t, db[t.name], parents, variant, c);
    var plan := Plan(env, t, db[t.name], parents);
    assert StoresAs(env, t, c, db[t.name], plan.value, variant - |db[t.name]| - 1,
                    SeedCoverage(env, db, tables).db[t.name][variant - 1]);
  }
}
