/**
 The expansion keeps the database's own constraints: unique indexes stay free of duplicates and
 foreign keys keep pointing at existing rows.
 */
module SeedIntegrity {
  import opened Wrappers
  import opened SeedExpansion
  import opened SeedFixpoint

  // ----- The constraints, as the database states them

  ghost predicate SameText(a: Value, b: Value) {
    !a.Null? && !b.Null? && a.text == b.text
  }

  ghost predicate SameTuple(a: Row, b: Row, index: seq<string>) {
    forall c :: c in index ==> SameText(Field(a, c), Field(b, c))
  }

  ghost predicate Unique(rows: seq<Row>, index: seq<string>) {
    forall i, j :: 0 <= i < j < |rows| ==> !SameTuple(rows[i], rows[j], index)
  }

  /**
   The expander sees the value a column will have: it counts up, has no database default, or is no
   foreign key and is copied from rows the table started with.
   */
  ghost predicate Visible(t: Table, column: string, filled: bool) {
    && FindColumn(t.columns, column).Some?
    && var c := FindColumn(t.columns, column).value;
       c.autoIncrement || c.default.None? || (filled && column !in KeyColumns(t))
  }

  ghost predicate IndexVisible(t: Table, index: seq<string>, filled: bool) {
    forall column :: column in index ==> Visible(t, column, filled)
  }

  /**
   Every primary and unique index the expander can see; `filled` says that the table started with
   rows.  A table without a primary key has an empty list there.
   */
  ghost predicate IndexesUnique(t: Table, rows: seq<Row>, filled: bool) {
    forall index :: index in Tracked(t) && index != [] && IndexVisible(t, index, filled) ==> Unique(rows, index)
  }

  /** Every row holds every column, as a database returns them. */
  ghost predicate Complete(t: Table, rows: seq<Row>) {
    forall row :: row in rows ==> Names(t.columns) <= row.Keys
  }

  ghost predicate Refers(rows: seq<Row>, parents: seq<Row>, key: ForeignKey) {
    forall row :: row in rows && !Field(row, key.column).Null? ==>
      exists p :: p in parents && SameText(Field(row, key.column), Field(p, key.refColumn))
  }

  function RowsOf(db: map<string, seq<Row>>, table: string): seq<Row> {
    if table in db then db[table] else []
  }

  ghost predicate KeysValid(db: map<string, seq<Row>>, t: Table) {
    forall key :: key in t.foreignKeys ==> Refers(RowsOf(db, t.name), RowsOf(db, key.table), key)
  }

  /** `filled` names tables that have rows, with all their columns. */
  ghost predicate Sound(db: map<string, seq<Row>>, schema: seq<Table>, filled: set<string>) {
    forall t :: t in schema ==>
      && IndexesUnique(t, RowsOf(db, t.name), t.name in filled) && KeysValid(db, t)
      && (t.name in filled ==> RowsOf(db, t.name) != [] && Complete(t, RowsOf(db, t.name)))
  }

  // ----- What is asked of the schema and of the counter

  /** Column names are unique, as in every database. */
  ghost predicate ColumnsNamed(t: Table) {
    forall c, d :: c in t.columns && d in t.columns && c.name == d.name ==> c == d
  }

  /** There is one key for each key column, as in the map the keys are kept in. */
  ghost predicate KeysDistinct(keys: seq<ForeignKey>) {
    forall i, j :: 0 <= i < j < |keys| ==> keys[i].column != keys[j].column
  }

  /** Key columns exist, have no database default, do not count up, and belong to one key each. */
  ghost predicate SchemaOk(t: Table) {
    && (forall key :: key in t.foreignKeys ==>
          && FindColumn(t.columns, key.column).Some?
          && !FindColumn(t.columns, key.column).value.autoIncrement
          && FindColumn(t.columns, key.column).value.default.None?)
    && KeysDistinct(t.foreignKeys)
  }

  /** The auto-increment counter never repeats a stored value or itself. */
  ghost predicate CounterFresh(env: Env) {
    && (forall table, column, rows, k :: !env.counter(table, column, rows, k).Null?)
    && (forall table, column, rows, k, row :: row in rows ==>
        !SameText(Field(row, column), env.counter(table, column, rows, k)))
    && (forall table, column, rows, k, m :: k != m ==>
          !SameText(env.counter(table, column, rows, k), env.counter(table, column, rows, m)))
  }

  // ----- Unique keys against tuples

  lemma {:induction false} SameTupleSameKey(a: Row, b: Row, index: seq<string>)
    requires SameTuple(a, b, index)
    ensures SameKey(a, b, index)
  {
    assert forall c :: c in index ==> SameText(Field(a, c), Field(b, c));
    SameTupleSameJoined(a, b, index);
  }

  lemma {:induction false} SameTupleSameJoined(a: Row, b: Row, index: seq<string>)
    requires SameTuple(a, b, index)
    ensures forall c :: c in index ==> !Field(a, c).Null? && !Field(b, c).Null?
    ensures Joined(a, index) == Joined(b, index)
  {
    assert forall c :: c in index ==> SameText(Field(a, c), Field(b, c));
    if |index| > 1 {
      SameTupleSameJoined(a, b, index[..|index| - 1]);
      assert SameText(Field(a, index[|index| - 1]), Field(b, index[|index| - 1]));
    } else if |index| == 1 {
      assert SameText(Field(a, index[0]), Field(b, index[0]));
    }
  }

  lemma {:induction false} NoConflictOn(row: Row, rows: seq<Row>, index: seq<string>, i: nat)
    requires !ConflictOn(row, rows, index) && i < |rows|
    ensures !SameKey(row, rows[i], index)
  {
    if i < |rows| - 1 {
      NoConflictOn(row, rows[..|rows| - 1], index, i);
    }
  }

  lemma {:induction false} NoConflict(row: Row, rows: seq<Row>, indexes: seq<seq<string>>, n: nat, i: nat)
    requires !Conflict(row, rows, indexes) && n < |indexes| && i < |rows|
    ensures !SameKey(row, rows[i], indexes[n])
  {
    if n < |indexes| - 1 {
      NoConflict(row, rows, indexes[..|indexes| - 1], n, i);
    } else {
      NoConflictOn(row, rows, indexes[n], i);
    }
  }

  // ----- The rows one table gets

  function RowAt(existing: seq<Row>, rows: seq<Row>, i: nat): Row
    requires i < |existing| + |rows|
  {
    if i < |existing| then existing[i] else rows[i - |existing|]
  }

  lemma {:induction false} NewRowsApart(env: Env, t: Table, existing: seq<Row>, parents: map<string, seq<Row>>,
                                        last: nat, index: seq<string>, i: nat, j: nat)
    requires last >= |existing| && NewRows(env, t, existing, parents, last).Ok? && index in Tracked(t)
    requires i < j && |existing| <= j < last
    ensures |NewRows(env, t, existing, parents, last).value| == last - |existing|
    ensures var rows := NewRows(env, t, existing, parents, last).value;
            !SameKey(RowAt(existing, rows, j), RowAt(existing, rows, i), index)
    decreases last
  {
    NewRowsCount(env, t, existing, parents, last);
    var before := NewRows(env, t, existing, parents, last - 1).value;
    NewRowsCount(env, t, existing, parents, last - 1);
    if j < last - 1 {
      NewRowsApart(env, t, existing, parents, last - 1, index, i, j);
    } else {
      var n :| 0 <= n < |Tracked(t)| && Tracked(t)[n] == index;
      NoConflict(NewRow(env, t, existing, parents, before, last).value, existing + before, Tracked(t), n, i);
    }
  }

  lemma {:induction false} InsertableHas(columns: seq<Column>, c: Column)
    requires c in columns && !c.autoIncrement
    ensures c in Insertable(columns)
  {
    if c != columns[|columns| - 1] {
      assert c in columns[..|columns| - 1];
      InsertableHas(columns[..|columns| - 1], c);
    }
  }

  lemma {:induction false} ColumnNamesHas(columns: seq<Column>, rows: seq<Row>, c: Column, row: Row)
    requires c in columns && row in rows && c.name in row
    ensures c.name in ColumnNames(columns, rows)
  {
    if c != columns[|columns| - 1] {
      assert c in columns[..|columns| - 1];
      ColumnNamesHas(columns[..|columns| - 1], rows, c, row);
    }
  }

  /** A column that does not count up and is held, or has no default, is stored as the row has it. */
  lemma StoredAsHeld(env: Env, t: Table, existing: seq<Row>, rows: seq<Row>, row: Row, offset: nat, name: string)
    requires row in rows && FindColumn(t.columns, name).Some? && !FindColumn(t.columns, name).value.autoIncrement
    requires name in row || FindColumn(t.columns, name).value.default.None?
    ensures Field(StoredRow(env, t, existing, row, ColumnNames(Insertable(t.columns), rows), offset), name) ==
            Field(row, name)
  {
    var c := FindColumn(t.columns, name).value;
    InsertableHas(t.columns, c);
    if name in row {
      ColumnNamesHas(Insertable(t.columns), rows, c, row);
    }
  }

  lemma {:induction false} StoredRowsAt(env: Env, t: Table, existing: seq<Row>, rows: seq<Row>, listed: seq<string>,
                                        i: nat)
    requires i < |rows|
    ensures StoredRows(env, t, existing, rows, listed)[i] == StoredRow(env, t, existing, rows[i], listed, i)
  {
    if i < |rows| - 1 {
      StoredRowsAt(env, t, existing, rows[..|rows| - 1], listed, i);
    }
  }

  predicate Counts(t: Table, name: string) {
    var c := FindColumn(t.columns, name); c.Some? && c.value.autoIncrement
  }

  lemma CountedField(env: Env, t: Table, existing: seq<Row>, rows: seq<Row>, listed: seq<string>, c: string, k: nat)
    requires Counts(t, c) && k < |rows|
    ensures Field(StoredRows(env, t, existing, rows, listed)[k], c) == env.counter(t.name, c, existing, k)
  {
    StoredRowsAt(env, t, existing, rows, listed, k);
  }

  lemma CountedApart(env: Env, t: Table, existing: seq<Row>, rows: seq<Row>, listed: seq<string>, c: string, i: nat,
                     j: nat)
    requires CounterFresh(env) && Counts(t, c) && i < j && |existing| <= j < |existing| + |rows|
    ensures var stored := StoredRows(env, t, existing, rows, listed);
            !SameText(Field(RowAt(existing, stored, i), c), Field(RowAt(existing, stored, j), c))
  {
    var n := |existing|;
    CountedField(env, t, existing, rows, listed, c, j - n);
    if i < n {
      assert existing[i] in existing;
    } else {
      CountedField(env, t, existing, rows, listed, c, i - n);
    }
  }

  lemma StoredFieldAt(env: Env, t: Table, existing: seq<Row>, rows: seq<Row>, listed: seq<string>, c: string, k: nat)
    requires FindColumn(t.columns, c).Some? && !Counts(t, c) && k < |rows|
             && listed == ColumnNames(Insertable(t.columns), rows)
    requires FindColumn(t.columns, c).value.default.None? || c in rows[k]
    ensures Field(StoredRows(env, t, existing, rows, listed)[k], c) == Field(rows[k], c)
  {
    StoredRowsAt(env, t, existing, rows, listed, k);
    StoredAsHeld(env, t, existing, rows, rows[k], k, c);
  }

  lemma HeldAlike(env: Env, t: Table, existing: seq<Row>, rows: seq<Row>, c: string, i: nat)
    requires FindColumn(t.columns, c).Some? && !Counts(t, c) && i < |existing| + |rows|
    requires FindColumn(t.columns, c).value.default.None? || forall row :: row in rows ==> c in row
    ensures var stored := StoredRows(env, t, existing, rows, ColumnNames(Insertable(t.columns), rows));
            Field(RowAt(existing, stored, i), c) == Field(RowAt(existing, rows, i), c)
  {
    if i >= |existing| {
      assert rows[i - |existing|] in rows;
      StoredFieldAt(env, t, existing, rows, ColumnNames(Insertable(t.columns), rows), c, i - |existing|);
    }
  }

  /** New rows of a table that started with rows hold every column they are to give a value. */
  ghost predicate Holds(t: Table, rows: seq<Row>) {
    forall row, c :: row in rows && FindColumn(t.columns, c).Some? && !Counts(t, c) && c !in KeyColumns(t) ==> c in row
  }

  lemma {:induction false} StoredPairApart(env: Env, t: Table, existing: seq<Row>, rows: seq<Row>, index: seq<string>,
                                           filled: bool, i: nat, j: nat)
    requires CounterFresh(env) && IndexVisible(t, index, filled) && (filled ==> Holds(t, rows))
    requires i < j && |existing| <= j < |existing| + |rows|
    requires !SameKey(RowAt(existing, rows, j), RowAt(existing, rows, i), index)
    ensures var stored := StoredRows(env, t, existing, rows, ColumnNames(Insertable(t.columns), rows));
            !SameTuple(RowAt(existing, stored, i), RowAt(existing, stored, j), index)
  {
    var listed := ColumnNames(Insertable(t.columns), rows);
    var stored := StoredRows(env, t, existing, rows, listed);
    if SameTuple(RowAt(existing, stored, i), RowAt(existing, stored, j), index) {
      forall c | c in index ensures SameText(Field(RowAt(existing, rows, j), c), Field(RowAt(existing, rows, i), c)) {
        assert Visible(t, c, filled);
        assert SameText(Field(RowAt(existing, stored, i), c), Field(RowAt(existing, stored, j), c));
        if Counts(t, c) {
          CountedApart(env, t, existing, rows, listed, c, i, j);
        } else {
          HeldAlike(env, t, existing, rows, c, i);
          HeldAlike(env, t, existing, rows, c, j);
        }
      }
      SameTupleSameKey(RowAt(existing, rows, j), RowAt(existing, rows, i), index);
    }
  }

  // ----- Columns copied from the rows a table started with

  lemma {:induction false} BaseHolds(env: Env, t: Table, columns: seq<Column>, source: Row, variant: int, c: Column)
    requires c in columns && c.name !in KeyColumns(t) && c.name in source
    ensures c.name in BaseRow(env, t, columns, source, variant)
  {
    var front := columns[..|columns| - 1];
    if c != columns[|columns| - 1] {
      assert c in front;
      BaseHolds(env, t, front, source, variant, c);
    }
  }

  lemma {:induction false} ApplyKeysGrows(t: Table, keys: seq<ForeignKey>, row: Row, parents: map<string, seq<Row>>,
                                          variant: nat)
    requires variant > 0 && ApplyKeys(t, keys, row, parents, variant).Some?
    ensures row.Keys <= ApplyKeys(t, keys, row, parents, variant).value.Keys
  {
    if keys != [] {
      ApplyKeysGrows(t, keys[..|keys| - 1], row, parents, variant);
    }
  }

  lemma {:induction false} VaryIndexGrows(env: Env, t: Table, row: Row, index: seq<string>, variant: int)
    ensures row.Keys <= VaryIndex(env, t, row, index, variant).Keys
  {
    if index != [] {
      VaryIndexGrows(env, t, row, index[..|index| - 1], variant);
    }
  }

  lemma {:induction false} VaryGrows(env: Env, t: Table, row: Row, indexes: seq<seq<string>>, variant: int)
    ensures row.Keys <= Vary(env, t, row, indexes, variant).Keys
  {
    if indexes != [] {
      var before := Vary(env, t, row, indexes[..|indexes| - 1], variant);
      VaryGrows(env, t, row, indexes[..|indexes| - 1], variant);
      VaryIndexGrows(env, t, before, indexes[|indexes| - 1], variant);
    }
  }

  lemma {:induction false} ResolveGrows(env: Env, t: Table, row: Row, rows: seq<Row>, variant: int, attempt: nat)
    requires attempt <= MAX_ATTEMPTS
    ensures row.Keys <= Resolve(env, t, row, rows, variant, attempt).Keys
    decreases MAX_ATTEMPTS - attempt
  {
    if attempt < MAX_ATTEMPTS && Conflict(row, rows, Tracked(t)) {
      VaryGrows(env, t, row, Tracked(t), variant + attempt + 1);
      ResolveGrows(env, t, Vary(env, t, row, Tracked(t), variant + attempt + 1), rows, variant, attempt + 1);
    }
  }

  lemma NewRowHolds(env: Env, t: Table, existing: seq<Row>, parents: map<string, seq<Row>>, rows: seq<Row>,
                    variant: nat, c: string)
    requires variant > 0 && existing != [] && Complete(t, existing)
    requires FindColumn(t.columns, c).Some? && !Counts(t, c) && c !in KeyColumns(t)
    requires NewRow(env, t, existing, parents, rows, variant).Ok?
    ensures c in NewRow(env, t, existing, parents, rows, variant).value
  {
    var column, source := FindColumn(t.columns, c).value, SourceRow(existing, variant);
    assert source in existing && column.name in Names(t.columns);
    var base := BaseRow(env, t, Insertable(t.columns), source, variant);
    InsertableHas(t.columns, column);
    BaseHolds(env, t, Insertable(t.columns), source, variant, column);
    ApplyKeysGrows(t, t.foreignKeys, base, parents, variant);
    ResolveGrows(env, t, ApplyKeys(t, t.foreignKeys, base, parents, variant).value, existing + rows, variant, 0);
  }

  lemma {:induction false} NewRowsHold(env: Env, t: Table, existing: seq<Row>, parents: map<string, seq<Row>>,
                                       last: nat)
    requires last >= |existing| && existing != [] && Complete(t, existing)
    requires NewRows(env, t, existing, parents, last).Ok?
    ensures Holds(t, NewRows(env, t, existing, parents, last).value)
    decreases last
  {
    if last > |existing| {
      NewRowsHold(env, t, existing, parents, last - 1);
      var before := NewRows(env, t, existing, parents, last - 1).value;
      forall c | FindColumn(t.columns, c).Some? && !Counts(t, c) && c !in KeyColumns(t)
        ensures c in NewRow(env, t, existing, parents, before, last).value
      {
        NewRowHolds(env, t, existing, parents, before, last, c);
      }
    }
  }

  lemma StoredComplete(env: Env, t: Table, existing: seq<Row>, rows: seq<Row>, listed: seq<string>)
    ensures Complete(t, StoredRows(env, t, existing, rows, listed))
  {
    var stored := StoredRows(env, t, existing, rows, listed);
    forall row | row in stored ensures Names(t.columns) <= row.Keys {
      var i :| 0 <= i < |stored| && stored[i] == row;
      StoredRowsAt(env, t, existing, rows, listed, i);
    }
  }

  lemma {:induction false} TableStaysUnique(env: Env, t: Table, existing: seq<Row>, parents: map<string, seq<Row>>,
                                            filled: bool)
    requires CounterFresh(env) && IndexesUnique(t, existing, filled)
             && (filled ==> existing != [] && Complete(t, existing))
    requires |existing| <= Target(env, t) && NewRows(env, t, existing, parents, Target(env, t)).Ok?
    ensures var rows := NewRows(env, t, existing, parents, Target(env, t)).value;
            IndexesUnique(t, existing + StoredRows(env, t, existing, rows, ColumnNames(Insertable(t.columns), rows)),
                          filled)
  {
    var rows := NewRows(env, t, existing, parents, Target(env, t)).value;
    var stored := StoredRows(env, t, existing, rows, ColumnNames(Insertable(t.columns), rows));
    var all := existing + stored;
    NewRowsCount(env, t, existing, parents, Target(env, t));
    if filled {
      NewRowsHold(env, t, existing, parents, Target(env, t));
    }
    forall index, i, j | index in Tracked(t) && index != [] && IndexVisible(t, index, filled) && 0 <= i < j < |all|
      ensures !SameTuple(all[i], all[j], index)
    {
      if j >= |existing| {
        NewRowsApart(env, t, existing, parents, Target(env, t), index, i, j);
        StoredPairApart(env, t, existing, rows, index, filled, i, j);
        assert all[i] == RowAt(existing, stored, i) && all[j] == RowAt(existing, stored, j);
      } else {
        assert Unique(existing, index);
      }
    }
  }

  // ----- The index columns the expander does not see

  /** A table whose unique column has a database default. */
  function DefaultedTable(name: string, default: string): Table {
    Table(name,
          [Column("id", false, None, true), Column("scope", false, Some(default), false),
           Column("value", false, None, false)],
          ["id"], [["scope"]], [])
  }

  lemma {:induction false} NoKeyNoConflict(row: Row, rows: seq<Row>, indexes: seq<seq<string>>)
    requires forall index :: index in indexes ==> UniqueKey(row, index).None?
    ensures !Conflict(row, rows, indexes)
  {
    if indexes != [] {
      NoKeyNoConflict(row, rows, indexes[..|indexes| - 1]);
      NoKeyNoConflictOn(row, rows, indexes[|indexes| - 1]);
    }
  }

  lemma {:induction false} NoKeyNoConflictOn(row: Row, rows: seq<Row>, index: seq<string>)
    requires UniqueKey(row, index).None?
    ensures !ConflictOn(row, rows, index)
  {
    if rows != [] {
      NoKeyNoConflictOn(row, rows[..|rows| - 1], index);
    }
  }

  lemma {:induction false} ColumnNamesOnly(columns: seq<Column>, rows: seq<Row>, name: string)
    requires name in ColumnNames(columns, rows)
    ensures exists row :: row in rows && name in row
  {
    if name in ColumnNames(columns[..|columns| - 1], rows) {
      ColumnNamesOnly(columns[..|columns| - 1], rows, name);
    }
  }

  lemma InsertableMore(columns: seq<Column>, c: Column)
    ensures Insertable(columns + [c]) == Insertable(columns) + if c.autoIncrement then [] else [c]
  {
    assert (columns + [c])[..|columns|] == columns;
  }

  lemma BaseRowMore(env: Env, t: Table, columns: seq<Column>, c: Column, source: Row, variant: int)
    ensures BaseRow(env, t, columns + [c], source, variant) ==
            AddColumn(env, t, BaseRow(env, t, columns, source, variant), c, source, variant)
  {
    assert (columns + [c])[..|columns|] == columns;
  }

  lemma DefaultedColumns(t: Table, name: string, default: string)
    requires t == DefaultedTable(name, default)
    ensures Insertable(t.columns) == [] + [t.columns[1]] + [t.columns[2]]
  {
    InsertableMore([], t.columns[0]);
    InsertableMore([t.columns[0]], t.columns[1]);
    InsertableMore([t.columns[0], t.columns[1]], t.columns[2]);
    assert [] + [t.columns[0]] == [t.columns[0]];
    assert [t.columns[0]] + [t.columns[1]] == [t.columns[0], t.columns[1]];
    assert [t.columns[0], t.columns[1]] + [t.columns[2]] == t.columns;
  }

  lemma AddFromNothing(env: Env, t: Table, row: Row, c: Column, variant: int)
    requires t.foreignKeys == []
    ensures AddColumn(env, t, row, c, map[], variant) ==
            if c.default.Some? || c.nullable then row else row[c.name := env.scalar(t.name, c, None, variant)]
  {
  }

  lemma BaseOfTwo(env: Env, t: Table, a: Column, b: Column, variant: int)
    requires t.foreignKeys == [] && a.default.Some? && b.default.None? && !b.nullable
    ensures BaseRow(env, t, [] + [a] + [b], map[], variant) == map[b.name := env.scalar(t.name, b, None, variant)]
  {
    BaseRowMore(env, t, [], a, map[], variant);
    BaseRowMore(env, t, [] + [a], b, map[], variant);
    AddFromNothing(env, t, map[], a, variant);
    AddFromNothing(env, t, map[], b, variant);
  }

  lemma DefaultedBase(env: Env, t: Table, name: string, default: string, columns: seq<Column>, variant: int)
    requires t == DefaultedTable(name, default) && columns == Insertable(t.columns)
    ensures BaseRow(env, t, columns, map[], variant).Keys == {"value"}
  {
    DefaultedColumns(t, name, default);
    BaseOfTwo(env, t, t.columns[1], t.columns[2], variant);
  }

  lemma {:induction false} DefaultedRows(env: Env, t: Table, name: string, default: string,
                                         parents: map<string, seq<Row>>, last: nat)
    requires t == DefaultedTable(name, default)
    ensures var r := NewRows(env, t, [], parents, last);
            r.Ok? && |r.value| == last && forall row :: row in r.value ==> row.Keys == {"value"}
    decreases last
  {
    if last > 0 {
      DefaultedRows(env, t, name, default, parents, last - 1);
      DefaultedBase(env, t, name, default, Insertable(t.columns), last);
      var row := BaseRow(env, t, Insertable(t.columns), map[], last);
      var before := NewRows(env, t, [], parents, last - 1).value;
      assert "id" in t.primaryKeys && "scope" in t.uniqueIndexes[0];
      NoKeyNoConflict(row, [] + before, Tracked(t));
      assert NewRow(env, t, [], parents, before, last) == Ok(row);
    }
  }

  lemma DefaultStored(env: Env, t: Table, name: string, default: string, rows: seq<Row>, listed: seq<string>, i: nat)
    requires t == DefaultedTable(name, default) && i < |rows| && "scope" !in listed
    ensures Field(StoredRows(env, t, [], rows, listed)[i], "scope") == Text(default)
  {
    StoredRowsAt(env, t, [], rows, listed, i);
    assert t.columns[1] in t.columns && t.columns[1].name == "scope";
    assert t.columns[0].name != "scope" && t.columns[1..][0] == t.columns[1];
    assert FindColumn(t.columns, "scope") == FindColumn(t.columns[1..], "scope") == Some(t.columns[1]);
  }

  lemma DefaultedPlan(env: Env, t: Table, name: string, default: string, parents: map<string, seq<Row>>)
    requires t == DefaultedTable(name, default) && env.target(name) > 0
    ensures var plan := Plan(env, t, [], parents);
            && plan.Ok? && |plan.value| == env.target(name)
            && "scope" !in ColumnNames(Insertable(t.columns), plan.value)
  {
    DefaultedRows(env, t, name, default, parents, env.target(name));
    var rows := NewRows(env, t, [], parents, env.target(name)).value;
    var value := t.columns[2];
    assert value in t.columns && rows[0] in rows;
    InsertableHas(t.columns, value);
    ColumnNamesHas(Insertable(t.columns), rows, value, rows[0]);
    if "scope" in ColumnNames(Insertable(t.columns), rows) {
      ColumnNamesOnly(Insertable(t.columns), rows, "scope");
    }
  }

  /**
   An empty table is planned without a look at the defaults of its index columns, so the insert
   can repeat a key: all rows of this one get the default.
   */
  lemma DefaultedIndexRepeats(env: Env, name: string, default: string, parents: map<string, seq<Row>>)
    requires env.target(name) >= 2
    ensures var t := DefaultedTable(name, default);
            var plan := Plan(env, t, [], parents);
            plan.Ok? && !Unique(StoredRows(env, t, [], plan.value, ColumnNames(Insertable(t.columns), plan.value)),
                                ["scope"])
  {
    var t := DefaultedTable(name, default);
    DefaultedPlan(env, t, name, default, parents);
    var rows := Plan(env, t, [], parents).value;
    var listed := ColumnNames(Insertable(t.columns), rows);
    DefaultStored(env, t, name, default, rows, listed, 0);
    DefaultStored(env, t, name, default, rows, listed, 1);
    var stored := StoredRows(env, t, [], rows, listed);
    assert SameTuple(stored[0], stored[1], ["scope"]);
  }

  // ----- Where key columns get their values

  lemma {:induction false} BaseHoldsNoKey(env: Env, t: Table, columns: seq<Column>, source: Row, variant: int,
                                          c: string)
    requires c in KeyColumns(t)
    ensures c !in BaseRow(env, t, columns, source, variant)
  {
    if columns != [] {
      BaseHoldsNoKey(env, t, columns[..|columns| - 1], source, variant, c);
    }
  }

  ghost predicate FromParent(row: Row, parents: map<string, seq<Row>>, key: ForeignKey) {
    || Field(row, key.column).Null?
    || (key.table in parents
        && exists p :: p in parents[key.table] && Field(p, key.refColumn) == Field(row, key.column))
  }

  lemma {:induction false} ApplyKeysOrigin(t: Table, count: nat, row: Row, parents: map<string, seq<Row>>,
                                           variant: nat, key: ForeignKey)
    requires variant > 0 && count <= |t.foreignKeys| && SchemaOk(t)
    requires forall k :: k in t.foreignKeys ==> k.column !in row
    requires key in t.foreignKeys && ApplyKeys(t, t.foreignKeys[..count], row, parents, variant).Some?
    ensures FromParent(ApplyKeys(t, t.foreignKeys[..count], row, parents, variant).value, parents, key)
  {
    if count > 0 {
      var last := t.foreignKeys[count - 1];
      assert t.foreignKeys[..count][..count - 1] == t.foreignKeys[..count - 1];
      ApplyKeysOrigin(t, count - 1, row, parents, variant, key);
      if HasRows(parents, last.table) {
        var source := parents[last.table];
        var p := source[(variant - 1) % |source|];
        assert p in parents[last.table];
        if key.column == last.column {
          SameColumnSameKey(t, key, last);
        }
      }
    }
  }

  lemma SameColumnSameKey(t: Table, a: ForeignKey, b: ForeignKey)
    requires SchemaOk(t) && a in t.foreignKeys && b in t.foreignKeys && a.column == b.column
    ensures a == b
  {
    var i :| 0 <= i < |t.foreignKeys| && t.foreignKeys[i] == a;
    var j :| 0 <= j < |t.foreignKeys| && t.foreignKeys[j] == b;
    assert !(i < j) && !(j < i);
  }

  lemma {:induction false} VaryIndexKeepsKey(env: Env, t: Table, row: Row, index: seq<string>, variant: int, c: string)
    requires c in KeyColumns(t)
    ensures Held(VaryIndex(env, t, row, index, variant), c) == Held(row, c)
  {
    if index != [] {
      VaryIndexKeepsKey(env, t, row, index[..|index| - 1], variant, c);
    }
  }

  lemma {:induction false} VaryKeepsKey(env: Env, t: Table, row: Row, indexes: seq<seq<string>>, variant: int,
                                        c: string)
    requires c in KeyColumns(t)
    ensures Held(Vary(env, t, row, indexes, variant), c) == Held(row, c)
  {
    if indexes != [] {
      VaryKeepsKey(env, t, row, indexes[..|indexes| - 1], variant, c);
      VaryIndexKeepsKey(env, t, Vary(env, t, row, indexes[..|indexes| - 1], variant), indexes[|indexes| - 1], variant,
                        c);
    }
  }

  lemma {:induction false} ResolveKeepsKey(env: Env, t: Table, row: Row, rows: seq<Row>, variant: int, attempt: nat,
                                           c: string)
    requires attempt <= MAX_ATTEMPTS && c in KeyColumns(t)
    ensures Held(Resolve(env, t, row, rows, variant, attempt), c) == Held(row, c)
    decreases MAX_ATTEMPTS - attempt
  {
    if attempt < MAX_ATTEMPTS && Conflict(row, rows, Tracked(t)) {
      VaryKeepsKey(env, t, row, Tracked(t), variant + attempt + 1, c);
      ResolveKeepsKey(env, t, Vary(env, t, row, Tracked(t), variant + attempt + 1), rows, variant, attempt + 1, c);
    }
  }

  lemma NewRowOrigin(env: Env, t: Table, existing: seq<Row>, parents: map<string, seq<Row>>, rows: seq<Row>,
                     variant: nat, key: ForeignKey)
    requires variant > 0 && SchemaOk(t) && key in t.foreignKeys && NewRow(env, t, existing, parents, rows, variant).Ok?
    ensures FromParent(NewRow(env, t, existing, parents, rows, variant).value, parents, key)
  {
    var base := BaseRow(env, t, Insertable(t.columns), SourceRow(existing, variant), variant);
    forall k | k in t.foreignKeys ensures k.column !in base {
      BaseHoldsNoKey(env, t, Insertable(t.columns), SourceRow(existing, variant), variant, k.column);
    }
    assert t.foreignKeys[..|t.foreignKeys|] == t.foreignKeys;
    ApplyKeysOrigin(t, |t.foreignKeys|, base, parents, variant, key);
    ResolveKeepsKey(env, t, ApplyKeys(t, t.foreignKeys, base, parents, variant).value, existing + rows, variant, 0,
                    key.column);
  }

  lemma {:induction false} NewRowsOrigin(env: Env, t: Table, existing: seq<Row>, parents: map<string, seq<Row>>,
                                         last: nat, key: ForeignKey, row: Row)
    requires last >= |existing| && SchemaOk(t) && key in t.foreignKeys && NewRows(env, t, existing, parents, last).Ok?
    requires row in NewRows(env, t, existing, parents, last).value
    ensures FromParent(row, parents, key)
    decreases last
  {
    var before := NewRows(env, t, existing, parents, last - 1).value;
    if row in before {
      NewRowsOrigin(env, t, existing, parents, last - 1, key, row);
    } else {
      NewRowOrigin(env, t, existing, parents, before, last, key);
    }
  }

  /** Stored rows of the table point at rows the expander saw. */
  lemma {:induction false} StoredRowsRefer(env: Env, t: Table, existing: seq<Row>, parents: map<string, seq<Row>>,
                                           key: ForeignKey)
    requires |existing| <= Target(env, t) && SchemaOk(t) && key in t.foreignKeys
    requires NewRows(env, t, existing, parents, Target(env, t)).Ok?
    ensures var rows := NewRows(env, t, existing, parents, Target(env, t)).value;
            Refers(StoredRows(env, t, existing, rows, ColumnNames(Insertable(t.columns), rows)),
                   RowsOf(parents, key.table), key)
  {
    var rows := NewRows(env, t, existing, parents, Target(env, t)).value;
    var listed := ColumnNames(Insertable(t.columns), rows);
    var stored := StoredRows(env, t, existing, rows, listed);
    forall row | row in stored && !Field(row, key.column).Null?
      ensures exists p :: p in RowsOf(parents, key.table) && SameText(Field(row, key.column), Field(p, key.refColumn))
    {
      var i :| 0 <= i < |stored| && stored[i] == row;
      StoredRowsAt(env, t, existing, rows, listed, i);
      StoredAsHeld(env, t, existing, rows, rows[i], i, key.column);
      NewRowsOrigin(env, t, existing, parents, Target(env, t), key, rows[i]);
    }
  }

  // ----- The whole run

  lemma RefersMore(rows: seq<Row>, more: seq<Row>, parents: seq<Row>, moreParents: seq<Row>, key: ForeignKey)
    requires Refers(rows, parents, key) && Refers(more, parents, key)
    ensures Refers(rows + more, parents + moreParents, key)
  {
    forall row | row in rows + more && !Field(row, key.column).Null?
      ensures exists p :: p in parents + moreParents && SameText(Field(row, key.column), Field(p, key.refColumn))
    {
      assert row in rows || row in more;
      var p :| p in parents && SameText(Field(row, key.column), Field(p, key.refColumn));
      assert p in parents + moreParents;
    }
  }

  /** Adding rows to one table, with their keys pointing into the tables as they were. */
  lemma GrowSound(db: map<string, seq<Row>>, schema: seq<Table>, filled: set<string>, t: Table, added: seq<Row>)
    requires Sound(db, schema, filled) && UniqueNames(schema) && t in schema && t.name in db
    requires IndexesUnique(t, db[t.name] + added, t.name in filled) && Complete(t, added)
    requires forall key :: key in t.foreignKeys ==> Refers(added, RowsOf(db, key.table), key)
    ensures Sound(db[t.name := db[t.name] + added], schema, filled)
  {
    var after := db[t.name := db[t.name] + added];
    forall u | u in schema ensures IndexesUnique(u, RowsOf(after, u.name), u.name in filled) && KeysValid(after, u) {
      forall key | key in u.foreignKeys ensures Refers(RowsOf(after, u.name), RowsOf(after, key.table), key) {
        var grown := if key.table == t.name then added else [];
        var mine := if u.name == t.name then added else [];
        assert KeysValid(db, u);
        RefersMore(RowsOf(db, u.name), mine, RowsOf(db, key.table), grown, key);
        assert RowsOf(after, u.name) == RowsOf(db, u.name) + mine;
        assert RowsOf(after, key.table) == RowsOf(db, key.table) + grown;
      }
    }
  }

  lemma {:induction false} ExpandSound(env: Env, s: State, t: Table, names: set<string>, schema: seq<Table>,
                                       filled: set<string>)
    requires Synced(s, names) && t.name in names && t in schema && SchemaOk(t) && CounterFresh(env)
    requires Sound(s.db, schema, filled) && UniqueNames(schema)
    ensures Sound(Expand(env, s, t).0.db, schema, filled)
  {
    var existing := s.db[t.name];
    if Plan(env, t, existing, s.parents).Ok? {
      var rows := NewRows(env, t, existing, s.parents, Target(env, t)).value;
      var stored := StoredRows(env, t, existing, rows, ColumnNames(Insertable(t.columns), rows));
      assert IndexesUnique(t, RowsOf(s.db, t.name), t.name in filled);
      TableStaysUnique(env, t, existing, s.parents, t.name in filled);
      StoredComplete(env, t, existing, rows, ColumnNames(Insertable(t.columns), rows));
      forall key | key in t.foreignKeys ensures Refers(stored, RowsOf(s.db, key.table), key) {
        StoredRowsRefer(env, t, existing, s.parents, key);
      }
      GrowSound(s.db, schema, filled, t, stored);
    }
  }

  /** The expanded tables belong to the schema, which names each table once. */
  ghost predicate SchemaReady(env: Env, tables: seq<Table>, schema: seq<Table>) {
    && UniqueNames(schema) && CounterFresh(env)
    && forall t :: t in tables ==> t in schema && SchemaOk(t)
  }

  lemma {:induction false} VisitsSound(env: Env, s: State, visits: seq<Table>, names: set<string>, schema: seq<Table>,
                                       filled: set<string>)
    requires Synced(s, names) && (forall t :: t in visits ==> t.name in names)
    requires SchemaReady(env, visits, schema) && Sound(s.db, schema, filled)
    ensures Sound(ExpandAll(env, s, visits).db, schema, filled)
  {
    if visits != [] {
      var front, last := visits[..|visits| - 1], visits[|visits| - 1];
      VisitsSound(env, s, front, names, schema, filled);
      VisitsSynced(env, s, front, names);
      ExpandSound(env, ExpandAll(env, s, front), last, names, schema, filled);
    }
  }

  /**
   From a database whose visible indexes are free of duplicates and whose keys point at rows, the
   expansion ends in such a database, for every value generator.
   */
  lemma SeedingKeepsIntegrity(env: Env, db: map<string, seq<Row>>, tables: seq<Table>, schema: seq<Table>,
                              filled: set<string>)
    requires (forall t :: t in tables ==> t.name in db) && SchemaReady(env, tables, schema) && Sound(db, schema, filled)
    ensures Sound(SeedCoverage(env, db, tables).db, schema, filled)
  {
    var visits := SeedCoverageVisits(env, db, tables);
    VisitsSound(env, Load(db, tables), visits, TableNames(tables), schema, filled);
  }
}
