/**
 Which tables a run fills, told before it starts.

 The values that the referenced columns of new rows will have are not known beforehand, but only
 their differences matter.  So stand-in rows take the place of the rows still to be inserted, and
 the visits are gone through without a database.
 */
module SeedForecast {
  import opened Wrappers
  import opened SeedExpansion
  import opened SeedFixpoint
  import opened SeedIntegrity
  import opened SeedConflicts
  import opened SeedTwins

  // ----- Stand-in rows

  function Hashes(n: nat): (text: string)
    ensures |text| == n && forall i :: 0 <= i < n ==> text[i] == '#'
  {
    seq(n, _ => '#')
  }

  function MaxLength(rows: seq<Row>, column: string): (n: nat)
    ensures forall row :: row in rows && Field(row, column) != Null ==> |Field(row, column).text| <= n
  {
    if rows == [] then 0
    else
      var rest, last := MaxLength(rows[..|rows| - 1], column), Field(rows[|rows| - 1], column);
      if last != Null && |last.text| > rest then |last.text| else rest
  }

  /** A row for a place behind the given ones, whose texts are longer than theirs. */
  function StandIn(t: Table, rows: seq<Row>, i: nat): Row {
    map name | name in Names(t.columns) :: Text(Hashes(MaxLength(rows, name) + 1 + i))
  }

  function StandIns(t: Table, rows: seq<Row>, count: nat): (standIns: seq<Row>)
    ensures |standIns| == count && forall i :: 0 <= i < count ==> standIns[i] == StandIn(t, rows, i)
  {
    seq(count, i requires i >= 0 => StandIn(t, rows, i))
  }

  /** The rows with stand-ins up to the target. */
  function Grown(env: Env, t: Table, rows: seq<Row>): (grown: seq<Row>)
    ensures rows <= grown && (|rows| <= Target(env, t) ==> |grown| == Target(env, t))
    ensures forall j :: |rows| <= j < |grown| ==> grown[j] == StandIn(t, rows, j - |rows|)
  {
    rows + StandIns(t, rows, if |rows| < Target(env, t) then Target(env, t) - |rows| else 0)
  }

  ghost predicate Ready(db: map<string, seq<Row>>, tables: seq<Table>) {
    UniqueNames(tables) && forall t :: t in tables ==> t.name in db
  }

  /** The listed tables, those filled already with stand-ins. */
  function Expected(env: Env, db: map<string, seq<Row>>, tables: seq<Table>, filled: set<string>): map<string, seq<Row>>
    requires Ready(db, tables)
  {
    map t | t in tables :: t.name := if t.name in filled then Grown(env, t, db[t.name]) else db[t.name]
  }

  // ----- Going through the visits

  /** The tables filled by these visits, as far as the starting rows tell. */
  function Forecast(env: Env, db: map<string, seq<Row>>, tables: seq<Table>, visits: seq<Table>): (filled: set<string>)
    requires Ready(db, tables) && forall t :: t in visits ==> t in tables
  {
    if visits == [] then {}
    else
      var before, t := Forecast(env, db, tables, visits[..|visits| - 1]), visits[|visits| - 1];
      if t.name in before || Plan(env, t, db[t.name], Expected(env, db, tables, before)).Err? then before
      else before + {t.name}
  }

  // ----- What is asked of the starting point

  /** New rows have a value in this column. */
  ghost predicate GivesValue(env: Env, t: Table, name: string) {
    || Counts(t, name)
    || (FindColumn(t.columns, name).Some? && MustFill(t, FindColumn(t.columns, name).value)
        && (forall source, variant :: env.scalar(t.name, FindColumn(t.columns, name).value, source, variant) != Null)
        && forall variant :: env.stamp(variant) != Null)
  }

  /** The column tells the rows of the table apart, old and new. */
  ghost predicate Identifies(env: Env, t: Table, name: string, filled: bool) {
    [name] in Tracked(t) && IndexVisible(t, [name], filled) && GivesValue(env, t, name)
  }

  /** Keys of tables to be filled, into tables to be filled, refer to identifying columns. */
  ghost predicate KeysIdentify(env: Env, db: map<string, seq<Row>>, tables: seq<Table>, full: set<string>)
    requires forall t :: t in tables ==> t.name in db
  {
    forall t, p, key ::
      t in tables && p in tables && StartsShort(env, db, t) && StartsShort(env, db, p)
      && key in t.foreignKeys && key.table == p.name ==>
        Identifies(env, p, key.refColumn, p.name in full)
  }

  /** The tables to be filled are given texts without the separator. */
  ghost predicate CleanStart(env: Env, db: map<string, seq<Row>>, tables: seq<Table>)
    requires forall t :: t in tables ==> t.name in db
  {
    CleanDb(db) && forall t :: t in tables && StartsShort(env, db, t) ==> CleanGenerator(env, t) && CleanTable(env, t)
  }

  ghost predicate Start(env: Env, db: map<string, seq<Row>>, tables: seq<Table>, schema: seq<Table>,
                        full: set<string>)
  {
    && Ready(db, tables) && SchemaReady(env, tables, schema) && Sound(db, schema, full)
    && CleanStart(env, db, tables) && KeysIdentify(env, db, tables, full)
    && forall t :: t in tables ==> ColumnsNamed(t)
  }

  // ----- The run against the forecast

  /** The listed tables are as forecast: filled behind their old rows, or untouched. */
  ghost predicate Tracks(env: Env, db: map<string, seq<Row>>, tables: seq<Table>, filled: set<string>, s: State)
    requires Ready(db, tables)
  {
    && Synced(s, TableNames(tables))
    && forall t :: t in tables ==> Tracked1(env, db, t, filled, s)
  }

  ghost predicate Tracked1(env: Env, db: map<string, seq<Row>>, t: Table, filled: set<string>, s: State)
    requires t.name in db
  {
    && t.name in s.db
    && if t.name in filled then
         && StartsShort(env, db, t) && |s.db[t.name]| == Target(env, t) && db[t.name] <= s.db[t.name]
         && forall name :: GivesValue(env, t, name) ==> HasValues(s.db[t.name], |db[t.name]|, name)
       else s.db[t.name] == db[t.name]
  }

  ghost predicate HasValues(rows: seq<Row>, first: nat, name: string) {
    forall i :: first <= i < |rows| ==> Field(rows[i], name) != Null
  }

  // ----- Stand-ins match the rows to come

  lemma StandInField(t: Table, rows: seq<Row>, i: nat, name: string)
    requires name in Names(t.columns)
    ensures Field(StandIn(t, rows, i), name) == Text(Hashes(MaxLength(rows, name) + 1 + i))
  {
  }

  /** Stand-ins differ from each other and from the rows before them. */
  lemma GrownApart(env: Env, t: Table, rows: seq<Row>, name: string, i: nat, j: nat)
    requires name in Names(t.columns) && i < |Grown(env, t, rows)| && |rows| <= j < |Grown(env, t, rows)|
    ensures Field(Grown(env, t, rows)[j], name) != Null
    ensures SameText(Field(Grown(env, t, rows)[i], name), Field(Grown(env, t, rows)[j], name)) <==> i == j
  {
    var grown := Grown(env, t, rows);
    assert grown[j] == StandIn(t, rows, j - |rows|);
    StandInField(t, rows, j - |rows|, name);
    if i < |rows| {
      assert grown[i] == rows[i] && rows[i] in rows;
    } else {
      assert grown[i] == StandIn(t, rows, i - |rows|);
      StandInField(t, rows, i - |rows|, name);
    }
  }

  lemma StandInDiffers(env: Env, t: Table, rows: seq<Row>, name: string, value: Value, j: nat)
    requires name in Names(t.columns) && |rows| <= j < |Grown(env, t, rows)|
    requires value != Null ==> exists row :: row in rows && SameText(value, Field(row, name))
    ensures !SameText(value, Field(Grown(env, t, rows)[j], name))
  {
    var grown := Grown(env, t, rows);
    assert grown[j] == StandIn(t, rows, j - |rows|);
    StandInField(t, rows, j - |rows|, name);
  }

  /** Two ways to fill a table: both keep its rows in front, and both tell all rows apart in the column. */
  lemma FilledMatches(env: Env, p: Table, key: ForeignKey, existing: seq<Row>, was: seq<Row>, now: seq<Row>,
                      a: map<string, seq<Row>>, b: map<string, seq<Row>>)
    requires key.table == p.name && key.refColumn in Names(p.columns) && |was| < Target(env, p) == |now| && was <= now
    requires p.name in a && a[p.name] == now && p.name in b && b[p.name] == Grown(env, p, was)
    requires Unique(now, [key.refColumn]) && HasValues(now, |was|, key.refColumn)
    requires Refers(existing, was, key)
    ensures SameCount(key, a, b) && KeyMatches(key, existing, a, b)
  {
    var grown, name := Grown(env, p, was), key.refColumn;
    forall q: nat | q < |now| ensures At(a, key, q) == Null <==> At(b, key, q) == Null {
      if q >= |was| {
        GrownApart(env, p, was, name, q, q);
      } else {
        assert now[q] == was[q] == grown[q];
      }
    }
    forall q: nat, r: nat | q < |now| && r < |now|
      ensures SameText(At(a, key, q), At(a, key, r)) <==> SameText(At(b, key, q), At(b, key, r))
    {
      PositionsMatch(env, p, name, was, now, q, r);
    }
    forall e, q: nat | e in existing && q < |now|
      ensures SameText(Field(e, key.column), At(a, key, q)) <==> SameText(Field(e, key.column), At(b, key, q))
    {
      if q < |was| {
        assert now[q] == was[q] == grown[q];
      } else {
        StandInDiffers(env, p, was, name, Field(e, key.column), q);
        NewDiffers(name, was, now, Field(e, key.column), q);
      }
    }
  }

  lemma PositionsMatch(env: Env, p: Table, name: string, was: seq<Row>, now: seq<Row>, q: nat, r: nat)
    requires name in Names(p.columns) && |was| < Target(env, p) == |now| && was <= now && q < |now| && r < |now|
    requires Unique(now, [name]) && HasValues(now, |was|, name)
    ensures var grown := Grown(env, p, was);
            SameText(Field(now[q], name), Field(now[r], name)) <==>
                SameText(Field(grown[q], name), Field(grown[r], name))
  {
    var grown := Grown(env, p, was);
    if q < |was| && r < |was| {
      assert now[q] == was[q] == grown[q] && now[r] == was[r] == grown[r];
    } else {
      if q >= |was| {
        GrownApart(env, p, was, name, r, q);
      } else {
        GrownApart(env, p, was, name, q, r);
      }
      UniqueApart(now, name, q, r);
    }
  }

  lemma UniqueApart(rows: seq<Row>, name: string, i: nat, j: nat)
    requires Unique(rows, [name]) && i < |rows| && j < |rows|
             && (Field(rows[i], name) != Null || Field(rows[j], name) != Null)
    ensures SameText(Field(rows[i], name), Field(rows[j], name)) <==> i == j
  {
    if i < j {
      assert !SameTuple(rows[i], rows[j], [name]);
    } else if j < i {
      assert !SameTuple(rows[j], rows[i], [name]);
    }
  }

  lemma NewDiffers(name: string, was: seq<Row>, now: seq<Row>, value: Value, q: nat)
    requires Unique(now, [name]) && was <= now && |was| <= q < |now|
    requires value != Null ==> exists row :: row in was && SameText(value, Field(row, name))
    ensures !SameText(value, Field(now[q], name))
  {
    if SameText(value, Field(now[q], name)) {
      var row :| row in was && SameText(value, Field(row, name));
      var i :| 0 <= i < |was| && was[i] == row;
      assert now[i] == row;
      UniqueApart(now, name, i, q);
    }
  }

  // ----- One visit

  lemma ExpectedClean(env: Env, db: map<string, seq<Row>>, tables: seq<Table>, filled: set<string>, t: Table)
    requires Ready(db, tables) && CleanDb(db) && forall p :: p in tables && p.name in filled ==> StartsShort(env, db, p)
    ensures CleanParents(t, Expected(env, db, tables, filled))
  {
    var parents := Expected(env, db, tables, filled);
    forall key, row | key in t.foreignKeys && key.table in parents && row in parents[key.table]
      ensures Clean(Field(row, key.refColumn))
    {
      var p :| p in tables && p.name == key.table;
      GrownClean(env, p, db[p.name], row, key.refColumn);
    }
  }

  lemma StandInClean(t: Table, rows: seq<Row>, i: nat, name: string)
    ensures Clean(Field(StandIn(t, rows, i), name))
  {
    if name in Names(t.columns) {
      StandInField(t, rows, i, name);
    }
  }

  lemma GrownClean(env: Env, p: Table, rows: seq<Row>, row: Row, name: string)
    requires CleanRows(rows) && row in Grown(env, p, rows)
    ensures Clean(Field(row, name))
  {
    var j :| 0 <= j < |Grown(env, p, rows)| && Grown(env, p, rows)[j] == row;
    if j < |rows| {
      assert row == rows[j];
    } else {
      StandInClean(p, rows, j - |rows|, name);
    }
  }

  lemma IdentifiedIsNamed(env: Env, p: Table, name: string, filled: bool)
    requires Identifies(env, p, name, filled)
    ensures name in Names(p.columns)
  {
    assert Visible(p, [name][0], filled);
    assert FindColumn(p.columns, name).value in p.columns;
  }

  /** The rows of a parent table filled in the run match its stand-ins. */
  lemma FilledParentMatches(env: Env, db: map<string, seq<Row>>, tables: seq<Table>, schema: seq<Table>,
                            full: set<string>, filled: set<string>, s: State, t: Table, key: ForeignKey, p: Table)
    requires Start(env, db, tables, schema, full) && Tracks(env, db, tables, filled, s) && Sound(s.db, schema, full)
    requires t in tables && StartsShort(env, db, t) && key in t.foreignKeys
    requires p in tables && p.name == key.table && p.name in filled
    ensures var b := Expected(env, db, tables, filled);
            SameCount(key, s.parents, b) && KeyMatches(key, db[t.name], s.parents, b)
  {
    assert Tracked1(env, db, p, filled, s);
    assert Identifies(env, p, key.refColumn, p.name in full);
    IdentifiedIsNamed(env, p, key.refColumn, p.name in full);
    assert p in schema && IndexesUnique(p, RowsOf(s.db, p.name), p.name in full);
    assert Unique(s.db[p.name], [key.refColumn]);
    assert t in schema && KeysValid(db, t);
    assert Refers(RowsOf(db, t.name), RowsOf(db, key.table), key);
    FilledMatches(env, p, key, db[t.name], db[p.name], s.db[p.name], s.parents, Expected(env, db, tables, filled));
  }

  lemma ExpectedRows(env: Env, db: map<string, seq<Row>>, tables: seq<Table>, filled: set<string>, p: Table)
    requires Ready(db, tables) && p in tables
    ensures var b := Expected(env, db, tables, filled);
            p.name in b && b[p.name] == if p.name in filled then Grown(env, p, db[p.name]) else db[p.name]
  {
  }

  lemma EqualRowsMatch(key: ForeignKey, existing: seq<Row>, a: map<string, seq<Row>>, b: map<string, seq<Row>>)
    requires key.table in a <==> key.table in b
    requires key.table in a ==> a[key.table] == b[key.table]
    ensures SameCount(key, a, b) && KeyMatches(key, existing, a, b)
  {
  }

  /** The tables as they are match the tables as expected. */
  lemma StateMatches(env: Env, db: map<string, seq<Row>>, tables: seq<Table>, schema: seq<Table>, full: set<string>,
                     filled: set<string>, s: State, t: Table)
    requires Start(env, db, tables, schema, full) && Tracks(env, db, tables, filled, s) && Sound(s.db, schema, full)
    requires t in tables && StartsShort(env, db, t)
    ensures Matches(t, db[t.name], s.parents, Expected(env, db, tables, filled))
  {
    forall key | key in t.foreignKeys
      ensures SameCount(key, s.parents, Expected(env, db, tables, filled))
      ensures KeyMatches(key, db[t.name], s.parents, Expected(env, db, tables, filled))
    {
      if p :| p in tables && p.name == key.table {
        if p.name in filled {
          FilledParentMatches(env, db, tables, schema, full, filled, s, t, key, p);
        } else {
          ExpectedRows(env, db, tables, filled, p);
          assert Tracked1(env, db, p, filled, s);
          EqualRowsMatch(key, db[t.name], s.parents, Expected(env, db, tables, filled));
        }
      } else {
        EqualRowsMatch(key, db[t.name], s.parents, Expected(env, db, tables, filled));
      }
    }
  }

  /** A visit fills a table exactly when the forecast says so. */
  lemma VisitForecast(env: Env, db: map<string, seq<Row>>, tables: seq<Table>, schema: seq<Table>, full: set<string>,
                      filled: set<string>, s: State, t: Table)
    requires Start(env, db, tables, schema, full) && Tracks(env, db, tables, filled, s) && Sound(s.db, schema, full)
    requires CleanDb(s.db) && t in tables && forall p :: p in tables && p.name in filled ==> StartsShort(env, db, p)
    ensures Plan(env, t, s.db[t.name], s.parents).Ok? <==>
            t.name !in filled && Plan(env, t, db[t.name], Expected(env, db, tables, filled)).Ok?
  {
    assert Tracked1(env, db, t, filled, s);
    if t.name !in filled && StartsShort(env, db, t) {
      StateMatches(env, db, tables, schema, full, filled, s, t);
      SyncedParentsClean(s, TableNames(tables), t);
      ExpectedClean(env, db, tables, filled, t);
      PlanIgnoresIds(env, t, db[t.name], s.parents, Expected(env, db, tables, filled));
    }
  }

  // ----- New rows have values in identifying columns

  ghost predicate Given(row: Row, name: string) {
    name in row && row[name] != Null
  }

  lemma {:induction false} BaseGives(env: Env, t: Table, columns: seq<Column>, source: Row, variant: int, name: string)
    requires GivesValue(env, t, name) && !Counts(t, name) && FindColumn(t.columns, name).value in columns
    requires forall column :: column in columns && column.name == name ==> column == FindColumn(t.columns, name).value
    ensures Given(BaseRow(env, t, columns, source, variant), name)
  {
    var front, last := columns[..|columns| - 1], columns[|columns| - 1];
    if FindColumn(t.columns, name).value in front {
      BaseGives(env, t, front, source, variant, name);
    }
  }

  lemma VaryColumnGives(env: Env, t: Table, row: Row, other: string, variant: int, name: string)
    requires GivesValue(env, t, name) && !Counts(t, name) && Given(row, name)
    ensures Given(VaryColumn(env, t, row, other, variant), name)
  {
  }

  lemma {:induction false} VaryIndexGives(env: Env, t: Table, row: Row, index: seq<string>, variant: int, name: string)
    requires GivesValue(env, t, name) && !Counts(t, name) && Given(row, name)
    ensures Given(VaryIndex(env, t, row, index, variant), name)
  {
    if index != [] {
      var front, last := index[..|index| - 1], index[|index| - 1];
      VaryIndexGives(env, t, row, front, variant, name);
      VaryColumnGives(env, t, VaryIndex(env, t, row, front, variant), last, variant, name);
    }
  }

  lemma {:induction false} VaryGives(env: Env, t: Table, row: Row, indexes: seq<seq<string>>, variant: int,
                                     name: string)
    requires GivesValue(env, t, name) && !Counts(t, name) && Given(row, name)
    ensures Given(Vary(env, t, row, indexes, variant), name)
  {
    if indexes != [] {
      var front, last := indexes[..|indexes| - 1], indexes[|indexes| - 1];
      VaryGives(env, t, row, front, variant, name);
      VaryIndexGives(env, t, Vary(env, t, row, front, variant), last, variant, name);
    }
  }

  lemma {:induction false} ResolveGives(env: Env, t: Table, row: Row, rows: seq<Row>, variant: int, attempt: nat,
                                        name: string)
    requires attempt <= MAX_ATTEMPTS && GivesValue(env, t, name) && !Counts(t, name) && Given(row, name)
    ensures Given(Resolve(env, t, row, rows, variant, attempt), name)
    decreases MAX_ATTEMPTS - attempt
  {
    if attempt < MAX_ATTEMPTS && Conflict(row, rows, Tracked(t)) {
      VaryGives(env, t, row, Tracked(t), variant + attempt + 1, name);
      ResolveGives(env, t, Vary(env, t, row, Tracked(t), variant + attempt + 1), rows, variant, attempt + 1, name);
    }
  }

  lemma {:induction false} ApplyKeysLeaves(t: Table, keys: seq<ForeignKey>, row: Row, parents: map<string, seq<Row>>,
                                           variant: nat, name: string)
    requires variant > 0 && ApplyKeys(t, keys, row, parents, variant).Some? && forall key :: key in keys ==>
             key.column != name
    ensures Held(ApplyKeys(t, keys, row, parents, variant).value, name) == Held(row, name)
  {
    if keys != [] {
      ApplyKeysLeaves(t, keys[..|keys| - 1], row, parents, variant, name);
    }
  }

  lemma NewRowGives(env: Env, t: Table, existing: seq<Row>, parents: map<string, seq<Row>>, rows: seq<Row>,
                    variant: nat, name: string)
    requires variant > 0 && ColumnsNamed(t) && GivesValue(env, t, name) && !Counts(t, name)
    requires NewRow(env, t, existing, parents, rows, variant).Ok?
    ensures Given(NewRow(env, t, existing, parents, rows, variant).value, name)
  {
    var c, source := FindColumn(t.columns, name).value, SourceRow(existing, variant);
    var base := BaseRow(env, t, Insertable(t.columns), source, variant);
    InsertableHas(t.columns, c);
    forall column | column in Insertable(t.columns) ensures column in t.columns {
      InsertableIn(t.columns, column);
    }
    BaseGives(env, t, Insertable(t.columns), source, variant, name);
    ApplyKeysLeaves(t, t.foreignKeys, base, parents, variant, name);
    ResolveGives(env, t, ApplyKeys(t, t.foreignKeys, base, parents, variant).value, existing + rows, variant, 0, name);
  }

  lemma {:induction false} NewRowsGive(env: Env, t: Table, existing: seq<Row>, parents: map<string, seq<Row>>,
                                       last: nat, name: string)
    requires last >= |existing| && ColumnsNamed(t) && GivesValue(env, t, name) && !Counts(t, name)
    requires NewRows(env, t, existing, parents, last).Ok?
    ensures forall row :: row in NewRows(env, t, existing, parents, last).value ==> Given(row, name)
    decreases last
  {
    if last > |existing| {
      NewRowsGive(env, t, existing, parents, last - 1, name);
      NewRowGives(env, t, existing, parents, NewRows(env, t, existing, parents, last - 1).value, last, name);
    }
  }

  /** After a table is filled, its new rows have values in its identifying columns. */
  lemma FilledHasValues(env: Env, t: Table, existing: seq<Row>, parents: map<string, seq<Row>>, name: string)
    requires CounterFresh(env) && ColumnsNamed(t) && GivesValue(env, t, name)
    requires |existing| <= Target(env, t) && NewRows(env, t, existing, parents, Target(env, t)).Ok?
    ensures var rows := NewRows(env, t, existing, parents, Target(env, t)).value;
            HasValues(existing + StoredRows(env, t, existing, rows, ColumnNames(Insertable(t.columns), rows)),
                      |existing|, name)
  {
    var rows := NewRows(env, t, existing, parents, Target(env, t)).value;
    var listed := ColumnNames(Insertable(t.columns), rows);
    var stored := StoredRows(env, t, existing, rows, listed);
    if !Counts(t, name) {
      NewRowsGive(env, t, existing, parents, Target(env, t), name);
    }
    forall k | 0 <= k < |stored| ensures Field(stored[k], name) != Null {
      if Counts(t, name) {
        CountedField(env, t, existing, rows, listed, name, k);
      } else {
        assert rows[k] in rows && Given(rows[k], name);
        StoredFieldAt(env, t, existing, rows, listed, name, k);
      }
    }
  }

  // ----- The whole run

  lemma ExpandTracks(env: Env, db: map<string, seq<Row>>, tables: seq<Table>, schema: seq<Table>, full: set<string>,
                     filled: set<string>, s: State, t: Table)
    requires Start(env, db, tables, schema, full) && Tracks(env, db, tables, filled, s) && Sound(s.db, schema, full)
    requires CleanDb(s.db) && t in tables
    ensures var next := if Plan(env, t, s.db[t.name], s.parents).Ok? then filled + {t.name} else filled;
            && Tracks(env, db, tables, next, Expand(env, s, t).0)
            && CleanDb(Expand(env, s, t).0.db)
  {
    var existing, after := s.db[t.name], Expand(env, s, t).0;
    assert Tracked1(env, db, t, filled, s);
    if Plan(env, t, existing, s.parents).Ok? {
      var next := filled + {t.name};
      ExpandClean(env, s, t, TableNames(tables));
      NewRowsCount(env, t, existing, s.parents, Target(env, t));
      forall name | GivesValue(env, t, name) ensures HasValues(after.db[t.name], |existing|, name) {
        FilledHasValues(env, t, existing, s.parents, name);
      }
      forall p | p in tables ensures Tracked1(env, db, p, next, after) {
        assert Tracked1(env, db, p, filled, s);
      }
    } else {
      QuietStep(env, s, t, TableNames(tables));
    }
  }

  /** The forecast only names tables that start short. */
  lemma {:induction false} ForecastIsShort(env: Env, db: map<string, seq<Row>>, tables: seq<Table>, visits: seq<Table>,
                                           p: Table)
    requires Ready(db, tables) && (forall t :: t in visits ==> t in tables) && p in tables
    requires p.name in Forecast(env, db, tables, visits)
    ensures StartsShort(env, db, p)
  {
    var front := visits[..|visits| - 1];
    if p.name in Forecast(env, db, tables, front) {
      ForecastIsShort(env, db, tables, front, p);
    }
  }

  /** After any visits, the tables filled are exactly those forecast. */
  lemma {:induction false} VisitsFollowForecast(env: Env, db: map<string, seq<Row>>, tables: seq<Table>,
                                                schema: seq<Table>, full: set<string>, visits: seq<Table>)
    requires Start(env, db, tables, schema, full) && forall t :: t in visits ==> t in tables
    ensures var s := ExpandAll(env, Load(db, tables), visits);
            Tracks(env, db, tables, Forecast(env, db, tables, visits), s) && CleanDb(s.db)
    decreases |visits|
  {
    if visits != [] {
      var front, t := visits[..|visits| - 1], visits[|visits| - 1];
      VisitsFollowForecast(env, db, tables, schema, full, front);
      var s, filled := ExpandAll(env, Load(db, tables), front), Forecast(env, db, tables, front);
      VisitsSound(env, Load(db, tables), front, TableNames(tables), schema, full);
      forall p | p in tables && p.name in filled ensures StartsShort(env, db, p) {
        ForecastIsShort(env, db, tables, front, p);
      }
      VisitForecast(env, db, tables, schema, full, filled, s, t);
      ExpandTracks(env, db, tables, schema, full, filled, s, t);
    }
  }

  // ----- As many passes as tables

  function Times(tables: seq<Table>, count: nat): (visits: seq<Table>)
    ensures forall t :: t in visits ==> t in tables
  {
    if count == 0 then [] else Times(tables, count - 1) + tables
  }

  lemma WholePassVisits(env: Env, s: State, tables: seq<Table>)
    requires Known(s, tables)
    ensures Pass(env, s, tables, |tables|).0 == ExpandAll(env, s, tables)
    ensures Synced(s, TableNames(tables)) && Settled(env, s, tables) ==> ExpandAll(env, s, tables) == s
  {
    PassVisits(env, s, tables, |tables|);
    assert tables[..|tables|] == tables;
    if Synced(s, TableNames(tables)) && Settled(env, s, tables) {
      QuietPass(env, s, tables, |tables|);
    }
  }

  lemma OneMorePass(env: Env, s: State, tables: seq<Table>, count: nat)
    requires Known(s, tables) && count > 0
    requires Passes(env, s, tables, count - 1).0 == ExpandAll(env, s, Times(tables, count - 1))
    requires var r := Passes(env, s, tables, count - 1);
             r.1 || (Synced(r.0, TableNames(tables)) && Settled(env, r.0, tables))
    ensures Passes(env, s, tables, count).0 == ExpandAll(env, s, Times(tables, count))
  {
    WholePassVisits(env, Passes(env, s, tables, count - 1).0, tables);
    ExpandAllSplit(env, s, Times(tables, count - 1), tables);
  }

  /** The passes so far are the visits so far, and if they have stopped nothing is left to insert. */
  ghost predicate PassesMatch(env: Env, s: State, tables: seq<Table>, count: nat)
    requires Known(s, tables)
  {
    var r := Passes(env, s, tables, count);
    && r.0 == ExpandAll(env, s, Times(tables, count))
    && (r.1 || (Synced(r.0, TableNames(tables)) && Settled(env, r.0, tables)))
  }

  lemma NextPassMatches(env: Env, db: map<string, seq<Row>>, s: State, tables: seq<Table>, count: nat)
    requires Known(s, tables) && Good(env, db, s, TableNames(tables)) && count > 0
             && PassesMatch(env, s, tables, count - 1)
    ensures PassesMatch(env, s, tables, count)
  {
    OneMorePass(env, s, tables, count);
    PassesSettle(env, db, s, tables, count);
  }

  /** A run that stops early is one that goes on without finding anything. */
  lemma PassesAreVisits(env: Env, db: map<string, seq<Row>>, s: State, tables: seq<Table>, count: nat)
    requires Known(s, tables) && Good(env, db, s, TableNames(tables))
    ensures PassesMatch(env, s, tables, count)
  {
    for i := 0 to count
      invariant PassesMatch(env, s, tables, i)
    {
      NextPassMatches(env, db, s, tables, i + 1);
    }
  }

  function FinalForecast(env: Env, db: map<string, seq<Row>>, tables: seq<Table>): set<string>
    requires Ready(db, tables)
  {
    Forecast(env, db, tables, Times(tables, |tables|))
  }

  /**
   For every generator and every counter, the run fills exactly the tables that the starting rows
   forecast, and leaves the others as they were.
   */
  lemma {:induction false} SeedingFollowsForecast(env: Env, db: map<string, seq<Row>>, tables: seq<Table>,
                                                  schema: seq<Table>, full: set<string>, t: Table)
    requires Start(env, db, tables, schema, full) && t in tables
    ensures var s := SeedCoverage(env, db, tables);
            && (t.name in FinalForecast(env, db, tables) ==>
                  StartsShort(env, db, t) && |s.db[t.name]| == Target(env, t))
            && (t.name !in FinalForecast(env, db, tables) ==> s.db[t.name] == db[t.name])
            && CleanDb(s.db)
  {
    PassesAreVisits(env, db, Load(db, tables), tables, |tables|);
    VisitsFollowForecast(env, db, tables, schema, full, Times(tables, |tables|));
    assert Tracked1(env, db, t, FinalForecast(env, db, tables), SeedCoverage(env, db, tables));
  }

  // ----- The forecast from keys alone

  /** The required parents have rows and the variants' keys do not repeat, with stand-ins for new parent rows. */
  ghost predicate KeysAllow(env: Env, db: map<string, seq<Row>>, tables: seq<Table>, filled: set<string>, t: Table)
    requires Ready(db, tables) && t.name in db
  {
    var parents := Expected(env, db, tables, filled);
    && StartsShort(env, db, t) && !LacksParent(t, parents)
    && NoKeysRepeat(t, db[t.name], parents, Target(env, t))
  }

  /** The tables filled by these visits; the generator has no part in it. */
  ghost function KeyForecast(env: Env, db: map<string, seq<Row>>, tables: seq<Table>, visits: seq<Table>): set<string>
    requires Ready(db, tables) && forall t :: t in visits ==> t in tables
  {
    if visits == [] then {}
    else
      var before, t := KeyForecast(env, db, tables, visits[..|visits| - 1]), visits[|visits| - 1];
      if t.name !in before && KeysAllow(env, db, tables, before, t) then before + {t.name} else before
  }

  /** The tables to be filled are of the kind whose unique conflicts are understood. */
  ghost predicate AllPredictable(env: Env, db: map<string, seq<Row>>, tables: seq<Table>)
    requires forall t :: t in tables ==> t.name in db
  {
    forall t :: t in tables && StartsShort(env, db, t) ==> Predictable(env, t) && Fillable(t)
  }

  lemma {:induction false} ForecastFromKeys(env: Env, db: map<string, seq<Row>>, tables: seq<Table>, visits: seq<Table>)
    requires Ready(db, tables) && CleanStart(env, db, tables) && AllPredictable(env, db, tables)
    requires forall t :: t in visits ==> t in tables
    ensures Forecast(env, db, tables, visits) == KeyForecast(env, db, tables, visits)
    decreases |visits|
  {
    if visits != [] {
      var front, t := visits[..|visits| - 1], visits[|visits| - 1];
      ForecastFromKeys(env, db, tables, front);
      var before := Forecast(env, db, tables, front);
      forall p | p in tables && p.name in before ensures StartsShort(env, db, p) {
        ForecastIsShort(env, db, tables, front, p);
      }
      ExpectedClean(env, db, tables, before, t);
      if StartsShort(env, db, t) {
        PlanIff(env, t, db[t.name], Expected(env, db, tables, before));
      }
    }
  }

  /**
   Known before the run, from the starting rows, the targets and the keys: every table reaches its
   target if and only if every table that starts short comes, in one of the passes, to have rows
   in its required parents and no repeated keys.
   */
  lemma {:induction false} SeedingFillsEveryTable(env: Env, db: map<string, seq<Row>>, tables: seq<Table>,
                                                  schema: seq<Table>, full: set<string>)
    requires Start(env, db, tables, schema, full) && AllPredictable(env, db, tables)
    ensures var s, forecast := SeedCoverage(env, db, tables), KeyForecast(env, db, tables, Times(tables, |tables|));
            && (forall t :: t in tables && StartsShort(env, db, t) ==> (Full(env, s, t) <==> t.name in forecast))
            && ((forall t :: t in tables ==> Full(env, s, t)) <==>
                (forall t :: t in tables && StartsShort(env, db, t) ==> t.name in forecast))
  {
    var s, forecast := SeedCoverage(env, db, tables), KeyForecast(env, db, tables, Times(tables, |tables|));
    ForecastFromKeys(env, db, tables, Times(tables, |tables|));
    forall t | t in tables
      ensures if StartsShort(env, db, t) then (Full(env, s, t) <==> t.name in forecast) else Full(env, s, t)
    {
      SeedingFollowsForecast(env, db, tables, schema, full, t);
    }
  }

  /**
   If no table that starts short has an index made of foreign keys alone and their required keys
   form no cycle, it is enough that none of them has a required key outside the list.
   */
  lemma {:induction false} SeedingFillsUnlessCutOff(env: Env, db: map<string, seq<Row>>, tables: seq<Table>,
                                                    schema: seq<Table>, full: set<string>, rank: map<string, nat>)
    requires Start(env, db, tables, schema, full) && AllPredictable(env, db, tables) && WantsRows(env, tables)
    requires Acyclic(env, db, tables, rank)
    requires forall t, index :: t in tables && StartsShort(env, db, t) && index in Tracked(t) ==> !Rigid(t, index)
    ensures var s := SeedCoverage(env, db, tables);
            (forall t :: t in tables ==> Full(env, s, t)) <==> (forall t :: t in tables ==> !CutOff(env, db, t, tables))
  {
    BoundSuffices(env, db, tables);
    var s := SeedCoverage(env, db, tables);
    forall t | t in tables ensures !StopsItself(env, s, t) {
      SeedingFollowsForecast(env, db, tables, schema, full, t);
      SyncedParentsClean(s, TableNames(tables), t);
      if StartsShort(env, db, t) {
        NeverUnresolved(env, t, s.db[t.name], s.parents);
        NeverWithoutColumns(env, t, s.db[t.name], s.parents);
      }
    }
    EveryTableFullIff(env, db, tables, rank);
  }
}
