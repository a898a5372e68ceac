/**
 The seed expander: what one table insert adds, and what the passes over all tables do.

 A table is a sequence of rows and a row maps column names to values; a column a row does not
 hold is undefined, which differs from null when a new row is built.  The value generator, the substitute timestamp and
 the database's auto-increment counter are parameters, so every result holds for all of them.
 */
module SeedExpansion {
  import opened Wrappers

  datatype Value = Null | Text(text: string) | Date(text: string)

  type Row = map<string, Value>

  datatype Column = Column(name: string, nullable: bool, default: Option<string>, autoIncrement: bool)

  datatype ForeignKey = ForeignKey(column: string, table: string, refColumn: string)

  datatype Table = Table(
    name: string, columns: seq<Column>, primaryKeys: seq<string>, uniqueIndexes: seq<seq<string>>,
    foreignKeys: seq<ForeignKey>)

  /**
   `target` is the number of rows wanted; `scalar` takes table, column, source value and variant;
   `counter` takes table, column, rows and offset.
   */
  datatype Env = Env(
    target: string -> nat,
    scalar: (string, Column, Option<Value>, int) -> Value,
    stamp: int -> Value,
    counter: (string, string, seq<Row>, nat) -> Value)

  /** `parents` is the expander's own copy of the tables; `inserted` lists the insert statements it ran. */
  datatype State = State(db: map<string, seq<Row>>, parents: map<string, seq<Row>>, inserted: seq<string>)

  const MAX_ATTEMPTS: nat := 100

  function Field(row: Row, column: string): Value {
    if column in row then row[column] else Null
  }

  function Held(row: Row, column: string): Option<Value> {
    if column in row then Some(row[column]) else None
  }

  function FindColumn(columns: seq<Column>, name: string): (c: Option<Column>)
    ensures c.Some? ==> c.value in columns && c.value.name == name
    ensures c.None? ==> forall d :: d in columns ==> d.name != name
  {
    if columns == [] then None
    else if columns[0].name == name then Some(columns[0])
    else FindColumn(columns[1..], name)
  }

  function KeyColumns(t: Table): set<string> {
    set k | k in t.foreignKeys :: k.column
  }

  function Insertable(columns: seq<Column>): seq<Column> {
    if columns == [] then []
    else Insertable(columns[..|columns| - 1]) +
         if columns[|columns| - 1].autoIncrement then [] else [columns[|columns| - 1]]
  }

  function Tracked(t: Table): seq<seq<string>> {
    [t.primaryKeys] + t.uniqueIndexes
  }

  // ----- Unique keys

  /** The column texts joined by the unit separator. */
  function Joined(row: Row, columns: seq<string>): string
    requires forall c :: c in columns ==> Field(row, c) != Null
  {
    if columns == [] then ""
    else if |columns| == 1 then Field(row, columns[0]).text
    else Joined(row, columns[..|columns| - 1]) + "\U{001f}" + Field(row, columns[|columns| - 1]).text
  }

  function UniqueKey(row: Row, columns: seq<string>): Option<string> {
    if exists c | c in columns :: Field(row, c) == Null then None else Some(Joined(row, columns))
  }

  predicate SameKey(a: Row, b: Row, index: seq<string>) {
    UniqueKey(a, index).Some? && UniqueKey(b, index) == UniqueKey(a, index)
  }

  predicate ConflictOn(row: Row, rows: seq<Row>, index: seq<string>) {
    rows != [] && (ConflictOn(row, rows[..|rows| - 1], index) || SameKey(row, rows[|rows| - 1], index))
  }

  predicate Conflict(row: Row, rows: seq<Row>, indexes: seq<seq<string>>) {
    indexes != [] &&
    (Conflict(row, rows, indexes[..|indexes| - 1]) || ConflictOn(row, rows, indexes[|indexes| - 1]))
  }

  // ----- One row

  function AddColumn(env: Env, t: Table, row: Row, column: Column, source: Row, variant: int): Row {
    var value := Held(source, column.name);
    if column.name in KeyColumns(t) then row
    else if (column.name == "createdAt" || column.name == "updatedAt") && value.Some? && value.value.Date? then
      row[column.name := env.stamp(variant)]
    else if value.Some? || (!column.nullable && column.default.None?) then
      row[column.name := env.scalar(t.name, column, value, variant)]
    else if column.default.Some? then row
    else if !column.nullable then row[column.name := env.scalar(t.name, column, None, variant)]
    else row
  }

  function BaseRow(env: Env, t: Table, columns: seq<Column>, source: Row, variant: int): Row {
    if columns == [] then map[]
    else
      AddColumn(env, t, BaseRow(env, t, columns[..|columns| - 1], source, variant),
                columns[|columns| - 1], source, variant)
  }

  /** A key whose column must be given a value by the insert. */
  predicate RequiredKey(t: Table, key: ForeignKey) {
    var column := FindColumn(t.columns, key.column);
    column.Some? && !column.value.nullable && column.value.default.None?
  }

  predicate HasRows(parents: map<string, seq<Row>>, table: string) {
    table in parents && parents[table] != []
  }

  function ApplyKeys(t: Table, keys: seq<ForeignKey>, row: Row, parents: map<string, seq<Row>>,
                     variant: nat): Option<Row>
    requires variant > 0
  {
    if keys == [] then Some(row)
    else
      var key := keys[|keys| - 1];
      match ApplyKeys(t, keys[..|keys| - 1], row, parents, variant)
      case None => None
      case Some(before) =>
        if HasRows(parents, key.table) then
          var source := parents[key.table];
          Some(before[key.column := Field(source[(variant - 1) % |source|], key.refColumn)])
        else if RequiredKey(t, key) then None
        else Some(before)
  }

  function VaryColumn(env: Env, t: Table, row: Row, name: string, variant: int): Row {
    var column := FindColumn(t.columns, name);
    if column.None? || name in KeyColumns(t) then row
    else row[name := env.scalar(t.name, column.value, Held(row, name), variant)]
  }

  function VaryIndex(env: Env, t: Table, row: Row, index: seq<string>, variant: int): Row {
    if index == [] then row
    else VaryColumn(env, t, VaryIndex(env, t, row, index[..|index| - 1], variant), index[|index| - 1], variant)
  }

  function Vary(env: Env, t: Table, row: Row, indexes: seq<seq<string>>, variant: int): Row {
    if indexes == [] then row
    else VaryIndex(env, t, Vary(env, t, row, indexes[..|indexes| - 1], variant), indexes[|indexes| - 1], variant)
  }

  /** Varies every tracked column until the row conflicts with nothing, at most MAX_ATTEMPTS times. */
  function Resolve(env: Env, t: Table, row: Row, rows: seq<Row>, variant: int, attempt: nat): Row
    requires attempt <= MAX_ATTEMPTS
    decreases MAX_ATTEMPTS - attempt
  {
    if attempt == MAX_ATTEMPTS || !Conflict(row, rows, Tracked(t)) then row
    else Resolve(env, t, Vary(env, t, row, Tracked(t), variant + attempt + 1), rows, variant, attempt + 1)
  }

  // ----- One table

  datatype Stop = Enough | MissingParent | Unresolved(variant: int) | NoColumns

  function SourceRow(existing: seq<Row>, variant: nat): Row
    requires variant > 0
  {
    if existing == [] then map[] else existing[(variant - 1) % |existing|]
  }

  function NewRow(env: Env, t: Table, existing: seq<Row>, parents: map<string, seq<Row>>, rows: seq<Row>, variant: nat)
    : Result<Row, Stop>
    requires variant > 0
  {
    var base := BaseRow(env, t, Insertable(t.columns), SourceRow(existing, variant), variant);
    match ApplyKeys(t, t.foreignKeys, base, parents, variant)
    case None => Err(MissingParent)
    case Some(row) =>
      var final := Resolve(env, t, row, existing + rows, variant, 0);
      if Conflict(final, existing + rows, Tracked(t)) then Err(Unresolved(variant)) else Ok(final)
  }

  /** The rows for variants |existing| + 1 to `last`, or the first reason there are none. */
  function NewRows(env: Env, t: Table, existing: seq<Row>, parents: map<string, seq<Row>>, last: nat): Result<seq<Row>,
      Stop>
    requires last >= |existing|
    decreases last
  {
    if last == |existing| then Ok([])
    else
      match NewRows(env, t, existing, parents, last - 1)
      case Err(stop) => Err(stop)
      case Ok(rows) =>
        match NewRow(env, t, existing, parents, rows, last)
        case Err(stop) => Err(stop)
        case Ok(row) => Ok(rows + [row])
  }

  function ColumnNames(columns: seq<Column>, rows: seq<Row>): seq<string> {
    if columns == [] then []
    else
      var last := columns[|columns| - 1];
      ColumnNames(columns[..|columns| - 1], rows) +
      if exists row | row in rows :: last.name in row then [last.name] else []
  }

  /** The rows `expandTable` inserts, or why it inserts none. */
  function Plan(env: Env, t: Table, existing: seq<Row>, parents: map<string, seq<Row>>): Result<seq<Row>, Stop> {
    var target := env.target(t.name);
    if |existing| >= target then Err(Enough)
    else
      match NewRows(env, t, existing, parents, target)
      case Err(stop) => Err(stop)
      case Ok(rows) => if ColumnNames(Insertable(t.columns), rows) == [] then Err(NoColumns) else Ok(rows)
  }

  // ----- The database's side of an insert

  /** What is stored for a column: the value listed, a fresh counter value, or the default. */
  function StoredField(env: Env, t: Table, column: Column, existing: seq<Row>, row: Row, listed: seq<string>,
                       offset: nat): Value
  {
    if column.autoIncrement then env.counter(t.name, column.name, existing, offset)
    else if column.name in listed then Field(row, column.name)
    else match column.default case Some(d) => Text(d) case None => Null
  }

  function Names(columns: seq<Column>): set<string> {
    set c | c in columns :: c.name
  }

  function StoredRow(env: Env, t: Table, existing: seq<Row>, row: Row, listed: seq<string>, offset: nat): Row {
    map name | name in Names(t.columns) ::
      StoredField(env, t, FindColumn(t.columns, name).value, existing, row, listed, offset)
  }

  function StoredRows(env: Env, t: Table, existing: seq<Row>, rows: seq<Row>, listed: seq<string>): (stored: seq<Row>)
    ensures |stored| == |rows|
  {
    if rows == [] then []
    else
      StoredRows(env, t, existing, rows[..|rows| - 1], listed) +
      [StoredRow(env, t, existing, rows[|rows| - 1], listed, |rows| - 1)]
  }

  // ----- Tables, passes and the whole run

  predicate Known(s: State, tables: seq<Table>) {
    forall t :: t in tables ==> t.name in s.db
  }

  function Expand(env: Env, s: State, t: Table): (State, bool)
    requires t.name in s.db
  {
    var existing := s.db[t.name];
    match Plan(env, t, existing, s.parents)
    case Err(stop) => (if stop.Enough? then s.(parents := s.parents[t.name := existing]) else s, false)
    case Ok(rows) =>
      var refreshed := existing + StoredRows(env, t, existing, rows, ColumnNames(Insertable(t.columns), rows));
      (State(s.db[t.name := refreshed], s.parents[t.name := refreshed], s.inserted + [t.name]), true)
  }

  /** The first `count` tables of one pass; the flag is `progressed`. */
  function Pass(env: Env, s: State, tables: seq<Table>, count: nat): (r: (State, bool))
    requires Known(s, tables) && count <= |tables|
    ensures Known(r.0, tables)
  {
    if count == 0 then (s, false)
    else
      var before := Pass(env, s, tables, count - 1);
      var after := Expand(env, before.0, tables[count - 1]);
      (after.0, before.1 || after.1)
  }

  /** The state after at most `count` passes; the flag is off once a pass made no progress. */
  function Passes(env: Env, s: State, tables: seq<Table>, count: nat): (r: (State, bool))
    requires Known(s, tables)
    ensures Known(r.0, tables)
  {
    if count == 0 then (s, true)
    else
      var before := Passes(env, s, tables, count - 1);
      if before.1 then Pass(env, before.0, tables, |tables|) else before
  }

  function Load(db: map<string, seq<Row>>, tables: seq<Table>): State
    requires forall t :: t in tables ==> t.name in db
  {
    State(db, map name | name in TableNames(tables) :: db[name], [])
  }

  function TableNames(tables: seq<Table>): set<string> {
    set t | t in tables :: t.name
  }

  /** The whole expansion, with the table list in any order. */
  function SeedCoverage(env: Env, db: map<string, seq<Row>>, tables: seq<Table>): State
    requires forall t :: t in tables ==> t.name in db
  {
    Passes(env, Load(db, tables), tables, |tables|).0
  }
}
