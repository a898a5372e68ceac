/**
 The baseline expander clones rows and changes them until every unique index is satisfied.  It
 remembers the keys in use on each index and gives up with an error when it finds no free one.

 The variation of a value, the tables read so far and the keys of rows cloned so far are parameters.
 */
module BaselineExpansion {
  import opened Wrappers
  import opened SeedExpansion

  /** `vary` takes table, column, source value and variant; `cloneKey` takes table, old key and variant. */
  datatype Cloner = Cloner(
    vary: (string, Column, Value, nat) -> Value,
    cloneKey: (string, string, nat) -> Option<Value>,
    parents: map<string, seq<Row>>,
    minimum: nat)
  {
    function Attempts(): nat {
      4 * minimum
    }
  }

  type Occupied = map<seq<string>, set<string>>

  function TrackedIndexes(t: Table): seq<seq<string>> {
    if |t.primaryKeys| > 1 then [t.primaryKeys] + t.uniqueIndexes else t.uniqueIndexes
  }

  function KeysOn(occupied: Occupied, index: seq<string>): set<string> {
    if index in occupied then occupied[index] else {}
  }

  /** A row takes part in an index when its key there exists and is not the empty text. */
  function LiveKey(row: Row, index: seq<string>): Option<string> {
    var key := UniqueKey(row, index);
    if key == Some("") then None else key
  }

  predicate Free(row: Row, index: seq<string>, occupied: Occupied) {
    LiveKey(row, index).None? || LiveKey(row, index).value !in KeysOn(occupied, index)
  }

  function FindKey(keys: seq<ForeignKey>, column: string): Option<ForeignKey> {
    if keys == [] then None
    else if keys[|keys| - 1].column == column then Some(keys[|keys| - 1])
    else FindKey(keys[..|keys| - 1], column)
  }

  // ----- What one index does to the row

  /** The changed row, or None where the column is skipped and the key not looked at again. */
  function ChangeColumn(c: Cloner, t: Table, row: Row, source: Row, column: string, variant: nat,
                        attempt: nat): Option<Row>
  {
    var found := FindColumn(t.columns, column);
    if found.None? || Field(row, column).Null? then None
    else
      match FindKey(t.foreignKeys, column)
      case Some(key) =>
        if !HasRows(c.parents, key.table) then None
        else
          var rows := c.parents[key.table];
          Some(row[column := Field(rows[(variant + attempt) % |rows|], key.refColumn)])
      case None => Some(row[column := c.vary(t.name, found.value, Field(source, column), variant + attempt + 1)])
  }

  /** One round over the columns, ending at the first change that frees the key. */
  function Round(c: Cloner, t: Table, row: Row, source: Row, index: seq<string>, columns: seq<string>,
                 occupied: Occupied, variant: nat, attempt: nat): (Row, bool)
  {
    if columns == [] then (row, false)
    else
      match ChangeColumn(c, t, row, source, columns[0], variant, attempt)
      case None => Round(c, t, row, source, index, columns[1..], occupied, variant, attempt)
      case Some(next) =>
        if Free(next, index, occupied) then (next, true)
        else Round(c, t, next, source, index, columns[1..], occupied, variant, attempt)
  }

  function Rounds(c: Cloner, t: Table, row: Row, source: Row, index: seq<string>, occupied: Occupied, variant: nat,
                  attempt: nat)
    : (Row, bool)
    decreases c.Attempts() - attempt
  {
    if attempt >= c.Attempts() then (row, false)
    else
      var round := Round(c, t, row, source, index, index, occupied, variant, attempt);
      if round.1 then round else Rounds(c, t, round.0, source, index, occupied, variant, attempt + 1)
  }

  function SettleIndex(c: Cloner, t: Table, row: Row, source: Row, index: seq<string>, occupied: Occupied,
                       variant: nat): Option<Row>
  {
    if Free(row, index, occupied) then Some(row)
    else
      var r := Rounds(c, t, row, source, index, occupied, variant, 0);
      if r.1 then Some(r.0) else None
  }

  function Settle(c: Cloner, t: Table, row: Row, source: Row, indexes: seq<seq<string>>, occupied: Occupied,
                  variant: nat): Option<Row>
  {
    if indexes == [] then Some(row)
    else
      match Settle(c, t, row, source, indexes[..|indexes| - 1], occupied, variant)
      case None => None
      case Some(next) => SettleIndex(c, t, next, source, indexes[|indexes| - 1], occupied, variant)
  }

  function Occupy(occupied: Occupied, row: Row, indexes: seq<seq<string>>): Occupied {
    if indexes == [] then occupied
    else
      var before := Occupy(occupied, row, indexes[..|indexes| - 1]);
      var index := indexes[|indexes| - 1];
      match LiveKey(row, index)
      case None => before
      case Some(key) => before[index := KeysOn(before, index) + {key}]
  }

  // ----- The clones of a table

  /** The source row with its foreign keys led to the matching clones, or to rows of a table that is large enough. */
  function Linked(c: Cloner, keys: seq<ForeignKey>, source: Row, variant: nat): Row
    requires variant > 0
  {
    if keys == [] then source
    else
      var before, key := Linked(c, keys[..|keys| - 1], source, variant), keys[|keys| - 1];
      var original := Field(source, key.column);
      if original.Null? then before
      else
        match c.cloneKey(key.table, original.text, variant)
        case Some(value) => before[key.column := value]
        case None =>
          if HasRows(c.parents, key.table) && |c.parents[key.table]| >= c.minimum then
            var rows := c.parents[key.table];
            before[key.column := Field(rows[(variant - 1) % |rows|], key.refColumn)]
          else before
  }

  function VaryPrimary(c: Cloner, t: Table, names: seq<string>, row: Row, source: Row, variant: nat): Row
    requires variant > 0
  {
    if names == [] then row
    else
      var before, name := VaryPrimary(c, t, names[..|names| - 1], row, source, variant), names[|names| - 1];
      var key, column := FindKey(t.foreignKeys, name), FindColumn(t.columns, name);
      if key.Some? && HasRows(c.parents, key.value.table) then
        var rows := c.parents[key.value.table];
        before[name := Field(rows[(variant - 1) % |rows|], key.value.refColumn)]
      else if column.None? then before
      else before[name := c.vary(t.name, column.value, Field(source, name), variant)]
  }

  /** The clone as it is before its unique indexes are settled. */
  function Prepared(c: Cloner, t: Table, source: Row, variant: nat): Row
    requires variant > 0
  {
    var row := Linked(c, t.foreignKeys, source, variant);
    if |t.primaryKeys| > 1 then VaryPrimary(c, t, t.primaryKeys, row, source, variant) else row
  }

  function SourceOf(existing: seq<Row>, variant: nat): Row
    requires existing != [] && variant > 0
  {
    existing[(variant - 1) % |existing|]
  }

  function Register(rows: seq<Row>, indexes: seq<seq<string>>): Occupied {
    if rows == [] then map[] else Occupy(Register(rows[..|rows| - 1], indexes), rows[|rows| - 1], indexes)
  }

  /** The first `count` clones with the register after them; None when one cannot be made unique. */
  function Clones(c: Cloner, t: Table, existing: seq<Row>, count: nat): Option<(seq<Row>, Occupied)>
    requires existing != []
  {
    if count == 0 then Some(([], Register(existing, TrackedIndexes(t))))
    else
      match Clones(c, t, existing, count - 1)
      case None => None
      case Some((rows, occupied)) =>
        var source := SourceOf(existing, count);
        match Settle(c, t, Prepared(c, t, source, count), source, TrackedIndexes(t), occupied, count)
        case None => None
        case Some(row) => Some((rows + [row], Occupy(occupied, row, TrackedIndexes(t))))
  }

  /** What the expansion of a table adds; None is an error, as for a table without rows. */
  function Expansion(c: Cloner, t: Table, existing: seq<Row>): Option<seq<Row>> {
    if existing == [] then None
    else if |existing| >= c.minimum then Some([])
    else match Clones(c, t, existing, c.minimum - |existing|) case None => None case Some((rows, _)) => Some(rows)
  }

  // ----- The expander's own loops

  class KeyRegister {
    const cloner: Cloner
    var occupied: Occupied

    constructor (cloner: Cloner)
      ensures this.cloner == cloner && occupied == map[]
    {
      this.cloner := cloner;
      occupied := map[];
    }

    method AddOccupiedUniqueKeys(row: Row, indexes: seq<seq<string>>)
      modifies this
      ensures occupied == Occupy(old(occupied), row, indexes)
    {
      for i := 0 to |indexes|
        invariant occupied == Occupy(old(occupied), row, indexes[..i])
      {
        assert indexes[..i + 1][..i] == indexes[..i];
        var key := UniqueKey(row, indexes[i]);
        if key.Some? && key.value != "" {
          occupied := occupied[indexes[i] := KeysOn(occupied, indexes[i]) + {key.value}];
        }
      }
      assert indexes[..|indexes|] == indexes;
    }

    /** The attempts for one index whose key is taken. */
    method ResolveIndex(t: Table, built: Row, source: Row, index: seq<string>, variant: nat)
      returns (row: Row, resolved: bool)
      ensures (row, resolved) == Rounds(cloner, t, built, source, index, occupied, variant, 0)
    {
      row, resolved := built, false;
      var attempt := 0;
      while attempt < cloner.Attempts() && !resolved
        invariant resolved ==> (row, true) == Rounds(cloner, t, built, source, index, occupied, variant, 0)
        invariant !resolved ==> Rounds(cloner, t, row, source, index, occupied, variant, attempt)
                                == Rounds(cloner, t, built, source, index, occupied, variant, 0)
      {
        ghost var start := row;
        for i := 0 to |index|
          invariant Round(cloner, t, row, source, index, index[i..], occupied, variant, attempt)
                    == Round(cloner, t, start, source, index, index, occupied, variant, attempt)
          invariant !resolved
        {
          assert index[i..][0] == index[i] && index[i..][1..] == index[i + 1..];
          var changed := ChangeColumn(cloner, t, row, source, index[i], variant, attempt);
          if changed.None? {
            continue;
          }
          row := changed.value;
          if Free(row, index, occupied) {
            resolved := true;
            break;
          }
        }
        attempt := attempt + 1;
      }
    }

    /** Frees every index in turn, then records the row's keys; throws when an index stays taken. */
    method EnsureUniqueIndexes(t: Table, built: Row, source: Row, variant: nat) returns (result: Option<Row>)
      modifies this
      ensures result == Settle(cloner, t, built, source, TrackedIndexes(t), old(occupied), variant)
      ensures occupied == if result.Some? then Occupy(old(occupied), result.value, TrackedIndexes(t)) else old(occupied)
    {
      var row := built;
      var indexes := TrackedIndexes(t);
      for i := 0 to |indexes|
        invariant occupied == old(occupied)
        invariant Settle(cloner, t, built, source, indexes[..i], occupied, variant) == Some(row)
      {
        assert indexes[..i + 1][..i] == indexes[..i];
        if !Free(row, indexes[i], occupied) {
          var resolved;
          ghost var before := row;
          row, resolved := ResolveIndex(t, row, source, indexes[i], variant);
          assert Settle(cloner, t, built, source, indexes[..i + 1], occupied, variant) ==
                 SettleIndex(cloner, t, before, source, indexes[i], occupied, variant) ==
                     if resolved then Some(row) else None;
          if !resolved {
            StaysUnsettled(cloner, t, built, source, indexes, i + 1, occupied, variant);
            return None;
          }
        }
      }
      assert indexes[..|indexes|] == indexes;
      AddOccupiedUniqueKeys(row, indexes);
      return Some(row);
    }

    method LinkRow(t: Table, source: Row, variant: nat) returns (row: Row)
      requires variant > 0
      ensures row == Prepared(cloner, t, source, variant)
    {
      row := source;
      for i := 0 to |t.foreignKeys|
        invariant row == Linked(cloner, t.foreignKeys[..i], source, variant)
      {
        var key := t.foreignKeys[i];
        assert t.foreignKeys[..i + 1][..i] == t.foreignKeys[..i];
        var original := Field(source, key.column);
        if original.Null? {
          continue;
        }
        var clone := cloner.cloneKey(key.table, original.text, variant);
        if clone.Some? {
          row := row[key.column := clone.value];
          continue;
        }
        if HasRows(cloner.parents, key.table) && |cloner.parents[key.table]| >= cloner.minimum {
          var rows := cloner.parents[key.table];
          row := row[key.column := Field(rows[(variant - 1) % |rows|], key.refColumn)];
        }
      }
      assert t.foreignKeys[..|t.foreignKeys|] == t.foreignKeys;
      if |t.primaryKeys| > 1 {
        row := VaryPrimaryKeyColumns(t, row, source, variant);
      }
    }

    method VaryPrimaryKeyColumns(t: Table, linked: Row, source: Row, variant: nat) returns (row: Row)
      requires variant > 0
      ensures row == VaryPrimary(cloner, t, t.primaryKeys, linked, source, variant)
    {
      row := linked;
      for i := 0 to |t.primaryKeys|
        invariant row == VaryPrimary(cloner, t, t.primaryKeys[..i], linked, source, variant)
      {
        var name := t.primaryKeys[i];
        assert t.primaryKeys[..i + 1][..i] == t.primaryKeys[..i];
        var key := FindKey(t.foreignKeys, name);
        if key.Some? && HasRows(cloner.parents, key.value.table) {
          var rows := cloner.parents[key.value.table];
          row := row[name := Field(rows[(variant - 1) % |rows|], key.value.refColumn)];
          continue;
        }
        var column := FindColumn(t.columns, name);
        if column.None? {
          continue;
        }
        row := row[name := cloner.vary(t.name, column.value, Field(source, name), variant)];
      }
      assert t.primaryKeys[..|t.primaryKeys|] == t.primaryKeys;
    }

    method AddClone(t: Table, existing: seq<Row>, variant: nat, ghost rows: seq<Row>) returns (settled: Option<Row>)
      requires existing != [] && variant > 0 && Clones(cloner, t, existing, variant - 1) == Some((rows, occupied))
      modifies this
      ensures Clones(cloner, t, existing, variant) ==
              if settled.None? then None else Some((rows + [settled.value], occupied))
    {
      var source := existing[(variant - 1) % |existing|];
      var row := LinkRow(t, source, variant);
      settled := EnsureUniqueIndexes(t, row, source, variant);
    }

    method RegisterRows(rows: seq<Row>, indexes: seq<seq<string>>)
      requires occupied == map[]
      modifies this
      ensures occupied == Register(rows, indexes)
    {
      for i := 0 to |rows|
        invariant occupied == Register(rows[..i], indexes)
      {
        assert rows[..i + 1][..i] == rows[..i];
        AddOccupiedUniqueKeys(rows[i], indexes);
      }
      assert rows[..|rows|] == rows;
    }

    /** Registers the rows there are, then adds settled clones until the table has the minimum. */
    method ExpandModel(t: Table, existing: seq<Row>) returns (result: Option<seq<Row>>)
      requires occupied == map[]
      modifies this
      ensures result == Expansion(cloner, t, existing)
    {
      if |existing| == 0 {
        return None;
      }
      if |existing| >= cloner.minimum {
        return Some([]);
      }
      var count := cloner.minimum - |existing|;
      RegisterRows(existing, TrackedIndexes(t));
      var rows: seq<Row> := [];
      for variant := 1 to count + 1
        invariant Clones(cloner, t, existing, variant - 1) == Some((rows, occupied))
      {
        var settled := AddClone(t, existing, variant, rows);
        if settled.None? {
          ClonesStayNone(cloner, t, existing, variant, count);
          return None;
        }
        rows := rows + [settled.value];
      }
      return Some(rows);
    }
  }

  lemma {:induction false} ClonesStayNone(c: Cloner, t: Table, existing: seq<Row>, at: nat, count: nat)
    requires existing != [] && at <= count && Clones(c, t, existing, at).None?
    ensures Clones(c, t, existing, count).None?
  {
    if at < count {
      ClonesStayNone(c, t, existing, at, count - 1);
    }
  }

  lemma {:induction false} StaysUnsettled(c: Cloner, t: Table, row: Row, source: Row, indexes: seq<seq<string>>,
                                          count: nat, occupied: Occupied, variant: nat)
    requires count <= |indexes| && Settle(c, t, row, source, indexes[..count], occupied, variant).None?
    ensures Settle(c, t, row, source, indexes, occupied, variant).None?
    decreases |indexes| - count
  {
    if count < |indexes| {
      assert indexes[..count + 1][..count] == indexes[..count];
      StaysUnsettled(c, t, row, source, indexes, count + 1, occupied, variant);
    } else {
      assert indexes[..count] == indexes;
    }
  }
}
