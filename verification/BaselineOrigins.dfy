/**
 Where the values of a cloned row come from, and why its foreign keys still point at rows.
 */
module BaselineOrigins {
  import opened Wrappers
  import opened SeedExpansion
  import opened SeedIntegrity
  import opened BaselineExpansion

  // ----- What settling can do to one column

  /** Every value a change can give the column has the property. */
  ghost predicate Closed(c: Cloner, t: Table, source: Row, column: string, P: Value -> bool) {
    match FindKey(t.foreignKeys, column)
    case Some(key) =>
      HasRows(c.parents, key.table) ==> forall p :: p in c.parents[key.table] ==> P(Field(p, key.refColumn))
    case None =>
      FindColumn(t.columns, column).Some? ==>
        forall v: nat :: v >= 2 ==> P(c.vary(t.name, FindColumn(t.columns, column).value, Field(source, column), v))
  }

  lemma ChangeValue(c: Cloner, t: Table, row: Row, source: Row, changed: string, variant: nat, attempt: nat,
                    column: string, P: Value -> bool)
    requires variant > 0 && P(Field(row, column)) && ChangeColumn(c, t, row, source, changed, variant, attempt).Some?
    requires changed == column && Field(row, column) != Null ==> Closed(c, t, source, column, P)
    ensures P(Field(ChangeColumn(c, t, row, source, changed, variant, attempt).value, column))
  {
    if changed == column && FindKey(t.foreignKeys, column).Some? {
      var parents := c.parents[FindKey(t.foreignKeys, column).value.table];
      assert parents[(variant + attempt) % |parents|] in parents;
    }
  }

  lemma {:induction false} RoundValue(c: Cloner, t: Table, row: Row, source: Row, index: seq<string>,
                                      columns: seq<string>, occupied: Occupied, variant: nat, attempt: nat,
                                      column: string, P: Value -> bool)
    requires variant > 0 && P(Field(row, column))
    requires column in columns && Field(row, column) != Null ==> Closed(c, t, source, column, P)
    ensures var r := Round(c, t, row, source, index, columns, occupied, variant, attempt);
            P(Field(r.0, column)) && (Field(row, column) == Null ==> Field(r.0, column) == Null)
    decreases columns
  {
    if columns != [] {
      var next := ChangeColumn(c, t, row, source, columns[0], variant, attempt);
      if next.Some? {
        ChangeValue(c, t, row, source, columns[0], variant, attempt, column, P);
      }
      RoundValue(c, t, if next.Some? then next.value else row, source, index, columns[1..], occupied, variant, attempt,
                 column, P);
    }
  }

  lemma {:induction false} RoundsValue(c: Cloner, t: Table, row: Row, source: Row, index: seq<string>,
                                       occupied: Occupied, variant: nat, attempt: nat, column: string, P: Value -> bool)
    requires variant > 0 && P(Field(row, column))
    requires column in index && Field(row, column) != Null ==> Closed(c, t, source, column, P)
    ensures P(Field(Rounds(c, t, row, source, index, occupied, variant, attempt).0, column))
    decreases c.Attempts() - attempt
  {
    if attempt < c.Attempts() {
      RoundValue(c, t, row, source, index, index, occupied, variant, attempt, column, P);
      var round := Round(c, t, row, source, index, index, occupied, variant, attempt);
      if !round.1 {
        RoundsValue(c, t, round.0, source, index, occupied, variant, attempt + 1, column, P);
      }
    }
  }

  /** A property of the column's value that changes cannot break survives settling. */
  lemma {:induction false} SettleValue(c: Cloner, t: Table, row: Row, source: Row, indexes: seq<seq<string>>,
                                       occupied: Occupied, variant: nat, column: string, P: Value -> bool)
    requires variant > 0 && P(Field(row, column)) && Closed(c, t, source, column, P)
    requires Settle(c, t, row, source, indexes, occupied, variant).Some?
    ensures P(Field(Settle(c, t, row, source, indexes, occupied, variant).value, column))
  {
    if indexes != [] {
      var front, last := indexes[..|indexes| - 1], indexes[|indexes| - 1];
      SettleValue(c, t, row, source, front, occupied, variant, column, P);
      var before := Settle(c, t, row, source, front, occupied, variant).value;
      RoundsValue(c, t, before, source, last, occupied, variant, 0, column, P);
    }
  }

  // ----- Foreign keys of a clone

  lemma {:induction false} FindKeyOf(keys: seq<ForeignKey>, key: ForeignKey)
    requires KeysDistinct(keys) && key in keys
    ensures FindKey(keys, key.column) == Some(key)
  {
    var i :| 0 <= i < |keys| && keys[i] == key;
    if i < |keys| - 1 {
      assert keys[..|keys| - 1][i] == key;
      FindKeyOf(keys[..|keys| - 1], key);
    }
  }

  ghost predicate ParentValue(c: Cloner, key: ForeignKey, value: Value) {
    key.table in c.parents && exists p :: p in c.parents[key.table] && Field(p, key.refColumn) == value
  }

  ghost predicate CloneValue(c: Cloner, key: ForeignKey, source: Row, value: Value) {
    Field(source, key.column) != Null
    && exists v: nat :: c.cloneKey(key.table, Field(source, key.column).text, v) == Some(value)
  }

  ghost predicate VariedValue(c: Cloner, t: Table, column: string, source: Row, value: Value) {
    FindColumn(t.columns, column).Some?
    && exists v: nat :: c.vary(t.name, FindColumn(t.columns, column).value, Field(source, column), v) == value
  }

  /** The column belongs to a primary key of several columns, which is varied where no parent rows are known. */
  predicate VariedKey(c: Cloner, t: Table, key: ForeignKey) {
    |t.primaryKeys| > 1 && key.column in t.primaryKeys && !HasRows(c.parents, key.table)
  }

  /** The source's value, the key of the matching clone, a value of a parent row, or a variation. */
  ghost predicate KeyOrigin(c: Cloner, t: Table, source: Row, key: ForeignKey, value: Value) {
    || value == Field(source, key.column)
    || CloneValue(c, key, source, value)
    || ParentValue(c, key, value)
    || (VariedKey(c, t, key) && VariedValue(c, t, key.column, source, value))
  }

  lemma {:induction false} LinkedKey(c: Cloner, t: Table, count: nat, source: Row, variant: nat, key: ForeignKey)
    requires variant > 0 && count <= |t.foreignKeys| && KeysDistinct(t.foreignKeys) && key in t.foreignKeys
    ensures KeyOrigin(c, t, source, key, Field(Linked(c, t.foreignKeys[..count], source, variant), key.column))
  {
    if count > 0 {
      var last := t.foreignKeys[count - 1];
      assert t.foreignKeys[..count][..count - 1] == t.foreignKeys[..count - 1];
      LinkedKey(c, t, count - 1, source, variant, key);
      if last.column == key.column {
        FindKeyOf(t.foreignKeys, key);
        FindKeyOf(t.foreignKeys, last);
        if HasRows(c.parents, key.table) {
          assert c.parents[key.table][(variant - 1) % |c.parents[key.table]|] in c.parents[key.table];
        }
      }
    }
  }

  lemma {:induction false} VaryPrimaryKey(c: Cloner, t: Table, names: seq<string>, row: Row, source: Row, variant: nat,
                                          key: ForeignKey)
    requires variant > 0 && KeysDistinct(t.foreignKeys) && key in t.foreignKeys
    requires |t.primaryKeys| > 1 && forall name :: name in names ==> name in t.primaryKeys
    requires KeyOrigin(c, t, source, key, Field(row, key.column))
    ensures KeyOrigin(c, t, source, key, Field(VaryPrimary(c, t, names, row, source, variant), key.column))
  {
    if names != [] {
      VaryPrimaryKey(c, t, names[..|names| - 1], row, source, variant, key);
      if names[|names| - 1] == key.column {
        FindKeyOf(t.foreignKeys, key);
        if HasRows(c.parents, key.table) {
          assert c.parents[key.table][(variant - 1) % |c.parents[key.table]|] in c.parents[key.table];
        }
      }
    }
  }

  /** Where a foreign key column of a clone gets its value before its indexes are settled. */
  lemma PreparedKey(c: Cloner, t: Table, source: Row, variant: nat, key: ForeignKey)
    requires variant > 0 && KeysDistinct(t.foreignKeys) && key in t.foreignKeys
    ensures KeyOrigin(c, t, source, key, Field(Prepared(c, t, source, variant), key.column))
  {
    LinkedKey(c, t, |t.foreignKeys|, source, variant, key);
    assert t.foreignKeys[..|t.foreignKeys|] == t.foreignKeys;
    if |t.primaryKeys| > 1 {
      VaryPrimaryKey(c, t, t.primaryKeys, Linked(c, t.foreignKeys, source, variant), source, variant, key);
    }
  }

  /** Settling only ever takes other values of parent rows. */
  lemma SettledKey(c: Cloner, t: Table, source: Row, indexes: seq<seq<string>>, occupied: Occupied, variant: nat,
                   key: ForeignKey)
    requires variant > 0 && KeysDistinct(t.foreignKeys) && key in t.foreignKeys
    requires Settle(c, t, Prepared(c, t, source, variant), source, indexes, occupied, variant).Some?
    ensures var row := Settle(c, t, Prepared(c, t, source, variant), source, indexes, occupied, variant).value;
            KeyOrigin(c, t, source, key, Field(row, key.column))
  {
    PreparedKey(c, t, source, variant, key);
    FindKeyOf(t.foreignKeys, key);
    SettleValue(c, t, Prepared(c, t, source, variant), source, indexes, occupied, variant, key.column,
                value => KeyOrigin(c, t, source, key, value));
  }

  lemma {:induction false} CloneKeys(c: Cloner, t: Table, existing: seq<Row>, count: nat, key: ForeignKey, row: Row)
    requires existing != [] && Clones(c, t, existing, count).Some? && row in Clones(c, t, existing, count).value.0
    requires KeysDistinct(t.foreignKeys) && key in t.foreignKeys
    ensures exists source :: source in existing && KeyOrigin(c, t, source, key, Field(row, key.column))
  {
    var (rows, occupied) := Clones(c, t, existing, count - 1).value;
    if row in rows {
      CloneKeys(c, t, existing, count - 1, key, row);
    } else {
      var source := SourceOf(existing, count);
      assert source in existing;
      SettledKey(c, t, source, TrackedIndexes(t), occupied, count, key);
    }
  }

  // ----- Clones refer to rows

  /** Some row of the parent table has this text in the referenced column. */
  ghost predicate RefersTo(stored: seq<Row>, key: ForeignKey, value: Value) {
    exists p :: p in stored && SameText(value, Field(p, key.refColumn))
  }

  ghost predicate ParentText(c: Cloner, key: ForeignKey, value: Value) {
    RefersTo(RowsOf(c.parents, key.table), key, value)
  }

  /** The keys of cloned rows are keys of rows read back, and null is varied to null. */
  ghost predicate ClonesKnown(c: Cloner, t: Table) {
    && (forall key, text, v, value ::
          key in t.foreignKeys && c.cloneKey(key.table, text, v) == Some(value) ==> ParentText(c, key, value))
    && forall column, v :: c.vary(t.name, column, Null, v) == Null
  }

  lemma KeyOriginRefers(c: Cloner, t: Table, source: Row, key: ForeignKey, value: Value, stored: seq<Row>)
    requires ClonesKnown(c, t) && key in t.foreignKeys && KeyOrigin(c, t, source, key, value) && value != Null
    requires Field(source, key.column) != Null ==> RefersTo(stored, key, Field(source, key.column))
    requires forall p :: p in RowsOf(c.parents, key.table) ==> p in stored
    requires VariedKey(c, t, key) ==> Field(source, key.column) == Null
    ensures RefersTo(stored, key, value)
  {
    if ParentValue(c, key, value) {
      var p :| p in c.parents[key.table] && Field(p, key.refColumn) == value;
      assert p in RowsOf(c.parents, key.table);
    } else if CloneValue(c, key, source, value) {
      assert ParentText(c, key, value);
      var p :| p in RowsOf(c.parents, key.table) && SameText(value, Field(p, key.refColumn));
    }
  }

  /**
   If the foreign keys of the existing rows point at stored rows of the parent table, so do those
   of every clone, also after their unique indexes were settled.  The rows read so far are stored
   ones; a table not read yet may have any rows, but then the key must be no part of a primary key
   of several columns.
   */
  lemma {:induction false} ClonesRefer(c: Cloner, t: Table, existing: seq<Row>, count: nat, key: ForeignKey,
                                       stored: seq<Row>)
    requires existing != [] && Clones(c, t, existing, count).Some?
    requires KeysDistinct(t.foreignKeys) && key in t.foreignKeys && ClonesKnown(c, t)
    requires Refers(existing, stored, key) && forall p :: p in RowsOf(c.parents, key.table) ==> p in stored
    requires VariedKey(c, t, key) ==> forall source :: source in existing ==> Field(source, key.column) == Null
    ensures Refers(Clones(c, t, existing, count).value.0, stored, key)
  {
    var rows := Clones(c, t, existing, count).value.0;
    forall row | row in rows && !Field(row, key.column).Null? ensures RefersTo(stored, key, Field(row, key.column)) {
      CloneKeys(c, t, existing, count, key, row);
      var source :| source in existing && KeyOrigin(c, t, source, key, Field(row, key.column));
      KeyOriginRefers(c, t, source, key, Field(row, key.column), stored);
    }
  }

  lemma {:induction false} VaryPrimaryVaries(c: Cloner, t: Table, names: seq<string>, row: Row, source: Row,
                                             variant: nat, key: ForeignKey)
    requires variant > 0 && KeysDistinct(t.foreignKeys) && key in t.foreignKeys
    requires key.column in names && !HasRows(c.parents, key.table) && FindColumn(t.columns, key.column).Some?
    ensures Field(VaryPrimary(c, t, names, row, source, variant), key.column)
         == c.vary(t.name, FindColumn(t.columns, key.column).value, Field(source, key.column), variant)
  {
    var front, last := names[..|names| - 1], names[|names| - 1];
    FindKeyOf(t.foreignKeys, key);
    if last != key.column {
      assert key.column in front;
      VaryPrimaryVaries(c, t, front, row, source, variant, key);
    }
  }

  /** A key in a primary key of several columns, into a table without known rows, is varied like any text. */
  lemma UnreadPrimaryKeyIsVaried(c: Cloner, t: Table, source: Row, variant: nat, key: ForeignKey)
    requires variant > 0 && KeysDistinct(t.foreignKeys) && key in t.foreignKeys
    requires VariedKey(c, t, key) && FindColumn(t.columns, key.column).Some?
    ensures Field(Prepared(c, t, source, variant), key.column)
         == c.vary(t.name, FindColumn(t.columns, key.column).value, Field(source, key.column), variant)
  {
    VaryPrimaryVaries(c, t, t.primaryKeys, Linked(c, t.foreignKeys, source, variant), source, variant, key);
  }
}
