/** What the clones of a table hold, column by column. */
module BaselineContents {
  import opened Wrappers
  import opened SeedExpansion
  import opened SeedIntegrity
  import opened BaselineExpansion
  import opened BaselineOrigins

  // ----- Before the indexes are settled

  /** The row of a parent table that goes with the variant: its rows are used in turn. */
  ghost function InTurn(rows: seq<Row>, variant: nat, key: ForeignKey): Value
    requires |rows| > 0 && variant > 0
  {
    var parent := rows[(variant - 1) % |rows|];
    if key.refColumn in parent then parent[key.refColumn] else Null
  }

  /** A key of the source leads to the clone of its row, else into a large enough table, else stays. */
  ghost predicate KeyCopied(c: Cloner, source: Row, variant: nat, key: ForeignKey, start: Option<Value>)
    requires variant > 0
  {
    if key.column !in source || source[key.column] == Null then start == Held(source, key.column)
    else
      var clone := c.cloneKey(key.table, source[key.column].text, variant);
      if clone.Some? then start == clone
      else if key.table in c.parents && |c.parents[key.table]| > 0 && |c.parents[key.table]| >= c.minimum then
        start == Some(InTurn(c.parents[key.table], variant, key))
      else start == Some(source[key.column])
  }

  lemma {:induction false} LinkedColumns(c: Cloner, t: Table, count: nat, source: Row, variant: nat)
    requires variant > 0 && count <= |t.foreignKeys| && KeysDistinct(t.foreignKeys)
    ensures var r := Linked(c, t.foreignKeys[..count], source, variant);
            && (forall i :: 0 <= i < count ==>
                  KeyCopied(c, source, variant, t.foreignKeys[i], Held(r, t.foreignKeys[i].column)))
            && (forall i :: count <= i < |t.foreignKeys| ==>
                  Held(r, t.foreignKeys[i].column) == Held(source, t.foreignKeys[i].column))
            && forall name :: name !in KeyColumns(t) ==> Held(r, name) == Held(source, name)
  {
    if count > 0 {
      assert t.foreignKeys[..count][..count - 1] == t.foreignKeys[..count - 1];
      LinkedColumns(c, t, count - 1, source, variant);
      var before, last := Linked(c, t.foreignKeys[..count - 1], source, variant), t.foreignKeys[count - 1];
      var after := Linked(c, t.foreignKeys[..count], source, variant);
      assert last in t.foreignKeys && Held(before, last.column) == Held(source, last.column);
      assert forall name :: name != last.column ==> Held(after, name) == Held(before, name);
    }
  }

  lemma {:induction false} FindKeyNone(keys: seq<ForeignKey>, column: string)
    requires forall key :: key in keys ==> key.column != column
    ensures FindKey(keys, column) == None
  {
    if keys != [] {
      assert keys[|keys| - 1] in keys;
      FindKeyNone(keys[..|keys| - 1], column);
    }
  }

  /** The columns of a primary key of several columns: the parent in turn, or a variation of the source's value. */
  ghost predicate PrimaryVaried(c: Cloner, t: Table, source: Row, variant: nat, name: string, start: Option<Value>)
    requires variant > 0
  {
    && (forall key :: key in t.foreignKeys && key.column == name && key.table in c.parents
                      && |c.parents[key.table]| > 0 ==>
          start == Some(InTurn(c.parents[key.table], variant, key)))
    && ((forall key :: key in t.foreignKeys && key.column == name ==>
           key.table !in c.parents || |c.parents[key.table]| == 0) ==>
        forall column :: column in t.columns && column.name == name ==>
          start == Some(c.vary(t.name, column, if name in source then source[name] else Null, variant)))
  }

  lemma PrimaryOneColumn(c: Cloner, t: Table, row: Row, source: Row, variant: nat, name: string)
    requires variant > 0 && KeysDistinct(t.foreignKeys) && ColumnsNamed(t)
    ensures PrimaryVaried(c, t, source, variant, name, Held(VaryPrimary(c, t, [name], row, source, variant), name))
  {
    assert [name][..0] == [] && VaryPrimary(c, t, [], row, source, variant) == row;
    if key :| key in t.foreignKeys && key.column == name {
      FindKeyOf(t.foreignKeys, key);
      forall other | other in t.foreignKeys && other.column == name ensures other == key {
        FindKeyOf(t.foreignKeys, other);
      }
    } else {
      FindKeyNone(t.foreignKeys, name);
    }
    forall column | column in t.columns && column.name == name ensures FindColumn(t.columns, name) == Some(column) {
    }
  }

  lemma {:induction false} PrimaryColumns(c: Cloner, t: Table, names: seq<string>, row: Row, source: Row,
                                          variant: nat, name: string)
    requires variant > 0 && KeysDistinct(t.foreignKeys) && ColumnsNamed(t)
    ensures var end := Held(VaryPrimary(c, t, names, row, source, variant), name);
            if name in names then PrimaryVaried(c, t, source, variant, name, end) else end == Held(row, name)
  {
    if names != [] {
      var front, last := names[..|names| - 1], names[|names| - 1];
      var before := VaryPrimary(c, t, front, row, source, variant);
      PrimaryColumns(c, t, front, row, source, variant, name);
      assert [last][..0] == [] && VaryPrimary(c, t, [last], before, source, variant) ==
             VaryPrimary(c, t, names, row, source, variant);
      if name == last {
        PrimaryOneColumn(c, t, before, source, variant, name);
      }
    }
  }

  /** What a column of the clone starts from: varied in a composite primary key, linked, or copied. */
  ghost predicate Copied(c: Cloner, t: Table, source: Row, variant: nat, name: string, start: Option<Value>)
    requires variant > 0
  {
    if |t.primaryKeys| > 1 && name in t.primaryKeys then PrimaryVaried(c, t, source, variant, name, start)
    else
      && (forall key :: key in t.foreignKeys && key.column == name ==> KeyCopied(c, source, variant, key, start))
      && ((forall key :: key in t.foreignKeys ==> key.column != name) ==>
            start == if name in source then Some(source[name]) else None)
  }

  lemma PreparedColumn(c: Cloner, t: Table, source: Row, variant: nat, name: string)
    requires variant > 0 && KeysDistinct(t.foreignKeys) && ColumnsNamed(t)
    ensures Copied(c, t, source, variant, name, Held(Prepared(c, t, source, variant), name))
  {
    LinkedColumns(c, t, |t.foreignKeys|, source, variant);
    assert t.foreignKeys[..|t.foreignKeys|] == t.foreignKeys;
    var linked := Linked(c, t.foreignKeys, source, variant);
    if |t.primaryKeys| > 1 {
      PrimaryColumns(c, t, t.primaryKeys, linked, source, variant, name);
    }
    forall key | key in t.foreignKeys && key.column == name
      ensures KeyCopied(c, source, variant, key, Held(linked, name))
    {
      var i :| 0 <= i < |t.foreignKeys| && t.foreignKeys[i] == key;
    }
    if forall key :: key in t.foreignKeys ==> key.column != name {
      assert name !in KeyColumns(t);
    }
  }

  // ----- Settling

  /**
   Attempt number a of settling takes the parent row a + 1 places behind the variant's own, or
   varies the source's value with a variant so much larger.
   */
  ghost predicate ChangedTo(c: Cloner, t: Table, source: Row, variant: nat, name: string, attempt: nat, value: Value)
  {
    if exists key :: key in t.foreignKeys && key.column == name then
      exists key :: key in t.foreignKeys && key.column == name
        && key.table in c.parents && |c.parents[key.table]| > 0
        && value == InTurn(c.parents[key.table], variant + attempt + 1, key)
    else
      exists column :: column in t.columns && column.name == name
        && value == c.vary(t.name, column, if name in source then source[name] else Null, variant + attempt + 1)
  }

  /** The value is as before, or, for a column of the index, one of those an attempt gives. */
  ghost predicate KeptOrChanged(c: Cloner, t: Table, source: Row, variant: nat, name: string, changeable: bool,
                                before: Option<Value>, after: Option<Value>)
  {
    || after == before
    || (changeable && after.Some? && before != None && before != Some(Null)
        && exists a: nat :: a < 4 * c.minimum && ChangedTo(c, t, source, variant, name, a, after.value))
  }

  lemma ChangeOneColumn(c: Cloner, t: Table, row: Row, source: Row, changed: string, variant: nat, attempt: nat)
    requires ChangeColumn(c, t, row, source, changed, variant, attempt).Some?
    requires KeysDistinct(t.foreignKeys)
    ensures changed in row && row[changed] != Null
    ensures var next := ChangeColumn(c, t, row, source, changed, variant, attempt).value;
            && changed in next && ChangedTo(c, t, source, variant, changed, attempt, next[changed])
            && forall name :: name != changed ==> Held(next, name) == Held(row, name)
  {
    var next := ChangeColumn(c, t, row, source, changed, variant, attempt).value;
    var found := FindColumn(t.columns, changed).value;
    if key :| key in t.foreignKeys && key.column == changed {
      FindKeyOf(t.foreignKeys, key);
      assert next[changed] == InTurn(c.parents[key.table], variant + attempt + 1, key);
    } else {
      FindKeyNone(t.foreignKeys, changed);
      assert found in t.columns && found.name == changed;
    }
  }

  /** A column is skipped when it is unknown or null, or a key into a table without known rows. */
  lemma ColumnChangesIff(c: Cloner, t: Table, row: Row, source: Row, name: string, variant: nat, attempt: nat)
    requires KeysDistinct(t.foreignKeys)
    ensures ChangeColumn(c, t, row, source, name, variant, attempt).Some? <==>
            && name in row && row[name] != Null && (exists column :: column in t.columns && column.name == name)
            && forall key :: key in t.foreignKeys && key.column == name ==>
                 key.table in c.parents && |c.parents[key.table]| > 0
  {
    if key :| key in t.foreignKeys && key.column == name {
      forall other | other in t.foreignKeys && other.column == name ensures other == key {
        FindKeyOf(t.foreignKeys, key);
        FindKeyOf(t.foreignKeys, other);
      }
      FindKeyOf(t.foreignKeys, key);
    } else {
      FindKeyNone(t.foreignKeys, name);
    }
    var found := FindColumn(t.columns, name);
    assert found.Some? ==> found.value in t.columns && found.value.name == name;
  }

  lemma {:induction false} RoundColumn(c: Cloner, t: Table, row: Row, source: Row, index: seq<string>,
                                       columns: seq<string>, occupied: Occupied, variant: nat, attempt: nat,
                                       name: string)
    requires attempt < c.Attempts() && KeysDistinct(t.foreignKeys)
    ensures KeptOrChanged(c, t, source, variant, name, name in columns, Held(row, name),
                          Held(Round(c, t, row, source, index, columns, occupied, variant, attempt).0, name))
    decreases columns
  {
    if columns != [] {
      var next := ChangeColumn(c, t, row, source, columns[0], variant, attempt);
      if next.Some? {
        ChangeOneColumn(c, t, row, source, columns[0], variant, attempt);
      }
      RoundColumn(c, t, if next.Some? then next.value else row, source, index, columns[1..], occupied, variant,
                  attempt, name);
    }
  }

  lemma {:induction false} RoundsColumn(c: Cloner, t: Table, row: Row, source: Row, index: seq<string>,
                                        occupied: Occupied, variant: nat, attempt: nat, name: string)
    requires KeysDistinct(t.foreignKeys)
    ensures KeptOrChanged(c, t, source, variant, name, name in index, Held(row, name),
                          Held(Rounds(c, t, row, source, index, occupied, variant, attempt).0, name))
    decreases c.Attempts() - attempt
  {
    if attempt < c.Attempts() {
      RoundColumn(c, t, row, source, index, index, occupied, variant, attempt, name);
      var round := Round(c, t, row, source, index, index, occupied, variant, attempt);
      if !round.1 {
        RoundsColumn(c, t, round.0, source, index, occupied, variant, attempt + 1, name);
      }
    }
  }

  ghost predicate InSome(indexes: seq<seq<string>>, name: string) {
    exists index :: index in indexes && name in index
  }

  lemma {:induction false} SettledColumn(c: Cloner, t: Table, row: Row, source: Row, indexes: seq<seq<string>>,
                                         occupied: Occupied, variant: nat, name: string)
    requires KeysDistinct(t.foreignKeys) && Settle(c, t, row, source, indexes, occupied, variant).Some?
    ensures KeptOrChanged(c, t, source, variant, name, InSome(indexes, name), Held(row, name),
                          Held(Settle(c, t, row, source, indexes, occupied, variant).value, name))
  {
    if indexes != [] {
      var front, last := indexes[..|indexes| - 1], indexes[|indexes| - 1];
      SettledColumn(c, t, row, source, front, occupied, variant, name);
      assert InSome(front, name) ==> InSome(indexes, name);
      assert name in last ==> InSome(indexes, name);
      RoundsColumn(c, t, Settle(c, t, row, source, front, occupied, variant).value, source, last, occupied, variant, 0,
                   name);
    }
  }

  // ----- Which change settles an index

  /** The row behind the first `i` columns of attempt `a`, when nothing so far freed the key. */
  function Trial(c: Cloner, t: Table, row: Row, source: Row, index: seq<string>, variant: nat, a: nat, i: nat): Row
    requires i <= |index|
    decreases a, i
  {
    if i > 0 then
      var before := Trial(c, t, row, source, index, variant, a, i - 1);
      var next := ChangeColumn(c, t, before, source, index[i - 1], variant, a);
      if next.Some? then next.value else before
    else if a > 0 then Trial(c, t, row, source, index, variant, a - 1, |index|)
    else row
  }

  /** The change of this column in this attempt makes the key free. */
  predicate FreesAt(c: Cloner, t: Table, row: Row, source: Row, index: seq<string>, occupied: Occupied, variant: nat,
                    a: nat, i: nat)
    requires i < |index|
  {
    var next := ChangeColumn(c, t, Trial(c, t, row, source, index, variant, a, i), source, index[i], variant, a);
    next.Some? && Free(next.value, index, occupied)
  }

  /** No change from attempt `a`, column `i` on, and before attempt `b`, column `j`, frees the key. */
  ghost predicate NoneFrees(c: Cloner, t: Table, row: Row, source: Row, index: seq<string>, occupied: Occupied,
                            variant: nat, a: nat, i: nat, b: nat, j: nat)
  {
    forall d: nat, k: nat :: k < |index| && (a < d || (a == d && i <= k)) && (d < b || (d == b && k < j)) ==>
      !FreesAt(c, t, row, source, index, occupied, variant, d, k)
  }

  lemma TrialStep(c: Cloner, t: Table, row: Row, source: Row, index: seq<string>, occupied: Occupied, variant: nat,
                  a: nat, i: nat)
    requires i < |index|
    ensures var here, next := Trial(c, t, row, source, index, variant, a, i),
                              Trial(c, t, row, source, index, variant, a, i + 1);
            Round(c, t, here, source, index, index[i..], occupied, variant, a) ==
            if FreesAt(c, t, row, source, index, occupied, variant, a, i) then (next, true)
            else Round(c, t, next, source, index, index[i + 1..], occupied, variant, a)
  {
    assert index[i..][0] == index[i] && index[i..][1..] == index[i + 1..];
  }

  lemma {:induction false} RoundTrial(c: Cloner, t: Table, row: Row, source: Row, index: seq<string>,
                                      occupied: Occupied, variant: nat, a: nat, i: nat)
    returns (j: nat)
    requires i <= |index|
    ensures i <= j <= |index| && NoneFrees(c, t, row, source, index, occupied, variant, a, i, a, j)
    ensures var r := Round(c, t, Trial(c, t, row, source, index, variant, a, i), source, index, index[i..], occupied,
                           variant, a);
            && (r.1 <==> j < |index|)
            && (r.1 ==> FreesAt(c, t, row, source, index, occupied, variant, a, j))
            && r.0 == Trial(c, t, row, source, index, variant, a, if r.1 then j + 1 else j)
    decreases |index| - i
  {
    j := i;
    if i < |index| {
      TrialStep(c, t, row, source, index, occupied, variant, a, i);
      if !FreesAt(c, t, row, source, index, occupied, variant, a, i) {
        j := RoundTrial(c, t, row, source, index, occupied, variant, a, i + 1);
      }
    }
  }

  lemma {:induction false} RoundsTrial(c: Cloner, t: Table, row: Row, source: Row, index: seq<string>,
                                       occupied: Occupied, variant: nat, a: nat)
    returns (b: nat, j: nat)
    requires a <= 4 * c.minimum
    ensures NoneFrees(c, t, row, source, index, occupied, variant, a, 0, b, j)
    ensures var r := Rounds(c, t, Trial(c, t, row, source, index, variant, a, 0), source, index, occupied, variant, a);
            if r.1 then
              && b < 4 * c.minimum && j < |index| && FreesAt(c, t, row, source, index, occupied, variant, b, j)
              && r.0 == Trial(c, t, row, source, index, variant, b, j + 1)
            else b == 4 * c.minimum && j == 0
    decreases 4 * c.minimum - a
  {
    b, j := a, 0;
    if a < 4 * c.minimum {
      assert index[0..] == index;
      j := RoundTrial(c, t, row, source, index, occupied, variant, a, 0);
      if j == |index| {
        assert Trial(c, t, row, source, index, variant, a + 1, 0) == Trial(c, t, row, source, index, variant, a, j);
        b, j := RoundsTrial(c, t, row, source, index, occupied, variant, a + 1);
      }
    }
  }

  /**
   An index whose key is taken is settled by the first change that frees it, attempt after attempt
   and column after column; it is given up if and only if no change of the attempts, four times the
   minimum, does.
   */
  lemma FirstFreeingChange(c: Cloner, t: Table, row: Row, source: Row, index: seq<string>, occupied: Occupied,
                           variant: nat)
    returns (a: nat, i: nat)
    requires !Free(row, index, occupied)
    ensures NoneFrees(c, t, row, source, index, occupied, variant, 0, 0, a, i)
    ensures match SettleIndex(c, t, row, source, index, occupied, variant)
            case None => a == 4 * c.minimum && i == 0
            case Some(settled) =>
              && a < 4 * c.minimum && i < |index| && FreesAt(c, t, row, source, index, occupied, variant, a, i)
              && settled == Trial(c, t, row, source, index, variant, a, i + 1)
  {
    a, i := RoundsTrial(c, t, row, source, index, occupied, variant, 0);
  }

  // ----- The clones of a table

  /** Every index that is settled: the primary key only when it has several columns. */
  ghost predicate InSettledIndex(t: Table, name: string) {
    || (|t.primaryKeys| > 1 && name in t.primaryKeys)
    || exists index :: index in t.uniqueIndexes && name in index
  }

  lemma InSettledIndexIff(t: Table, name: string)
    ensures InSome(TrackedIndexes(t), name) <==> InSettledIndex(t, name)
  {
    if |t.primaryKeys| > 1 && name in t.primaryKeys {
      assert TrackedIndexes(t)[0] == t.primaryKeys;
      assert InSome(TrackedIndexes(t), name);
    }
  }

  /** The clone's column is as prepared from the source, or settled from that. */
  ghost predicate ClonedColumn(c: Cloner, t: Table, source: Row, variant: nat, name: string, end: Option<Value>)
    requires variant > 0
  {
    exists start :: Copied(c, t, source, variant, name, start)
      && KeptOrChanged(c, t, source, variant, name, InSettledIndex(t, name), start, end)
  }

  lemma OneCloneColumn(c: Cloner, t: Table, source: Row, occupied: Occupied, variant: nat, name: string)
    requires variant > 0 && KeysDistinct(t.foreignKeys) && ColumnsNamed(t)
    requires Settle(c, t, Prepared(c, t, source, variant), source, TrackedIndexes(t), occupied, variant).Some?
    ensures var row := Settle(c, t, Prepared(c, t, source, variant), source, TrackedIndexes(t), occupied, variant);
            ClonedColumn(c, t, source, variant, name, Held(row.value, name))
  {
    PreparedColumn(c, t, source, variant, name);
    SettledColumn(c, t, Prepared(c, t, source, variant), source, TrackedIndexes(t), occupied, variant, name);
    InSettledIndexIff(t, name);
  }

  lemma {:induction false} CloneColumn(c: Cloner, t: Table, existing: seq<Row>, count: nat, i: nat, name: string)
    requires existing != [] && Clones(c, t, existing, count).Some? && i < count
    requires KeysDistinct(t.foreignKeys) && ColumnsNamed(t)
    ensures var rows := Clones(c, t, existing, count).value.0;
            && |rows| == count
            && ClonedColumn(c, t, existing[i % |existing|], i + 1, name, Held(rows[i], name))
  {
    CloneCount(c, t, existing, count);
    CloneCount(c, t, existing, count - 1);
    if i < count - 1 {
      CloneColumn(c, t, existing, count - 1, i, name);
    } else {
      OneCloneColumn(c, t, SourceOf(existing, count), Clones(c, t, existing, count - 1).value.1, count, name);
    }
  }

  lemma {:induction false} CloneCount(c: Cloner, t: Table, existing: seq<Row>, count: nat)
    requires existing != [] && Clones(c, t, existing, count).Some?
    ensures |Clones(c, t, existing, count).value.0| == count
  {
    if count > 0 {
      CloneCount(c, t, existing, count - 1);
    }
  }

  /**
   Clone number i of a table is made from row i modulo the number of rows there were.  Each of its
   columns is copied, linked or varied from that row, and only a column of an index that is
   settled can be changed after that, to a value one of the attempts gives.
   */
  lemma CloneContents(c: Cloner, t: Table, existing: seq<Row>, i: nat, name: string)
    requires KeysDistinct(t.foreignKeys) && ColumnsNamed(t)
    requires Expansion(c, t, existing).Some? && i < |Expansion(c, t, existing).value|
    ensures |existing| > 0
    ensures ClonedColumn(c, t, existing[i % |existing|], i + 1, name, Held(Expansion(c, t, existing).value[i], name))
  {
    var count := c.minimum - |existing|;
    CloneCount(c, t, existing, count);
    CloneColumn(c, t, existing, count, i, name);
  }

  /** A column in no foreign key and no settled index is copied. */
  lemma PlainColumnCopied(c: Cloner, t: Table, existing: seq<Row>, i: nat, name: string)
    requires KeysDistinct(t.foreignKeys) && ColumnsNamed(t)
    requires Expansion(c, t, existing).Some? && i < |Expansion(c, t, existing).value|
    requires |t.primaryKeys| > 1 ==> name !in t.primaryKeys
    requires forall index :: index in t.uniqueIndexes ==> name !in index
    requires forall key :: key in t.foreignKeys ==> key.column != name
    ensures |existing| > 0
    ensures var row, source := Expansion(c, t, existing).value[i], existing[i % |existing|];
            (name in row <==> name in source) && (name in row ==> row[name] == source[name])
  {
    CloneContents(c, t, existing, i, name);
    assert !InSettledIndex(t, name);
    assert Held(Expansion(c, t, existing).value[i], name) == Held(existing[i % |existing|], name);
  }

  /** A key column in no settled index: the clone of the source's parent, a parent in turn, or the source's. */
  lemma KeyColumnLinked(c: Cloner, t: Table, existing: seq<Row>, i: nat, key: ForeignKey)
    requires KeysDistinct(t.foreignKeys) && ColumnsNamed(t) && key in t.foreignKeys
    requires Expansion(c, t, existing).Some? && i < |Expansion(c, t, existing).value|
    requires |t.primaryKeys| > 1 ==> key.column !in t.primaryKeys
    requires forall index :: index in t.uniqueIndexes ==> key.column !in index
    ensures |existing| > 0
    ensures KeyCopied(c, existing[i % |existing|], i + 1, key, Held(Expansion(c, t, existing).value[i], key.column))
  {
    CloneContents(c, t, existing, i, key.column);
    assert !InSettledIndex(t, key.column);
  }
}
