/**
 When a unique conflict is given up.

 On an index with a column that varies, a hundred rounds are too many for few rows to block them
 all.  On an index made of foreign keys alone no round changes anything, so a table stops exactly
 when the keys its variants take from the parent rows repeat.
 */
module SeedConflicts {
  import opened Wrappers
  import opened SeedExpansion
  import opened SeedFixpoint
  import opened SeedIntegrity

  const SEPARATOR: char := '\U{001f}'

  // ----- Keys of texts without the separator can be taken apart

  predicate Clean(value: Value) {
    value.Null? || SEPARATOR !in value.text
  }

  ghost predicate CleanRow(row: Row) {
    forall column :: column in row ==> Clean(row[column])
  }

  ghost predicate CleanRows(rows: seq<Row>) {
    forall row :: row in rows ==> CleanRow(row)
  }

  lemma NoneBehind(a: string, x: string)
    requires SEPARATOR !in x
    ensures var text := a + [SEPARATOR] + x;
            text[|a|] == SEPARATOR && forall k :: |a| < k < |text| ==> text[k] != SEPARATOR
  {
    var text := a + [SEPARATOR] + x;
    forall k | |a| < k < |text| ensures text[k] != SEPARATOR {
      assert text[k] == x[k - |a| - 1];
    }
  }

  lemma LastPart(a: string, x: string, b: string, y: string)
    requires a + [SEPARATOR] + x == b + [SEPARATOR] + y && SEPARATOR !in x && SEPARATOR !in y
    ensures a == b && x == y
  {
    var left, right := a + [SEPARATOR] + x, b + [SEPARATOR] + y;
    NoneBehind(a, x);
    NoneBehind(b, y);
    assert a == left[..|a|] && b == right[..|b|];
    assert x == left[|a| + 1..] && y == right[|b| + 1..];
  }

  lemma {:induction false} JoinedReads(a: Row, b: Row, index: seq<string>, column: string)
    requires forall c :: c in index ==> Field(a, c) != Null && Field(b, c) != Null
    requires CleanRow(a) && CleanRow(b) && Joined(a, index) == Joined(b, index) && column in index
    ensures Field(a, column).text == Field(b, column).text
  {
    if |index| > 1 {
      var front, last := index[..|index| - 1], index[|index| - 1];
      LastPart(Joined(a, front), Field(a, last).text, Joined(b, front), Field(b, last).text);
      if column != last {
        assert column in front;
        JoinedReads(a, b, front, column);
      }
    }
  }

  // ----- What a round of variation does to a column

  /** From texts without the separator the generator makes such texts for the columns of this table. */
  ghost predicate CleanGenerator(env: Env, t: Table) {
    && (forall column, source: Option<Value>, variant ::
          column in t.columns && (source.Some? ==> Clean(source.value)) ==>
            Clean(env.scalar(t.name, column, source, variant)))
    && forall variant :: Clean(env.stamp(variant))
  }

  /** The texts the generator makes of any two sources for two variants. */
  ghost predicate Differ(env: Env, t: Table, column: Column, v: int, w: int) {
    forall a, b ::
      env.scalar(t.name, column, a, v) == Null || env.scalar(t.name, column, b, w) == Null
      || env.scalar(t.name, column, a, v).text != env.scalar(t.name, column, b, w).text
  }

  /** The column is no foreign key, and its texts differ for any two variants a run can ask for. */
  ghost predicate Distinctive(env: Env, t: Table, name: string) {
    && FindColumn(t.columns, name).Some? && name !in KeyColumns(t)
    && forall v, w :: 0 < v < w <= Target(env, t) + MAX_ATTEMPTS ==>
       Differ(env, t, FindColumn(t.columns, name).value, v, w)
  }

  /** The index is made of foreign keys alone, as is the empty one of a table without a primary key. */
  ghost predicate Rigid(t: Table, index: seq<string>) {
    forall name :: name in index ==> name in KeyColumns(t)
  }

  ghost predicate Varies(env: Env, t: Table, index: seq<string>) {
    exists name :: name in index && Distinctive(env, t, name)
  }

  ghost predicate TwoKinds(env: Env, t: Table) {
    forall index :: index in Tracked(t) ==> Rigid(t, index) || Varies(env, t, index)
  }

  /** The positions of the indexes that are not made of foreign keys alone. */
  ghost function VaryingIndexes(t: Table): set<nat> {
    set n: nat | n < |Tracked(t)| && !Rigid(t, Tracked(t)[n])
  }

  ghost predicate Varied(env: Env, t: Table, row: Row, name: string, variant: int)
    requires FindColumn(t.columns, name).Some?
  {
    exists source :: Held(row, name) == Some(env.scalar(t.name, FindColumn(t.columns, name).value, source, variant))
  }

  lemma VaryColumnMeaning(env: Env, t: Table, row: Row, other: string, variant: int, name: string)
    requires FindColumn(t.columns, name).Some? && name !in KeyColumns(t)
    ensures name == other || Varied(env, t, row, name, variant) ==>
              Varied(env, t, VaryColumn(env, t, row, other, variant), name, variant)
  {
    var next := VaryColumn(env, t, row, other, variant);
    if name == other {
      assert Held(next, name) == Some(env.scalar(t.name, FindColumn(t.columns, name).value, Held(row, name), variant));
    } else {
      assert Held(next, name) == Held(row, name);
    }
  }

  lemma {:induction false} VaryIndexMeaning(env: Env, t: Table, row: Row, index: seq<string>, variant: int,
                                            name: string)
    requires FindColumn(t.columns, name).Some? && name !in KeyColumns(t)
    requires name in index || Varied(env, t, row, name, variant)
    ensures Varied(env, t, VaryIndex(env, t, row, index, variant), name, variant)
  {
    if index != [] {
      var front, last := index[..|index| - 1], index[|index| - 1];
      if name in front || Varied(env, t, row, name, variant) {
        VaryIndexMeaning(env, t, row, front, variant, name);
      }
      VaryColumnMeaning(env, t, VaryIndex(env, t, row, front, variant), last, variant, name);
    }
  }

  lemma {:induction false} VaryMeaning(env: Env, t: Table, row: Row, indexes: seq<seq<string>>, variant: int, n: nat,
                                       name: string)
    requires FindColumn(t.columns, name).Some? && name !in KeyColumns(t)
    requires n < |indexes| && name in indexes[n]
    ensures Varied(env, t, Vary(env, t, row, indexes, variant), name, variant)
  {
    var front, last := indexes[..|indexes| - 1], indexes[|indexes| - 1];
    if n < |front| {
      VaryMeaning(env, t, row, front, variant, n, name);
    }
    VaryIndexMeaning(env, t, Vary(env, t, row, front, variant), last, variant, name);
  }

  lemma VaryColumnClean(env: Env, t: Table, row: Row, name: string, variant: int)
    requires CleanGenerator(env, t) && CleanRow(row)
    ensures CleanRow(VaryColumn(env, t, row, name, variant))
  {
  }

  lemma {:induction false} VaryIndexClean(env: Env, t: Table, row: Row, index: seq<string>, variant: int)
    requires CleanGenerator(env, t) && CleanRow(row)
    ensures CleanRow(VaryIndex(env, t, row, index, variant))
  {
    if index != [] {
      var front, last := index[..|index| - 1], index[|index| - 1];
      VaryIndexClean(env, t, row, front, variant);
      VaryColumnClean(env, t, VaryIndex(env, t, row, front, variant), last, variant);
    }
  }

  lemma {:induction false} VaryClean(env: Env, t: Table, row: Row, indexes: seq<seq<string>>, variant: int)
    requires CleanGenerator(env, t) && CleanRow(row)
    ensures CleanRow(Vary(env, t, row, indexes, variant))
  {
    if indexes != [] {
      var front := indexes[..|indexes| - 1];
      VaryClean(env, t, row, front, variant);
      VaryIndexClean(env, t, Vary(env, t, row, front, variant), indexes[|indexes| - 1], variant);
    }
  }

  lemma {:induction false} VariationClean(env: Env, t: Table, row: Row, variant: int, count: nat)
    requires CleanGenerator(env, t) && CleanRow(row)
    ensures CleanRow(Variation(env, t, row, variant, count))
  {
    if count > 0 {
      VariationClean(env, t, row, variant, count - 1);
      VaryClean(env, t, Variation(env, t, row, variant, count - 1), Tracked(t), variant + count);
    }
  }

  // ----- Which row blocks which round

  lemma {:induction false} ConflictOnWitness(row: Row, rows: seq<Row>, index: seq<string>) returns (i: nat)
    requires ConflictOn(row, rows, index)
    ensures i < |rows| && SameKey(row, rows[i], index)
  {
    if SameKey(row, rows[|rows| - 1], index) {
      i := |rows| - 1;
    } else {
      i := ConflictOnWitness(row, rows[..|rows| - 1], index);
    }
  }

  lemma {:induction false} ConflictWitness(row: Row, rows: seq<Row>, indexes: seq<seq<string>>) returns (n: nat, i: nat)
    requires Conflict(row, rows, indexes)
    ensures n < |indexes| && i < |rows| && SameKey(row, rows[i], indexes[n])
  {
    if ConflictOn(row, rows, indexes[|indexes| - 1]) {
      n := |indexes| - 1;
      i := ConflictOnWitness(row, rows, indexes[n]);
    } else {
      n, i := ConflictWitness(row, rows, indexes[..|indexes| - 1]);
    }
  }

  lemma VariationVaries(env: Env, t: Table, row: Row, variant: int, count: nat, n: nat, name: string)
    requires FindColumn(t.columns, name).Some? && name !in KeyColumns(t)
    requires count > 0 && n < |Tracked(t)| && name in Tracked(t)[n]
    ensures Varied(env, t, Variation(env, t, row, variant, count), name, variant + count)
  {
    VaryMeaning(env, t, Variation(env, t, row, variant, count - 1), Tracked(t), variant + count, n, name);
  }

  /** One row blocks at most one round on each index that varies. */
  lemma BlocksOneRound(env: Env, t: Table, row: Row, other: Row, variant: int, n: nat, a: nat, b: nat)
    requires CleanGenerator(env, t) && CleanRow(row) && n < |Tracked(t)| && Varies(env, t, Tracked(t)[n])
    requires 0 < variant <= Target(env, t) && 0 < a < b <= MAX_ATTEMPTS
    requires SameKey(Variation(env, t, row, variant, a), other, Tracked(t)[n])
    ensures !SameKey(Variation(env, t, row, variant, b), other, Tracked(t)[n])
  {
    var index := Tracked(t)[n];
    var name :| name in index && Distinctive(env, t, name);
    var x, y := Variation(env, t, row, variant, a), Variation(env, t, row, variant, b);
    assert Differ(env, t, FindColumn(t.columns, name).value, variant + a, variant + b);
    VariationClean(env, t, row, variant, a);
    VariationClean(env, t, row, variant, b);
    VariationVaries(env, t, row, variant, a, n, name);
    VariationVaries(env, t, row, variant, b, n, name);
    if SameKey(y, other, index) {
      JoinedReads(x, y, index, name);
    }
  }

  /** A set of no more pairs than needed to hold every pair of a number and a row. */
  lemma {:induction false} Slots(numbers: set<nat>, rows: nat) returns (room: set<(nat, nat)>)
    ensures |room| <= |numbers| * rows
    ensures forall n: nat, i: nat :: n in numbers && i < rows ==> (n, i) in room
    decreases |numbers|
  {
    room := {};
    if numbers != {} {
      var last :| last in numbers;
      var fewer := numbers - {last};
      room := Slots(fewer, rows);
      var size := |room|;
      for i := 0 to rows
        invariant |room| <= size + i
        invariant forall n: nat, k: nat :: n in numbers && k < (if n == last then i else rows) ==> (n, k) in room
      {
        room := room + {(last, i)};
      }
      assert |numbers| * rows == |fewer| * rows + rows;
    }
  }

  /** On the index and through the row of this slot, the round's variation is in conflict. */
  ghost predicate Blocks(env: Env, t: Table, row: Row, rows: seq<Row>, variant: int, count: nat, slot: (nat, nat)) {
    && slot.0 < |Tracked(t)| && slot.1 < |rows|
    && SameKey(Variation(env, t, row, variant, count), rows[slot.1], Tracked(t)[slot.0])
  }

  // ----- Indexes made of foreign keys alone

  lemma {:induction false} EqualFieldsSameKey(a: Row, b: Row, index: seq<string>)
    requires forall name :: name in index ==> Field(a, name) == Field(b, name)
    ensures UniqueKey(a, index) == UniqueKey(b, index)
  {
    if forall name :: name in index ==> Field(a, name) != Null {
      EqualFieldsSameText(a, b, index);
    }
  }

  lemma {:induction false} EqualFieldsSameText(a: Row, b: Row, index: seq<string>)
    requires forall name :: name in index ==> Field(a, name) == Field(b, name) && Field(a, name) != Null
    ensures Joined(a, index) == Joined(b, index)
  {
    if |index| > 1 {
      EqualFieldsSameText(a, b, index[..|index| - 1]);
    }
  }

  lemma {:induction false} VariationKeepsKey(env: Env, t: Table, row: Row, variant: int, count: nat, name: string)
    requires name in KeyColumns(t)
    ensures Held(Variation(env, t, row, variant, count), name) == Held(row, name)
  {
    if count > 0 {
      VariationKeepsKey(env, t, row, variant, count - 1, name);
      VaryKeepsKey(env, t, Variation(env, t, row, variant, count - 1), Tracked(t), variant + count, name);
    }
  }

  /** The conflicts of a row on the indexes that no round can change. */
  ghost predicate RigidConflict(t: Table, row: Row, rows: seq<Row>) {
    exists n: nat, i: nat :: n < |Tracked(t)| && i < |rows| && Rigid(t, Tracked(t)[n])
        && SameKey(row, rows[i], Tracked(t)[n])
  }

  lemma RigidKeyStays(env: Env, t: Table, row: Row, variant: int, count: nat, index: seq<string>)
    requires Rigid(t, index)
    ensures UniqueKey(Variation(env, t, row, variant, count), index) == UniqueKey(row, index)
  {
    forall name | name in index ensures Field(Variation(env, t, row, variant, count), name) == Field(row, name) {
      VariationKeepsKey(env, t, row, variant, count, name);
    }
    EqualFieldsSameKey(Variation(env, t, row, variant, count), row, index);
  }

  /** A conflict on an index made of foreign keys is in every round. */
  lemma RigidBlocksAll(env: Env, t: Table, row: Row, rows: seq<Row>, variant: int)
    requires RigidConflict(t, row, rows)
    ensures AllConflict(env, t, row, rows, variant, 0)
  {
    var n: nat, i: nat :| n < |Tracked(t)| && i < |rows| && Rigid(t, Tracked(t)[n])
        && SameKey(row, rows[i], Tracked(t)[n]);
    forall count: nat | count <= MAX_ATTEMPTS ensures Conflict(Variation(env, t, row, variant, count), rows,
                                                               Tracked(t)) {
      RigidKeyStays(env, t, row, variant, count, Tracked(t)[n]);
      if !Conflict(Variation(env, t, row, variant, count), rows, Tracked(t)) {
        NoConflict(Variation(env, t, row, variant, count), rows, Tracked(t), n, i);
      }
    }
  }

  /** A round's blocking slot, when no index made of foreign keys blocks it. */
  lemma VaryingBlocker(env: Env, t: Table, row: Row, rows: seq<Row>, variant: int, count: nat)
    returns (slot: (nat, nat))
    requires Conflict(Variation(env, t, row, variant, count), rows, Tracked(t)) && !RigidConflict(t, row, rows)
    ensures Blocks(env, t, row, rows, variant, count, slot) && slot.0 in VaryingIndexes(t)
  {
    var n, i := ConflictWitness(Variation(env, t, row, variant, count), rows, Tracked(t));
    if Rigid(t, Tracked(t)[n]) {
      RigidKeyStays(env, t, row, variant, count, Tracked(t)[n]);
    }
    slot := (n, i);
  }

  /** Slot number k blocks round k + 1. */
  ghost predicate SlotsBlock(env: Env, t: Table, row: Row, rows: seq<Row>, variant: int, slots: seq<(nat, nat)>) {
    forall k :: 0 <= k < |slots| ==>
      Blocks(env, t, row, rows, variant, k + 1, slots[k]) && slots[k].0 in VaryingIndexes(t)
  }

  lemma NextSlot(env: Env, t: Table, row: Row, rows: seq<Row>, variant: int, slots: seq<(nat, nat)>)
    returns (slot: (nat, nat))
    requires TwoKinds(env, t) && CleanGenerator(env, t) && CleanRow(row) && 0 < variant <= Target(env, t)
    requires !RigidConflict(t, row, rows) && AllConflict(env, t, row, rows, variant, 0)
    requires |slots| < MAX_ATTEMPTS && SlotsBlock(env, t, row, rows, variant, slots)
    ensures slot !in slots && SlotsBlock(env, t, row, rows, variant, slots + [slot])
  {
    slot := VaryingBlocker(env, t, row, rows, variant, |slots| + 1);
    assert Tracked(t)[slot.0] in Tracked(t) && Varies(env, t, Tracked(t)[slot.0]);
    forall k | 0 <= k < |slots| ensures slots[k] != slot {
      if slots[k] == slot {
        BlocksOneRound(env, t, row, rows[slot.1], variant, slot.0, k + 1, |slots| + 1);
      }
    }
  }

  /** Fewer than a hundred pairs of a varying index and a row cannot block all hundred rounds. */
  lemma FewRowsCannotBlock(env: Env, t: Table, row: Row, rows: seq<Row>, variant: int)
    requires TwoKinds(env, t) && CleanGenerator(env, t) && CleanRow(row) && 0 < variant <= Target(env, t)
    requires |VaryingIndexes(t)| * |rows| < MAX_ATTEMPTS && !RigidConflict(t, row, rows)
    ensures !AllConflict(env, t, row, rows, variant, 0)
  {
    if AllConflict(env, t, row, rows, variant, 0) {
      var slots: seq<(nat, nat)> := [];
      for count := 0 to MAX_ATTEMPTS
        invariant |slots| == count && Distinct(slots) && SlotsBlock(env, t, row, rows, variant, slots)
      {
        var slot := NextSlot(env, t, row, rows, variant, slots);
        slots := slots + [slot];
      }
      var room := Slots(VaryingIndexes(t), |rows|);
      SlotsInRoom(env, t, row, rows, variant, slots, room);
      DistinctFits(slots, room);
    }
  }

  lemma SlotsInRoom(env: Env, t: Table, row: Row, rows: seq<Row>, variant: int, slots: seq<(nat, nat)>,
                    room: set<(nat, nat)>)
    requires SlotsBlock(env, t, row, rows, variant, slots)
    requires forall n: nat, i: nat :: n in VaryingIndexes(t) && i < |rows| ==> (n, i) in room
    ensures forall slot :: slot in slots ==> slot in room
  {
    forall slot | slot in slots ensures slot in room {
      var k :| 0 <= k < |slots| && slots[k] == slot;
      assert slot == (slot.0, slot.1);
    }
  }

  /** A conflict is given up exactly when there is one on an index made of foreign keys alone. */
  lemma GivenUpIffRigid(env: Env, t: Table, row: Row, rows: seq<Row>, variant: int)
    requires TwoKinds(env, t) && CleanGenerator(env, t) && CleanRow(row) && 0 < variant <= Target(env, t)
    requires |VaryingIndexes(t)| * |rows| < MAX_ATTEMPTS
    ensures Conflict(Resolve(env, t, row, rows, variant, 0), rows, Tracked(t)) <==> RigidConflict(t, row, rows)
  {
    GivenUpIff(env, t, row, rows, variant);
    if RigidConflict(t, row, rows) {
      RigidBlocksAll(env, t, row, rows, variant);
    } else {
      FewRowsCannotBlock(env, t, row, rows, variant);
    }
  }

  // ----- The keys a variant takes from the parent rows

  /** Variant v takes row v - 1 of each parent table, counting around. */
  function KeyRow(keys: seq<ForeignKey>, parents: map<string, seq<Row>>, variant: nat): Row
    requires variant > 0
  {
    if keys == [] then map[]
    else
      var before, key := KeyRow(keys[..|keys| - 1], parents, variant), keys[|keys| - 1];
      if HasRows(parents, key.table) then
        var rows := parents[key.table];
        before[key.column := Field(rows[(variant - 1) % |rows|], key.refColumn)]
      else before
  }

  lemma {:induction false} ApplyKeysKeys(t: Table, keys: seq<ForeignKey>, row: Row, parents: map<string, seq<Row>>,
                                         variant: nat, name: string)
    requires variant > 0 && name !in row && ApplyKeys(t, keys, row, parents, variant).Some?
    ensures Field(ApplyKeys(t, keys, row, parents, variant).value, name) == Field(KeyRow(keys, parents, variant), name)
  {
    if keys != [] {
      ApplyKeysKeys(t, keys[..|keys| - 1], row, parents, variant, name);
    }
  }

  /** The row has the keys of this variant. */
  ghost predicate HasKeys(t: Table, row: Row, parents: map<string, seq<Row>>, variant: nat)
    requires variant > 0
  {
    forall name :: name in KeyColumns(t) ==> Field(row, name) == Field(KeyRow(t.foreignKeys, parents, variant), name)
  }

  lemma HasKeysSameKey(t: Table, row: Row, parents: map<string, seq<Row>>, variant: nat, index: seq<string>)
    requires variant > 0 && HasKeys(t, row, parents, variant) && Rigid(t, index)
    ensures UniqueKey(row, index) == UniqueKey(KeyRow(t.foreignKeys, parents, variant), index)
  {
    EqualFieldsSameKey(row, KeyRow(t.foreignKeys, parents, variant), index);
  }

  lemma CandidateHasKeys(env: Env, t: Table, existing: seq<Row>, parents: map<string, seq<Row>>, variant: nat)
    requires variant > 0
    requires ApplyKeys(t, t.foreignKeys, BaseRow(env, t, Insertable(t.columns), SourceRow(existing, variant), variant),
                       parents, variant).Some?
    ensures HasKeys(t, ApplyKeys(t, t.foreignKeys,
                                 BaseRow(env, t, Insertable(t.columns), SourceRow(existing, variant), variant),
                                 parents, variant).value, parents, variant)
  {
    var base := BaseRow(env, t, Insertable(t.columns), SourceRow(existing, variant), variant);
    forall name | name in KeyColumns(t)
      ensures Field(ApplyKeys(t, t.foreignKeys, base, parents, variant).value, name) ==
              Field(KeyRow(t.foreignKeys, parents, variant), name)
    {
      BaseHoldsNoKey(env, t, Insertable(t.columns), SourceRow(existing, variant), variant, name);
      ApplyKeysKeys(t, t.foreignKeys, base, parents, variant, name);
    }
  }

  lemma NewRowHasKeys(env: Env, t: Table, existing: seq<Row>, parents: map<string, seq<Row>>, rows: seq<Row>,
                      variant: nat)
    requires variant > 0 && NewRow(env, t, existing, parents, rows, variant).Ok?
    ensures HasKeys(t, NewRow(env, t, existing, parents, rows, variant).value, parents, variant)
  {
    var base := BaseRow(env, t, Insertable(t.columns), SourceRow(existing, variant), variant);
    var row := ApplyKeys(t, t.foreignKeys, base, parents, variant).value;
    CandidateHasKeys(env, t, existing, parents, variant);
    forall name | name in KeyColumns(t)
      ensures Held(Resolve(env, t, row, existing + rows, variant, 0), name) == Held(row, name)
    {
      ResolveKeepsKey(env, t, row, existing + rows, variant, 0, name);
    }
  }

  lemma {:induction false} NewRowsHaveKeys(env: Env, t: Table, existing: seq<Row>, parents: map<string, seq<Row>>,
                                           last: nat, k: nat)
    requires last >= |existing| && NewRows(env, t, existing, parents, last).Ok?
    requires k < |NewRows(env, t, existing, parents, last).value|
    ensures HasKeys(t, NewRows(env, t, existing, parents, last).value[k], parents, |existing| + k + 1)
    decreases last
  {
    NewRowsCount(env, t, existing, parents, last);
    if last > |existing| {
      var before := NewRows(env, t, existing, parents, last - 1).value;
      NewRowsCount(env, t, existing, parents, last - 1);
      if k < |before| {
        NewRowsHaveKeys(env, t, existing, parents, last - 1, k);
      } else {
        NewRowHasKeys(env, t, existing, parents, before, last);
      }
    }
  }

  /** On an index made of foreign keys, the variant's keys are those of an existing row or of an earlier variant. */
  ghost predicate KeysRepeat(t: Table, existing: seq<Row>, parents: map<string, seq<Row>>, variant: nat)
    requires variant > 0
  {
    exists index :: index in Tracked(t) && Rigid(t, index) && KeyTaken(t, existing, parents, variant, index)
  }

  ghost predicate KeyTaken(t: Table, existing: seq<Row>, parents: map<string, seq<Row>>, variant: nat,
                           index: seq<string>)
    requires variant > 0
  {
    var row := KeyRow(t.foreignKeys, parents, variant);
    || (exists e :: e in existing && SameKey(row, e, index))
    || (exists u: nat :: |existing| < u < variant && SameKey(row, KeyRow(t.foreignKeys, parents, u), index))
  }

  /** The new rows so far have the keys of their variants. */
  ghost predicate RowsHaveKeys(t: Table, existing: seq<Row>, parents: map<string, seq<Row>>, rows: seq<Row>) {
    forall k :: 0 <= k < |rows| ==> HasKeys(t, rows[k], parents, |existing| + k + 1)
  }

  lemma TakenIffConflict(t: Table, row: Row, existing: seq<Row>, parents: map<string, seq<Row>>, rows: seq<Row>,
                         variant: nat)
    requires variant == |existing| + |rows| + 1 && HasKeys(t, row, parents, variant)
             && RowsHaveKeys(t, existing, parents, rows)
    ensures RigidConflict(t, row, existing + rows) <==> KeysRepeat(t, existing, parents, variant)
  {
    var all := existing + rows;
    if RigidConflict(t, row, all) {
      var n: nat, i: nat :| n < |Tracked(t)| && i < |all| && Rigid(t, Tracked(t)[n])
          && SameKey(row, all[i], Tracked(t)[n]);
      HasKeysSameKey(t, row, parents, variant, Tracked(t)[n]);
      if i < |existing| {
        assert all[i] in existing;
      } else {
        assert all[i] == rows[i - |existing|];
        HasKeysSameKey(t, all[i], parents, i + 1, Tracked(t)[n]);
      }
      assert KeyTaken(t, existing, parents, variant, Tracked(t)[n]);
      assert Tracked(t)[n] in Tracked(t);
    }
    if KeysRepeat(t, existing, parents, variant) {
      var index :| index in Tracked(t) && Rigid(t, index) && KeyTaken(t, existing, parents, variant, index);
      TakenConflicts(t, row, existing, parents, rows, variant, index);
    }
  }

  lemma TakenConflicts(t: Table, row: Row, existing: seq<Row>, parents: map<string, seq<Row>>, rows: seq<Row>,
                       variant: nat, index: seq<string>)
    requires variant == |existing| + |rows| + 1 && HasKeys(t, row, parents, variant)
             && RowsHaveKeys(t, existing, parents, rows)
    requires index in Tracked(t) && Rigid(t, index) && KeyTaken(t, existing, parents, variant, index)
    ensures RigidConflict(t, row, existing + rows)
  {
    var all := existing + rows;
    var n: nat :| n < |Tracked(t)| && Tracked(t)[n] == index;
    HasKeysSameKey(t, row, parents, variant, index);
    var key := KeyRow(t.foreignKeys, parents, variant);
    if e :| e in existing && SameKey(key, e, index) {
      var i :| 0 <= i < |existing| && existing[i] == e;
      assert all[i] == e && SameKey(row, all[i], Tracked(t)[n]);
    } else {
      var u: nat :| |existing| < u < variant && SameKey(key, KeyRow(t.foreignKeys, parents, u), index);
      var k := u - |existing| - 1;
      HasKeysSameKey(t, rows[k], parents, u, index);
      assert all[|existing| + k] == rows[k] && SameKey(row, all[|existing| + k], Tracked(t)[n]);
    }
  }

  // ----- The rows of a whole table

  ghost predicate CleanParents(t: Table, parents: map<string, seq<Row>>) {
    forall key, p :: key in t.foreignKeys && key.table in parents && p in parents[key.table] ==>
        Clean(Field(p, key.refColumn))
  }

  lemma {:induction false} BaseClean(env: Env, t: Table, columns: seq<Column>, source: Row, variant: int)
    requires CleanGenerator(env, t) && CleanRow(source) && forall column :: column in columns ==> column in t.columns
    ensures CleanRow(BaseRow(env, t, columns, source, variant))
  {
    if columns != [] {
      var front, last := columns[..|columns| - 1], columns[|columns| - 1];
      BaseClean(env, t, front, source, variant);
      assert last in columns;
      AddColumnClean(env, t, BaseRow(env, t, front, source, variant), last, source, variant);
    }
  }

  lemma AddColumnClean(env: Env, t: Table, row: Row, column: Column, source: Row, variant: int)
    requires CleanGenerator(env, t) && CleanRow(source) && CleanRow(row) && column in t.columns
    ensures CleanRow(AddColumn(env, t, row, column, source, variant))
  {
  }

  lemma {:induction false} InsertableIn(columns: seq<Column>, c: Column)
    requires c in Insertable(columns)
    ensures c in columns && !c.autoIncrement
  {
    if c in Insertable(columns[..|columns| - 1]) {
      InsertableIn(columns[..|columns| - 1], c);
    }
  }

  lemma {:induction false} ApplyKeysClean(t: Table, count: nat, row: Row, parents: map<string, seq<Row>>, variant: nat)
    requires variant > 0 && count <= |t.foreignKeys| && CleanRow(row) && CleanParents(t, parents)
    requires ApplyKeys(t, t.foreignKeys[..count], row, parents, variant).Some?
    ensures CleanRow(ApplyKeys(t, t.foreignKeys[..count], row, parents, variant).value)
  {
    if count > 0 {
      assert t.foreignKeys[..count][..count - 1] == t.foreignKeys[..count - 1];
      ApplyKeysClean(t, count - 1, row, parents, variant);
      var key := t.foreignKeys[count - 1];
      if HasRows(parents, key.table) {
        assert parents[key.table][(variant - 1) % |parents[key.table]|] in parents[key.table];
      }
    }
  }

  /** The row before conflicts are resolved. */
  lemma CandidateClean(env: Env, t: Table, existing: seq<Row>, parents: map<string, seq<Row>>, variant: nat)
    requires variant > 0 && CleanGenerator(env, t) && CleanRows(existing) && CleanParents(t, parents)
    ensures var base := BaseRow(env, t, Insertable(t.columns), SourceRow(existing, variant), variant);
            var row := ApplyKeys(t, t.foreignKeys, base, parents, variant); row.Some? ==> CleanRow(row.value)
  {
    var source := SourceRow(existing, variant);
    assert existing != [] ==> source in existing;
    forall column | column in Insertable(t.columns) ensures column in t.columns {
      InsertableIn(t.columns, column);
    }
    BaseClean(env, t, Insertable(t.columns), source, variant);
    var base := BaseRow(env, t, Insertable(t.columns), source, variant);
    assert t.foreignKeys[..|t.foreignKeys|] == t.foreignKeys;
    if ApplyKeys(t, t.foreignKeys, base, parents, variant).Some? {
      ApplyKeysClean(t, |t.foreignKeys|, base, parents, variant);
    }
  }

  /** What is asked of a table that is to be filled, apart from its rows. */
  ghost predicate Predictable(env: Env, t: Table) {
    TwoKinds(env, t) && CleanGenerator(env, t) && |VaryingIndexes(t)| * Target(env, t) <= MAX_ATTEMPTS
  }

  lemma OneLess(k: nat, rows: nat, target: nat)
    requires rows < target && k * target <= MAX_ATTEMPTS
    ensures k * rows < MAX_ATTEMPTS
  {
    if k > 0 {
      assert k * rows + k * (target - rows) == k * target;
      assert k * (target - rows) >= k;
    }
  }

  lemma NewRowIff(env: Env, t: Table, existing: seq<Row>, parents: map<string, seq<Row>>, rows: seq<Row>, variant: nat)
    requires Predictable(env, t) && CleanRows(existing) && CleanParents(t, parents) && !LacksParent(t, parents)
    requires variant == |existing| + |rows| + 1 <= Target(env, t) && RowsHaveKeys(t, existing, parents, rows)
    ensures NewRow(env, t, existing, parents, rows, variant).Ok? <==> !KeysRepeat(t, existing, parents, variant)
  {
    var base := BaseRow(env, t, Insertable(t.columns), SourceRow(existing, variant), variant);
    ApplyKeysFails(t, t.foreignKeys, base, parents, variant);
    var row := ApplyKeys(t, t.foreignKeys, base, parents, variant).value;
    CandidateClean(env, t, existing, parents, variant);
    CandidateHasKeys(env, t, existing, parents, variant);
    OneLess(|VaryingIndexes(t)|, |existing + rows|, Target(env, t));
    GivenUpIffRigid(env, t, row, existing + rows, variant);
    TakenIffConflict(t, row, existing, parents, rows, variant);
  }

  ghost predicate NoKeysRepeat(t: Table, existing: seq<Row>, parents: map<string, seq<Row>>, last: nat) {
    forall variant: nat :: |existing| < variant <= last ==> !KeysRepeat(t, existing, parents, variant)
  }

  lemma OneMoreRepeats(t: Table, existing: seq<Row>, parents: map<string, seq<Row>>, last: nat)
    requires last > |existing|
    ensures NoKeysRepeat(t, existing, parents, last) <==>
            NoKeysRepeat(t, existing, parents, last - 1) && !KeysRepeat(t, existing, parents, last)
  {
  }

  lemma SoFarHaveKeys(env: Env, t: Table, existing: seq<Row>, parents: map<string, seq<Row>>, last: nat)
    requires last >= |existing| && NewRows(env, t, existing, parents, last).Ok?
    ensures |NewRows(env, t, existing, parents, last).value| == last - |existing|
    ensures RowsHaveKeys(t, existing, parents, NewRows(env, t, existing, parents, last).value)
  {
    NewRowsCount(env, t, existing, parents, last);
    forall k | 0 <= k < |NewRows(env, t, existing, parents, last).value|
      ensures HasKeys(t, NewRows(env, t, existing, parents, last).value[k], parents, |existing| + k + 1)
    {
      NewRowsHaveKeys(env, t, existing, parents, last, k);
    }
  }

  lemma NewRowsNext(env: Env, t: Table, existing: seq<Row>, parents: map<string, seq<Row>>, last: nat)
    requires last > |existing| && NewRows(env, t, existing, parents, last - 1).Ok?
    ensures NewRows(env, t, existing, parents, last).Ok? <==>
            NewRow(env, t, existing, parents, NewRows(env, t, existing, parents, last - 1).value, last).Ok?
  {
  }

  lemma {:induction false} NewRowsIff(env: Env, t: Table, existing: seq<Row>, parents: map<string, seq<Row>>, last: nat)
    requires Predictable(env, t) && CleanRows(existing) && CleanParents(t, parents) && !LacksParent(t, parents)
    requires |existing| <= last <= Target(env, t)
    ensures NewRows(env, t, existing, parents, last).Ok? <==> NoKeysRepeat(t, existing, parents, last)
    decreases last
  {
    if last > |existing| {
      NewRowsIff(env, t, existing, parents, last - 1);
      OneMoreRepeats(t, existing, parents, last);
      if NewRows(env, t, existing, parents, last - 1).Ok? {
        SoFarHaveKeys(env, t, existing, parents, last - 1);
        NewRowsNext(env, t, existing, parents, last);
        NewRowIff(env, t, existing, parents, NewRows(env, t, existing, parents, last - 1).value, last);
      }
    }
  }

  // ----- Columns to insert

  /** A column the insert has to give a value, other than by a foreign key. */
  predicate MustFill(t: Table, c: Column) {
    c in t.columns && !c.autoIncrement && !c.nullable && c.default.None? && c.name !in KeyColumns(t)
  }

  /** There is a column every new row holds: one that must be filled, or that of a required key. */
  ghost predicate Fillable(t: Table) {
    || (exists c :: MustFill(t, c))
    || (exists key :: key in t.foreignKeys && RequiredKey(t, key)
                      && !FindColumn(t.columns, key.column).value.autoIncrement)
  }

  lemma {:induction false} BaseFills(env: Env, t: Table, columns: seq<Column>, source: Row, variant: int, c: Column)
    requires c in columns && MustFill(t, c)
    ensures c.name in BaseRow(env, t, columns, source, variant)
  {
    if c != columns[|columns| - 1] {
      assert c in columns[..|columns| - 1];
      BaseFills(env, t, columns[..|columns| - 1], source, variant, c);
    }
  }

  lemma NewRowFills(env: Env, t: Table, existing: seq<Row>, parents: map<string, seq<Row>>, rows: seq<Row>,
                    variant: nat, c: Column)
    requires variant > 0 && MustFill(t, c) && NewRow(env, t, existing, parents, rows, variant).Ok?
    ensures c.name in NewRow(env, t, existing, parents, rows, variant).value
  {
    var source := SourceRow(existing, variant);
    var base := BaseRow(env, t, Insertable(t.columns), source, variant);
    InsertableHas(t.columns, c);
    BaseFills(env, t, Insertable(t.columns), source, variant, c);
    ApplyKeysGrows(t, t.foreignKeys, base, parents, variant);
    ResolveGrows(env, t, ApplyKeys(t, t.foreignKeys, base, parents, variant).value, existing + rows, variant, 0);
  }

  lemma {:induction false} ApplyKeysHolds(t: Table, keys: seq<ForeignKey>, row: Row, parents: map<string, seq<Row>>,
                                          variant: nat, key: ForeignKey)
    requires variant > 0 && ApplyKeys(t, keys, row, parents, variant).Some? && key in keys && RequiredKey(t, key)
    ensures key.column in ApplyKeys(t, keys, row, parents, variant).value
  {
    if key in keys[..|keys| - 1] {
      ApplyKeysHolds(t, keys[..|keys| - 1], row, parents, variant, key);
    }
  }

  lemma NewRowHoldsKey(env: Env, t: Table, existing: seq<Row>, parents: map<string, seq<Row>>, rows: seq<Row>,
                       variant: nat, key: ForeignKey)
    requires variant > 0 && NewRow(env, t, existing, parents, rows, variant).Ok? && key in t.foreignKeys
             && RequiredKey(t, key)
    ensures key.column in NewRow(env, t, existing, parents, rows, variant).value
  {
    var base := BaseRow(env, t, Insertable(t.columns), SourceRow(existing, variant), variant);
    ApplyKeysHolds(t, t.foreignKeys, base, parents, variant, key);
    ResolveGrows(env, t, ApplyKeys(t, t.foreignKeys, base, parents, variant).value, existing + rows, variant, 0);
  }

  lemma NeverWithoutColumns(env: Env, t: Table, existing: seq<Row>, parents: map<string, seq<Row>>)
    requires Fillable(t)
    ensures var r := Plan(env, t, existing, parents); r.Err? ==> !r.error.NoColumns?
  {
    var target := Target(env, t);
    if |existing| < target {
      NewRowsStops(env, t, existing, parents, target);
    }
    if |existing| < target && NewRows(env, t, existing, parents, target).Ok? {
      var rows := NewRows(env, t, existing, parents, target).value;
      var before := NewRows(env, t, existing, parents, target - 1).value;
      var row := NewRow(env, t, existing, parents, before, target).value;
      assert row in rows;
      var c: Column;
      if d :| MustFill(t, d) {
        c := d;
        NewRowFills(env, t, existing, parents, before, target, c);
      } else {
        var key :| key in t.foreignKeys && RequiredKey(t, key)
            && !FindColumn(t.columns, key.column).value.autoIncrement;
        c := FindColumn(t.columns, key.column).value;
        NewRowHoldsKey(env, t, existing, parents, before, target, key);
      }
      InsertableHas(t.columns, c);
      ColumnNamesHas(Insertable(t.columns), rows, c, row);
    }
  }

  // ----- When a table is filled

  /**
   A short table is filled if and only if its required keys lead to tables with rows and none of
   its variants takes keys from the parent rows that an existing row or an earlier variant has on
   an index made of foreign keys alone.
   */
  lemma {:induction false} PlanIff(env: Env, t: Table, existing: seq<Row>, parents: map<string, seq<Row>>)
    requires Predictable(env, t) && Fillable(t) && CleanRows(existing) && CleanParents(t, parents)
    ensures Plan(env, t, existing, parents).Ok? <==>
            && |existing| < Target(env, t) && !LacksParent(t, parents)
            && NoKeysRepeat(t, existing, parents, Target(env, t))
  {
    PlanStops(env, t, existing, parents);
    if |existing| < Target(env, t) && !LacksParent(t, parents) {
      NewRowsIff(env, t, existing, parents, Target(env, t));
      NeverWithoutColumns(env, t, existing, parents);
    }
  }

  /** A table without an index made of foreign keys alone is never given up for a unique conflict. */
  lemma {:induction false} NeverUnresolved(env: Env, t: Table, existing: seq<Row>, parents: map<string, seq<Row>>)
    requires Predictable(env, t) && CleanRows(existing) && CleanParents(t, parents)
    requires forall index :: index in Tracked(t) ==> !Rigid(t, index)
    ensures var r := Plan(env, t, existing, parents); r.Err? ==> !r.error.Unresolved?
  {
    PlanStops(env, t, existing, parents);
    if |existing| < Target(env, t) && !LacksParent(t, parents) {
      NewRowsIff(env, t, existing, parents, Target(env, t));
    }
  }

  // ----- Clean rows stay clean

  /** The database puts in clean values too. */
  ghost predicate CleanTable(env: Env, t: Table) {
    && (forall column :: column in t.columns && column.default.Some? ==> SEPARATOR !in column.default.value)
    && forall column, rows, k :: Clean(env.counter(t.name, column, rows, k))
  }

  ghost predicate CleanDb(db: map<string, seq<Row>>) {
    forall name :: name in db ==> CleanRows(db[name])
  }

  lemma {:induction false} ResolveClean(env: Env, t: Table, row: Row, rows: seq<Row>, variant: int, attempt: nat)
    requires attempt <= MAX_ATTEMPTS && CleanGenerator(env, t) && CleanRow(row)
    ensures CleanRow(Resolve(env, t, row, rows, variant, attempt))
    decreases MAX_ATTEMPTS - attempt
  {
    if attempt < MAX_ATTEMPTS && Conflict(row, rows, Tracked(t)) {
      VaryClean(env, t, row, Tracked(t), variant + attempt + 1);
      ResolveClean(env, t, Vary(env, t, row, Tracked(t), variant + attempt + 1), rows, variant, attempt + 1);
    }
  }

  lemma NewRowClean(env: Env, t: Table, existing: seq<Row>, parents: map<string, seq<Row>>, rows: seq<Row>,
                    variant: nat)
    requires CleanGenerator(env, t) && CleanRows(existing) && CleanParents(t, parents) && variant > 0
    requires NewRow(env, t, existing, parents, rows, variant).Ok?
    ensures CleanRow(NewRow(env, t, existing, parents, rows, variant).value)
  {
    var base := BaseRow(env, t, Insertable(t.columns), SourceRow(existing, variant), variant);
    CandidateClean(env, t, existing, parents, variant);
    ResolveClean(env, t, ApplyKeys(t, t.foreignKeys, base, parents, variant).value, existing + rows, variant, 0);
  }

  lemma {:induction false} NewRowsClean(env: Env, t: Table, existing: seq<Row>, parents: map<string, seq<Row>>,
                                        last: nat)
    requires last >= |existing| && CleanGenerator(env, t) && CleanRows(existing) && CleanParents(t, parents)
    requires NewRows(env, t, existing, parents, last).Ok?
    ensures CleanRows(NewRows(env, t, existing, parents, last).value)
    decreases last
  {
    if last > |existing| {
      NewRowsClean(env, t, existing, parents, last - 1);
      NewRowClean(env, t, existing, parents, NewRows(env, t, existing, parents, last - 1).value, last);
    }
  }

  lemma {:induction false} StoredClean(env: Env, t: Table, existing: seq<Row>, rows: seq<Row>, listed: seq<string>)
    requires CleanRows(rows) && CleanTable(env, t)
    ensures CleanRows(StoredRows(env, t, existing, rows, listed))
  {
    if rows != [] {
      var front, last := rows[..|rows| - 1], rows[|rows| - 1];
      assert last in rows && forall row :: row in front ==> row in rows;
      StoredClean(env, t, existing, front, listed);
      StoredRowClean(env, t, existing, last, listed, |front|);
    }
  }

  lemma StoredRowClean(env: Env, t: Table, existing: seq<Row>, row: Row, listed: seq<string>, offset: nat)
    requires CleanRow(row) && CleanTable(env, t)
    ensures CleanRow(StoredRow(env, t, existing, row, listed, offset))
  {
    forall name | name in Names(t.columns)
      ensures Clean(StoredField(env, t, FindColumn(t.columns, name).value, existing, row, listed, offset))
    {
      assert FindColumn(t.columns, name).value in t.columns;
    }
  }

  lemma SyncedParentsClean(s: State, names: set<string>, t: Table)
    requires Synced(s, names) && CleanDb(s.db)
    ensures CleanParents(t, s.parents)
  {
    forall key, p | key in t.foreignKeys && key.table in s.parents && p in s.parents[key.table]
      ensures Clean(Field(p, key.refColumn))
    {
      assert p in s.db[key.table];
    }
  }

  lemma ExpandClean(env: Env, s: State, t: Table, names: set<string>)
    requires Synced(s, names) && t.name in names && CleanDb(s.db) && CleanGenerator(env, t) && CleanTable(env, t)
    ensures CleanDb(Expand(env, s, t).0.db)
  {
    var existing := s.db[t.name];
    if Plan(env, t, existing, s.parents).Ok? {
      SyncedParentsClean(s, names, t);
      NewRowsClean(env, t, existing, s.parents, Target(env, t));
      var rows := NewRows(env, t, existing, s.parents, Target(env, t)).value;
      StoredClean(env, t, existing, rows, ColumnNames(Insertable(t.columns), rows));
    }
  }
}
