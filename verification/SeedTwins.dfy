/**
 Filling a table under two versions of the parent rows.

 If referenced values are equal in one version where they are equal in the other, the same rows
 are built but for their keys, and the table is filled under both or stops for the same reason.
 */
module SeedTwins {
  import opened Wrappers
  import opened SeedExpansion
  import opened SeedFixpoint
  import opened SeedIntegrity
  import opened SeedConflicts

  // ----- Two versions of the parent rows

  function At(parents: map<string, seq<Row>>, key: ForeignKey, q: nat): Value
    requires key.table in parents && q < |parents[key.table]|
  {
    Field(parents[key.table][q], key.refColumn)
  }

  ghost predicate SameCount(key: ForeignKey, a: map<string, seq<Row>>, b: map<string, seq<Row>>) {
    (HasRows(a, key.table) <==> HasRows(b, key.table)) && (HasRows(a, key.table) ==> |a[key.table]| == |b[key.table]|)
  }

  /** Referenced values are null together, equal together, and equal to the same values of existing rows. */
  ghost predicate KeyMatches(key: ForeignKey, existing: seq<Row>, a: map<string, seq<Row>>, b: map<string, seq<Row>>)
    requires SameCount(key, a, b)
  {
    HasRows(a, key.table) ==>
      && (forall q: nat :: q < |a[key.table]| ==> (At(a, key, q) == Null <==> At(b, key, q) == Null))
      && (forall q: nat, r: nat :: q < |a[key.table]| && r < |a[key.table]| ==>
            (SameText(At(a, key, q), At(a, key, r)) <==> SameText(At(b, key, q), At(b, key, r))))
      && (forall e, q: nat :: e in existing && q < |a[key.table]| ==>
            (SameText(Field(e, key.column), At(a, key, q)) <==> SameText(Field(e, key.column), At(b, key, q))))
  }

  ghost predicate Matches(t: Table, existing: seq<Row>, a: map<string, seq<Row>>, b: map<string, seq<Row>>) {
    forall key :: key in t.foreignKeys ==> SameCount(key, a, b) && KeyMatches(key, existing, a, b)
  }

  // ----- Rows built from the two versions

  /** Both rows hold nothing in the key column, or the value of the same parent row. */
  ghost predicate KeyTwin(key: ForeignKey, a: map<string, seq<Row>>, b: map<string, seq<Row>>, x: Row, y: Row)
    requires SameCount(key, a, b)
  {
    || (Field(x, key.column) == Null && Field(y, key.column) == Null)
    || (HasRows(a, key.table) && exists q: nat ::
          q < |a[key.table]| && Field(x, key.column) == At(a, key, q) && Field(y, key.column) == At(b, key, q))
  }

  ghost predicate Twin(t: Table, a: map<string, seq<Row>>, b: map<string, seq<Row>>, x: Row, y: Row) {
    && x.Keys == y.Keys
    && (forall name :: name !in KeyColumns(t) ==> Field(x, name) == Field(y, name))
    && forall key :: key in t.foreignKeys ==> SameCount(key, a, b) && KeyTwin(key, a, b, x, y)
  }

  ghost predicate Paired(t: Table, existing: seq<Row>, a: map<string, seq<Row>>, b: map<string, seq<Row>>, x: Row,
                         y: Row)
  {
    (x == y && x in existing) || Twin(t, a, b, x, y)
  }

  ghost predicate AllPaired(t: Table, existing: seq<Row>, a: map<string, seq<Row>>, b: map<string, seq<Row>>,
                            xs: seq<Row>, ys: seq<Row>)
  {
    |xs| == |ys| && forall i :: 0 <= i < |xs| ==> Paired(t, existing, a, b, xs[i], ys[i])
  }

  lemma TwinText(t: Table, existing: seq<Row>, a: map<string, seq<Row>>, b: map<string, seq<Row>>,
                 x: Row, y: Row, x': Row, y': Row, name: string)
    requires Matches(t, existing, a, b) && Twin(t, a, b, x, y) && Paired(t, existing, a, b, x', y')
    ensures SameText(Field(x, name), Field(x', name)) <==> SameText(Field(y, name), Field(y', name))
  {
    if name in KeyColumns(t) {
      var key :| key in t.foreignKeys && key.column == name;
      assert SameCount(key, a, b) && KeyMatches(key, existing, a, b) && KeyTwin(key, a, b, x, y);
      if Field(x, name) != Null || Field(y, name) != Null {
        var q: nat :| q < |a[key.table]| && Field(x, name) == At(a, key, q) && Field(y, name) == At(b, key, q);
        if x' == y' && x' in existing {
          assert SameText(Field(x', name), At(a, key, q)) <==> SameText(Field(x', name), At(b, key, q));
        } else {
          assert KeyTwin(key, a, b, x', y');
        }
      }
    }
  }

  lemma SameKeyIffTuple(x: Row, y: Row, index: seq<string>)
    requires CleanRow(x) && CleanRow(y)
    ensures SameKey(x, y, index) <==> SameTuple(x, y, index)
  {
    if SameTuple(x, y, index) {
      SameTupleSameKey(x, y, index);
    }
    if SameKey(x, y, index) {
      forall name | name in index ensures SameText(Field(x, name), Field(y, name)) {
        JoinedReads(x, y, index, name);
      }
    }
  }

  lemma TwinSameKey(t: Table, existing: seq<Row>, a: map<string, seq<Row>>, b: map<string, seq<Row>>,
                    x: Row, y: Row, x': Row, y': Row, index: seq<string>)
    requires Matches(t, existing, a, b) && Twin(t, a, b, x, y) && Paired(t, existing, a, b, x', y')
    requires CleanRow(x) && CleanRow(y) && CleanRow(x') && CleanRow(y')
    ensures SameKey(x, x', index) <==> SameKey(y, y', index)
  {
    SameKeyIffTuple(x, x', index);
    SameKeyIffTuple(y, y', index);
    forall name | name in index
      ensures SameText(Field(x, name), Field(x', name)) <==> SameText(Field(y, name), Field(y', name))
    {
      TwinText(t, existing, a, b, x, y, x', y', name);
    }
  }

  lemma {:induction false} TwinConflictOn(t: Table, existing: seq<Row>, a: map<string, seq<Row>>,
                                          b: map<string, seq<Row>>, x: Row, y: Row, xs: seq<Row>, ys: seq<Row>,
                                          index: seq<string>)
    requires Matches(t, existing, a, b) && Twin(t, a, b, x, y) && AllPaired(t, existing, a, b, xs, ys)
    requires CleanRow(x) && CleanRow(y) && CleanRows(xs) && CleanRows(ys)
    ensures ConflictOn(x, xs, index) <==> ConflictOn(y, ys, index)
  {
    if xs != [] {
      var k := |xs| - 1;
      assert xs[k] in xs && ys[k] in ys;
      assert CleanRows(xs[..k]) && CleanRows(ys[..k]);
      TwinConflictOn(t, existing, a, b, x, y, xs[..k], ys[..k], index);
      TwinSameKey(t, existing, a, b, x, y, xs[k], ys[k], index);
    }
  }

  lemma {:induction false} TwinConflict(t: Table, existing: seq<Row>, a: map<string, seq<Row>>,
                                        b: map<string, seq<Row>>, x: Row, y: Row, xs: seq<Row>, ys: seq<Row>,
                                        indexes: seq<seq<string>>)
    requires Matches(t, existing, a, b) && Twin(t, a, b, x, y) && AllPaired(t, existing, a, b, xs, ys)
    requires CleanRow(x) && CleanRow(y) && CleanRows(xs) && CleanRows(ys)
    ensures Conflict(x, xs, indexes) <==> Conflict(y, ys, indexes)
  {
    if indexes != [] {
      TwinConflict(t, existing, a, b, x, y, xs, ys, indexes[..|indexes| - 1]);
      TwinConflictOn(t, existing, a, b, x, y, xs, ys, indexes[|indexes| - 1]);
    }
  }

  // ----- The steps of the expander keep twins

  lemma TwinVaryColumn(env: Env, t: Table, a: map<string, seq<Row>>, b: map<string, seq<Row>>, x: Row, y: Row,
                       name: string, variant: int)
    requires Twin(t, a, b, x, y)
    ensures Twin(t, a, b, VaryColumn(env, t, x, name, variant), VaryColumn(env, t, y, name, variant))
  {
    if FindColumn(t.columns, name).Some? && name !in KeyColumns(t) {
      assert Held(x, name) == Held(y, name);
      var x', y' := VaryColumn(env, t, x, name, variant), VaryColumn(env, t, y, name, variant);
      forall key | key in t.foreignKeys ensures KeyTwin(key, a, b, x', y') {
        assert key.column in KeyColumns(t);
        assert KeyTwin(key, a, b, x, y);
      }
    }
  }

  lemma {:induction false} TwinVaryIndex(env: Env, t: Table, a: map<string, seq<Row>>, b: map<string, seq<Row>>,
                                         x: Row, y: Row, index: seq<string>, variant: int)
    requires Twin(t, a, b, x, y)
    ensures Twin(t, a, b, VaryIndex(env, t, x, index, variant), VaryIndex(env, t, y, index, variant))
  {
    if index != [] {
      var front, last := index[..|index| - 1], index[|index| - 1];
      TwinVaryIndex(env, t, a, b, x, y, front, variant);
      TwinVaryColumn(env, t, a, b, VaryIndex(env, t, x, front, variant), VaryIndex(env, t, y, front, variant), last,
                     variant);
    }
  }

  lemma {:induction false} TwinVary(env: Env, t: Table, a: map<string, seq<Row>>, b: map<string, seq<Row>>, x: Row,
                                    y: Row, indexes: seq<seq<string>>, variant: int)
    requires Twin(t, a, b, x, y)
    ensures Twin(t, a, b, Vary(env, t, x, indexes, variant), Vary(env, t, y, indexes, variant))
  {
    if indexes != [] {
      var front, last := indexes[..|indexes| - 1], indexes[|indexes| - 1];
      TwinVary(env, t, a, b, x, y, front, variant);
      TwinVaryIndex(env, t, a, b, Vary(env, t, x, front, variant), Vary(env, t, y, front, variant), last, variant);
    }
  }

  lemma {:induction false} TwinResolve(env: Env, t: Table, existing: seq<Row>, a: map<string, seq<Row>>,
                                       b: map<string, seq<Row>>, x: Row, y: Row, xs: seq<Row>, ys: seq<Row>,
                                       variant: int, attempt: nat)
    requires attempt <= MAX_ATTEMPTS && CleanGenerator(env, t)
    requires Matches(t, existing, a, b) && Twin(t, a, b, x, y) && AllPaired(t, existing, a, b, xs, ys)
    requires CleanRow(x) && CleanRow(y) && CleanRows(xs) && CleanRows(ys)
    ensures Twin(t, a, b, Resolve(env, t, x, xs, variant, attempt), Resolve(env, t, y, ys, variant, attempt))
    decreases MAX_ATTEMPTS - attempt
  {
    TwinConflict(t, existing, a, b, x, y, xs, ys, Tracked(t));
    if attempt < MAX_ATTEMPTS && Conflict(x, xs, Tracked(t)) {
      TwinVary(env, t, a, b, x, y, Tracked(t), variant + attempt + 1);
      VaryClean(env, t, x, Tracked(t), variant + attempt + 1);
      VaryClean(env, t, y, Tracked(t), variant + attempt + 1);
      TwinResolve(env, t, existing, a, b, Vary(env, t, x, Tracked(t), variant + attempt + 1),
                  Vary(env, t, y, Tracked(t), variant + attempt + 1), xs, ys, variant, attempt + 1);
    }
  }

  /** A row without key columns is given its keys from both versions. */
  lemma {:induction false} TwinApplyKeys(t: Table, existing: seq<Row>, a: map<string, seq<Row>>,
                                         b: map<string, seq<Row>>, count: nat, row: Row, variant: nat)
    requires variant > 0 && count <= |t.foreignKeys| && SchemaOk(t) && Matches(t, existing, a, b)
    requires forall key :: key in t.foreignKeys ==> key.column !in row
    ensures var x, y := ApplyKeys(t, t.foreignKeys[..count], row, a, variant),
            ApplyKeys(t, t.foreignKeys[..count], row, b, variant);
            && (x.Some? <==> y.Some?)
            && (x.Some? ==> Twin(t, a, b, x.value, y.value))
  {
    if count > 0 {
      var last := t.foreignKeys[count - 1];
      assert t.foreignKeys[..count][..count - 1] == t.foreignKeys[..count - 1];
      TwinApplyKeys(t, existing, a, b, count - 1, row, variant);
      assert SameCount(last, a, b);
      var x := ApplyKeys(t, t.foreignKeys[..count - 1], row, a, variant);
      var y := ApplyKeys(t, t.foreignKeys[..count - 1], row, b, variant);
      if x.Some? && HasRows(a, last.table) {
        TwinOneKey(t, a, b, last, x.value, y.value, (variant - 1) % |a[last.table]|);
      }
    }
  }

  lemma TwinOneKey(t: Table, a: map<string, seq<Row>>, b: map<string, seq<Row>>, key: ForeignKey, x: Row, y: Row,
                   q: nat)
    requires SchemaOk(t) && key in t.foreignKeys && Twin(t, a, b, x, y) && SameCount(key, a, b)
    requires HasRows(a, key.table) && q < |a[key.table]|
    ensures Twin(t, a, b, x[key.column := At(a, key, q)], y[key.column := At(b, key, q)])
  {
    var x', y' := x[key.column := At(a, key, q)], y[key.column := At(b, key, q)];
    assert key.column in KeyColumns(t);
    forall other | other in t.foreignKeys ensures SameCount(other, a, b) && KeyTwin(other, a, b, x', y') {
      if other.column == key.column {
        SameColumnSameKey(t, other, key);
        assert Field(x', key.column) == At(a, key, q) && Field(y', key.column) == At(b, key, q);
      } else {
        assert KeyTwin(other, a, b, x, y);
      }
    }
  }

  /** A new row stops for the same reason under both versions, or gives twins. */
  ghost predicate SameRow(t: Table, a: map<string, seq<Row>>, b: map<string, seq<Row>>, x: Result<Row, Stop>,
                          y: Result<Row, Stop>)
  {
    if x.Ok? then y.Ok? && Twin(t, a, b, x.value, y.value) else y == x
  }

  lemma TwinNewRow(env: Env, t: Table, existing: seq<Row>, a: map<string, seq<Row>>, b: map<string, seq<Row>>,
                   xs: seq<Row>, ys: seq<Row>, variant: nat)
    requires variant > 0 && SchemaOk(t) && CleanGenerator(env, t) && Matches(t, existing, a, b)
    requires CleanRows(existing) && CleanParents(t, a) && CleanParents(t, b)
    requires AllPaired(t, existing, a, b, existing + xs, existing + ys) && CleanRows(existing + xs)
             && CleanRows(existing + ys)
    ensures SameRow(t, a, b, NewRow(env, t, existing, a, xs, variant), NewRow(env, t, existing, b, ys, variant))
  {
    var base := BaseRow(env, t, Insertable(t.columns), SourceRow(existing, variant), variant);
    forall key | key in t.foreignKeys ensures key.column !in base {
      assert key.column in KeyColumns(t);
      BaseHoldsNoKey(env, t, Insertable(t.columns), SourceRow(existing, variant), variant, key.column);
    }
    assert t.foreignKeys[..|t.foreignKeys|] == t.foreignKeys;
    TwinApplyKeys(t, existing, a, b, |t.foreignKeys|, base, variant);
    CandidateClean(env, t, existing, a, variant);
    CandidateClean(env, t, existing, b, variant);
    var x, y := ApplyKeys(t, t.foreignKeys, base, a, variant), ApplyKeys(t, t.foreignKeys, base, b, variant);
    if x.Some? {
      TwinResolve(env, t, existing, a, b, x.value, y.value, existing + xs, existing + ys, variant, 0);
      var x', y' := Resolve(env, t, x.value, existing + xs, variant, 0),
          Resolve(env, t, y.value, existing + ys, variant, 0);
      ResolveClean(env, t, x.value, existing + xs, variant, 0);
      ResolveClean(env, t, y.value, existing + ys, variant, 0);
      TwinConflict(t, existing, a, b, x', y', existing + xs, existing + ys, Tracked(t));
    }
  }

  ghost predicate SameRows(t: Table, a: map<string, seq<Row>>, b: map<string, seq<Row>>,
                           x: Result<seq<Row>, Stop>, y: Result<seq<Row>, Stop>)
  {
    if x.Ok? then
      y.Ok? && |x.value| == |y.value| && forall i :: 0 <= i < |x.value| ==> Twin(t, a, b, x.value[i], y.value[i])
    else y == x
  }

  lemma TwinOneMore(t: Table, a: map<string, seq<Row>>, b: map<string, seq<Row>>, xs: seq<Row>, ys: seq<Row>, x: Row,
                    y: Row)
    requires SameRows(t, a, b, Ok(xs), Ok(ys)) && Twin(t, a, b, x, y)
    ensures SameRows(t, a, b, Ok(xs + [x]), Ok(ys + [y]))
  {
  }

  lemma {:induction false} TwinNewRows(env: Env, t: Table, existing: seq<Row>, a: map<string, seq<Row>>,
                                       b: map<string, seq<Row>>, last: nat)
    requires last >= |existing| && SchemaOk(t) && CleanGenerator(env, t) && Matches(t, existing, a, b)
    requires CleanRows(existing) && CleanParents(t, a) && CleanParents(t, b)
    ensures SameRows(t, a, b, NewRows(env, t, existing, a, last), NewRows(env, t, existing, b, last))
    decreases last
  {
    if last > |existing| {
      TwinNewRows(env, t, existing, a, b, last - 1);
      var xs, ys := NewRows(env, t, existing, a, last - 1), NewRows(env, t, existing, b, last - 1);
      if xs.Ok? {
        TwinNextRow(env, t, existing, a, b, xs.value, ys.value, last);
        var x, y := NewRow(env, t, existing, a, xs.value, last), NewRow(env, t, existing, b, ys.value, last);
        if x.Ok? {
          TwinOneMore(t, a, b, xs.value, ys.value, x.value, y.value);
        }
      }
    }
  }

  lemma TwinNextRow(env: Env, t: Table, existing: seq<Row>, a: map<string, seq<Row>>, b: map<string, seq<Row>>,
                    xs: seq<Row>, ys: seq<Row>, last: nat)
    requires last > |existing| && SchemaOk(t) && CleanGenerator(env, t) && Matches(t, existing, a, b)
    requires CleanRows(existing) && CleanParents(t, a) && CleanParents(t, b)
    requires NewRows(env, t, existing, a, last - 1) == Ok(xs) && NewRows(env, t, existing, b, last - 1) == Ok(ys)
    requires SameRows(t, a, b, Ok(xs), Ok(ys))
    ensures SameRow(t, a, b, NewRow(env, t, existing, a, xs, last), NewRow(env, t, existing, b, ys, last))
  {
    NewRowsClean(env, t, existing, a, last - 1);
    NewRowsClean(env, t, existing, b, last - 1);
    PairedWithExisting(t, existing, a, b, xs, ys);
    TwinNewRow(env, t, existing, a, b, xs, ys, last);
  }

  lemma PairedWithExisting(t: Table, existing: seq<Row>, a: map<string, seq<Row>>, b: map<string, seq<Row>>,
                           xs: seq<Row>, ys: seq<Row>)
    requires CleanRows(existing) && CleanRows(xs) && CleanRows(ys)
    requires |xs| == |ys| && forall i :: 0 <= i < |xs| ==> Twin(t, a, b, xs[i], ys[i])
    ensures AllPaired(t, existing, a, b, existing + xs, existing + ys) && CleanRows(existing + xs)
            && CleanRows(existing + ys)
  {
    var x, y := existing + xs, existing + ys;
    forall i | 0 <= i < |x| ensures Paired(t, existing, a, b, x[i], y[i]) {
      if i < |existing| {
        assert x[i] == existing[i] && y[i] == existing[i];
      } else {
        assert x[i] == xs[i - |existing|] && y[i] == ys[i - |existing|];
      }
    }
  }

  lemma {:induction false} TwinColumnNames(columns: seq<Column>, xs: seq<Row>, ys: seq<Row>)
    requires |xs| == |ys| && forall i :: 0 <= i < |xs| ==> xs[i].Keys == ys[i].Keys
    ensures ColumnNames(columns, xs) == ColumnNames(columns, ys)
  {
    if columns != [] {
      TwinColumnNames(columns[..|columns| - 1], xs, ys);
      var name := columns[|columns| - 1].name;
      if row :| row in xs && name in row {
        var i :| 0 <= i < |xs| && xs[i] == row;
        assert ys[i] in ys && name in ys[i];
      }
      if row :| row in ys && name in row {
        var i :| 0 <= i < |ys| && ys[i] == row;
        assert xs[i] in xs && name in xs[i];
      }
    }
  }

  /** Whether a table is filled does not depend on the values of its keys, only on which of them are equal. */
  lemma PlanIgnoresIds(env: Env, t: Table, existing: seq<Row>, a: map<string, seq<Row>>, b: map<string, seq<Row>>)
    requires SchemaOk(t) && CleanGenerator(env, t) && CleanRows(existing) && CleanParents(t, a) && CleanParents(t, b)
    requires Matches(t, existing, a, b)
    ensures var x, y := Plan(env, t, existing, a), Plan(env, t, existing, b); if x.Ok? then y.Ok? else y == x
  {
    if |existing| < Target(env, t) {
      TwinNewRows(env, t, existing, a, b, Target(env, t));
      var x, y := NewRows(env, t, existing, a, Target(env, t)), NewRows(env, t, existing, b, Target(env, t));
      if x.Ok? {
        TwinColumnNames(Insertable(t.columns), x.value, y.value);
      }
    }
  }
}
