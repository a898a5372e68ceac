/**
 When a row whose indexes were settled one after the other is free on all of them at once.

 Settling one index can change a column that an earlier one shares.  That is harmless exactly
 when no shared column can change its text.
 */
module BaselineUniqueness {
  import opened Wrappers
  import opened SeedExpansion
  import opened SeedIntegrity
  import opened BaselineExpansion
  import opened BaselineOrigins

  // ----- Values and what they can become

  ghost predicate Proper(value: Value) {
    value != Null && value.text != ""
  }

  ghost predicate Alike(a: Value, b: Value) {
    (a == Null <==> b == Null) && (a != Null ==> a.text == b.text)
  }

  /** Varying keeps null null and other texts not empty, and referenced columns hold such texts. */
  ghost predicate Solid(c: Cloner, t: Table, column: string) {
    && (FindColumn(t.columns, column).Some? ==>
          var found := FindColumn(t.columns, column).value;
          && (forall v :: c.vary(t.name, found, Null, v) == Null)
          && forall x, v :: Proper(x) ==> Proper(c.vary(t.name, found, x, v)))
    && (FindKey(t.foreignKeys, column).Some? ==>
          var key := FindKey(t.foreignKeys, column).value;
          forall p :: p in RowsOf(c.parents, key.table) ==> Proper(Field(p, key.refColumn)))
  }

  /** A value and its variations; number 0 is the value itself. */
  function Reach(c: Cloner, t: Table, column: Column, x: Value, w: nat): Value {
    if w == 0 then x else c.vary(t.name, column, x, w)
  }

  /**
   Settling can give the column another text: two parent rows have different ones, or the
   generator makes two different ones, the second by a variation that settling can ask for.
   */
  ghost predicate Movable(c: Cloner, t: Table, column: string) {
    && FindColumn(t.columns, column).Some?
    && match FindKey(t.foreignKeys, column)
       case Some(key) =>
         exists p, q :: p in RowsOf(c.parents, key.table) && q in RowsOf(c.parents, key.table)
                        && !Alike(Field(p, key.refColumn), Field(q, key.refColumn))
       case None =>
         var found := FindColumn(t.columns, column).value;
         exists x, w: nat, v: nat :: v >= 2 && Proper(x) && !Alike(Reach(c, t, found, x, w), Reach(c, t, found, x, v))
  }

  /** What a row made from the source can hold: null, a parent's text, or a variation of the source's value. */
  ghost predicate Held(c: Cloner, t: Table, source: Row, column: string, value: Value) {
    value == Null ||
    (Proper(value) &&
     match FindKey(t.foreignKeys, column)
     case Some(key) => HasRows(c.parents, key.table) ==> ParentText(c, key, value)
     case None =>
       FindColumn(t.columns, column).Some? ==>
         Proper(Field(source, column))
         && exists w: nat :: value == Reach(c, t, FindColumn(t.columns, column).value, Field(source, column), w))
  }

  lemma HeldClosed(c: Cloner, t: Table, row: Row, source: Row, column: string)
    requires Solid(c, t, column) && Held(c, t, source, column, Field(row, column))
    ensures Field(row, column) != Null ==> Closed(c, t, source, column, value => Held(c, t, source, column, value))
    ensures Field(row, column) != Null && !Movable(c, t, column) && FindColumn(t.columns, column).Some? ==>
              Closed(c, t, source, column, value => Alike(value, Field(row, column)))
  {
    if Field(row, column) != Null && FindColumn(t.columns, column).Some? {
      match FindKey(t.foreignKeys, column) {
        case Some(key) =>
          forall p | p in RowsOf(c.parents, key.table)
            ensures Held(c, t, source, column, Field(p, key.refColumn))
            ensures !Movable(c, t, column) ==> Alike(Field(p, key.refColumn), Field(row, column))
          {
            assert SameText(Field(p, key.refColumn), Field(p, key.refColumn));
          }
        case None =>
          var found, x := FindColumn(t.columns, column).value, Field(source, column);
          var w: nat :| Field(row, column) == Reach(c, t, found, x, w);
          forall v: nat | v >= 2
            ensures Held(c, t, source, column, c.vary(t.name, found, x, v))
            ensures !Movable(c, t, column) ==> Alike(c.vary(t.name, found, x, v), Field(row, column))
          {
            assert c.vary(t.name, found, x, v) == Reach(c, t, found, x, v);
          }
      }
    }
  }

  // ----- Keys of rows that hold the same texts

  lemma {:induction false} AlikeSameKey(a: Row, b: Row, index: seq<string>)
    requires forall column :: column in index ==> Alike(Field(a, column), Field(b, column))
    ensures UniqueKey(a, index) == UniqueKey(b, index)
  {
    if forall column :: column in index ==> Field(a, column) != Null {
      AlikeSameText(a, b, index);
    }
  }

  lemma {:induction false} AlikeSameText(a: Row, b: Row, index: seq<string>)
    requires forall column :: column in index ==> Field(a, column) != Null && Field(b, column) != Null
    requires forall column :: column in index ==> Alike(Field(a, column), Field(b, column))
    ensures Joined(a, index) == Joined(b, index)
  {
    if |index| > 1 {
      AlikeSameText(a, b, index[..|index| - 1]);
    }
  }

  // ----- Safe settling

  lemma {:induction false} RoundFrees(c: Cloner, t: Table, row: Row, source: Row, index: seq<string>,
                                      columns: seq<string>, occupied: Occupied, variant: nat, attempt: nat)
    ensures var r := Round(c, t, row, source, index, columns, occupied, variant, attempt);
            r.1 ==> Free(r.0, index, occupied)
    decreases columns
  {
    if columns != [] {
      var next := ChangeColumn(c, t, row, source, columns[0], variant, attempt);
      RoundFrees(c, t, if next.Some? then next.value else row, source, index, columns[1..], occupied, variant, attempt);
    }
  }

  lemma {:induction false} RoundsFree(c: Cloner, t: Table, row: Row, source: Row, index: seq<string>,
                                      occupied: Occupied, variant: nat, attempt: nat)
    ensures var r := Rounds(c, t, row, source, index, occupied, variant, attempt); r.1 ==> Free(r.0, index, occupied)
    decreases c.Attempts() - attempt
  {
    if attempt < c.Attempts() {
      RoundFrees(c, t, row, source, index, index, occupied, variant, attempt);
      var round := Round(c, t, row, source, index, index, occupied, variant, attempt);
      if !round.1 {
        RoundsFree(c, t, round.0, source, index, occupied, variant, attempt + 1);
      }
    }
  }

  /** The columns that two indexes share. */
  ghost predicate Shared(indexes: seq<seq<string>>, column: string) {
    exists i, j :: 0 <= i < j < |indexes| && column in indexes[i] && column in indexes[j]
  }

  /** No shared column can change its text. */
  ghost predicate SharedStay(c: Cloner, t: Table, indexes: seq<seq<string>>) {
    forall column :: Shared(indexes, column) ==> !Movable(c, t, column)
  }

  /** What is known of the shared columns of a row about to be settled; nothing if there are none. */
  ghost predicate SharedHeld(c: Cloner, t: Table, row: Row, source: Row, indexes: seq<seq<string>>) {
    forall column :: Shared(indexes, column) ==> Solid(c, t, column) && Held(c, t, source, column, Field(row, column))
  }

  /** Settling an index keeps the texts of a column, if it is not in the index or cannot move. */
  lemma SettleIndexAlike(c: Cloner, t: Table, row: Row, source: Row, index: seq<string>, occupied: Occupied,
                         variant: nat, column: string)
    requires variant > 0
    requires column in index ==>
               Solid(c, t, column) && !Movable(c, t, column) && Held(c, t, source, column, Field(row, column))
    ensures Alike(Field(Rounds(c, t, row, source, index, occupied, variant, 0).0, column), Field(row, column))
  {
    if column in index && FindColumn(t.columns, column).Some? {
      HeldClosed(c, t, row, source, column);
      RoundsValue(c, t, row, source, index, occupied, variant, 0, column, value => Alike(value, Field(row, column)));
    } else if column in index {
      UnknownColumnStays(c, t, row, source, index, occupied, variant, 0, column);
    } else {
      RoundsValue(c, t, row, source, index, occupied, variant, 0, column, value => value == Field(row, column));
    }
  }

  lemma {:induction false} UnknownColumnStays(c: Cloner, t: Table, row: Row, source: Row, index: seq<string>,
                                              occupied: Occupied, variant: nat, attempt: nat, column: string)
    requires FindColumn(t.columns, column).None?
    ensures Field(Rounds(c, t, row, source, index, occupied, variant, attempt).0, column) == Field(row, column)
    decreases c.Attempts() - attempt
  {
    if attempt < c.Attempts() {
      UnknownColumnStaysInRound(c, t, row, source, index, index, occupied, variant, attempt, column);
      var round := Round(c, t, row, source, index, index, occupied, variant, attempt);
      if !round.1 {
        UnknownColumnStays(c, t, round.0, source, index, occupied, variant, attempt + 1, column);
      }
    }
  }

  lemma {:induction false} UnknownColumnStaysInRound(c: Cloner, t: Table, row: Row, source: Row, index: seq<string>,
                                                     columns: seq<string>, occupied: Occupied, variant: nat,
                                                     attempt: nat, column: string)
    requires FindColumn(t.columns, column).None?
    ensures Field(Round(c, t, row, source, index, columns, occupied, variant, attempt).0, column) == Field(row, column)
    decreases columns
  {
    if columns != [] {
      var next := ChangeColumn(c, t, row, source, columns[0], variant, attempt);
      UnknownColumnStaysInRound(c, t, if next.Some? then next.value else row, source, index, columns[1..], occupied,
                                variant,
                                attempt, column);
    }
  }

  lemma {:induction false} SettleHeld(c: Cloner, t: Table, row: Row, source: Row, indexes: seq<seq<string>>,
                                      occupied: Occupied, variant: nat, column: string)
    requires variant > 0 && Solid(c, t, column) && Held(c, t, source, column, Field(row, column))
    requires Settle(c, t, row, source, indexes, occupied, variant).Some?
    ensures Held(c, t, source, column, Field(Settle(c, t, row, source, indexes, occupied, variant).value, column))
  {
    if indexes != [] {
      var front, last := indexes[..|indexes| - 1], indexes[|indexes| - 1];
      SettleHeld(c, t, row, source, front, occupied, variant, column);
      var before := Settle(c, t, row, source, front, occupied, variant).value;
      HeldClosed(c, t, before, source, column);
      RoundsValue(c, t, before, source, last, occupied, variant, 0, column, value => Held(c, t, source, column, value));
    }
  }

  /** If no shared column can move, a settled row is free on every index at once. */
  lemma {:induction false} SettleFrees(c: Cloner, t: Table, row: Row, source: Row, indexes: seq<seq<string>>,
                                       occupied: Occupied, variant: nat)
    requires variant > 0 && SharedStay(c, t, indexes) && SharedHeld(c, t, row, source, indexes)
    ensures AllFree(Settle(c, t, row, source, indexes, occupied, variant), indexes, occupied)
  {
    if indexes != [] && Settle(c, t, row, source, indexes, occupied, variant).Some? {
      var front, last := indexes[..|indexes| - 1], indexes[|indexes| - 1];
      forall column | Shared(front, column) ensures Shared(indexes, column) {
        var i, j :| 0 <= i < j < |front| && column in front[i] && column in front[j];
        assert column in indexes[i] && column in indexes[j];
      }
      SettleFrees(c, t, row, source, front, occupied, variant);
      var before := Settle(c, t, row, source, front, occupied, variant).value;
      var after := Settle(c, t, row, source, indexes, occupied, variant).value;
      RoundsFree(c, t, before, source, last, occupied, variant, 0);
      forall i | 0 <= i < |front| ensures Free(after, front[i], occupied) {
        forall column | column in front[i] ensures Alike(Field(after, column), Field(before, column)) {
          if column in last {
            assert column in indexes[i] && column in indexes[|indexes| - 1];
            assert Shared(indexes, column);
            SettleHeld(c, t, row, source, front, occupied, variant, column);
          }
          SettleIndexAlike(c, t, before, source, last, occupied, variant, column);
        }
        AlikeSameKey(after, before, front[i]);
        assert front[i] in front;
      }
    }
  }

  ghost predicate AllFree(settled: Option<Row>, indexes: seq<seq<string>>, occupied: Occupied) {
    settled.Some? ==> forall index :: index in indexes ==> Free(settled.value, index, occupied)
  }

  /** Every row made from its source is free on every index once it is settled, whatever keys are occupied. */
  ghost predicate SettlesSafely(c: Cloner, t: Table, indexes: seq<seq<string>>) {
    forall row, source, occupied, variant: nat :: variant > 0 && RowHeld(c, t, row, source, indexes) ==>
      AllFree(Settle(c, t, row, source, indexes, occupied, variant), indexes, occupied)
  }

  ghost predicate RowHeld(c: Cloner, t: Table, row: Row, source: Row, indexes: seq<seq<string>>) {
    forall index, column :: index in indexes && column in index ==> Held(c, t, source, column, Field(row, column))
  }

  ghost predicate AllSolid(c: Cloner, t: Table, indexes: seq<seq<string>>) {
    forall index, column :: index in indexes && column in index ==> Solid(c, t, column)
  }

  /** A row that is free everywhere already is left as it is. */
  lemma {:induction false} FreeRowIsKept(c: Cloner, t: Table, row: Row, source: Row, indexes: seq<seq<string>>,
                                         occupied: Occupied, variant: nat)
    requires forall index :: index in indexes ==> Free(row, index, occupied)
    ensures Settle(c, t, row, source, indexes, occupied, variant) == Some(row)
  {
    if indexes != [] {
      FreeRowIsKept(c, t, row, source, indexes[..|indexes| - 1], occupied, variant);
    }
  }

  // ----- A shared column that can move

  ghost predicate AgreeBut(a: Row, b: Row, index: seq<string>, column: string) {
    forall name :: name in index ==>
      Field(a, name) != Null && Field(b, name) != Null && (name != column ==> Field(a, name) == Field(b, name))
  }

  lemma {:induction false} JoinedLonger(a: Row, b: Row, index: seq<string>, column: string)
    requires AgreeBut(a, b, index, column) && Field(a, column) != Null && Field(b, column) != Null
    requires |Field(a, column).text| < |Field(b, column).text|
    ensures |Joined(a, index)| <= |Joined(b, index)|
    ensures column in index ==> |Joined(a, index)| < |Joined(b, index)|
  {
    if |index| > 1 {
      JoinedLonger(a, b, index[..|index| - 1], column);
    }
  }

  lemma SameTail(x: string, a: string, y: string, b: string)
    requires x + a == y + b && |a| == |b|
    ensures x == y && a == b
  {
    assert x == (x + a)[..|x|] && y == (y + b)[..|y|];
    assert a == (x + a)[|x|..] && b == (y + b)[|y|..];
  }

  /** A change of one column's text shows in the key. */
  lemma {:induction false} JoinedDiffers(a: Row, b: Row, index: seq<string>, column: string)
    requires AgreeBut(a, b, index, column) && column in index && Field(a, column).text != Field(b, column).text
    ensures Joined(a, index) != Joined(b, index)
  {
    if |Field(a, column).text| < |Field(b, column).text| {
      JoinedLonger(a, b, index, column);
    } else if |Field(b, column).text| < |Field(a, column).text| {
      JoinedLonger(b, a, index, column);
    } else if |index| > 1 && Joined(a, index) == Joined(b, index) {
      var front, last := index[..|index| - 1], index[|index| - 1];
      SameTail(Joined(a, front) + "\U{001f}", Field(a, last).text, Joined(b, front) + "\U{001f}", Field(b, last).text);
      SameTail(Joined(a, front), "\U{001f}", Joined(b, front), "\U{001f}");
      JoinedDiffers(a, b, front, column);
    }
  }

  lemma {:induction false} JoinedIsLive(row: Row, index: seq<string>)
    requires index != [] && forall name :: name in index ==> Field(row, name) != Null && Proper(Field(row, name))
    ensures LiveKey(row, index) == Some(Joined(row, index))
  {
    assert Joined(row, index) != "";
  }

  /** What the other columns hold, so that a change at this variant leaves them as they are. */
  function Resting(c: Cloner, t: Table, column: string, variant: nat): Value {
    match FindKey(t.foreignKeys, column)
    case Some(key) =>
      if HasRows(c.parents, key.table) then
        Field(c.parents[key.table][variant % |c.parents[key.table]|], key.refColumn)
      else Text("0")
    case None =>
      if FindColumn(t.columns, column).Some? then
        c.vary(t.name, FindColumn(t.columns, column).value, Text("0"), variant + 1)
      else Text("0")
  }

  /** A row and its source in which only the given column can change, from one value to another. */
  datatype Case = Case(row: Row, source: Row, next: Row, variant: nat)

  function MakeCase(c: Cloner, t: Table, names: seq<string>, column: string, from: Value, to: Value, x: Value,
                    variant: nat): Case
  {
    var row: Row := map name | name in names :: if name == column then from else Resting(c, t, name, variant);
    var source: Row := map name | name in names :: if name == column then x else Text("0");
    Case(row, source, row[column := to], variant)
  }

  /** The column holds a proper text and its change, if any, gives the same row. */
  ghost predicate Rests(c: Cloner, t: Table, k: Case, name: string) {
    && Proper(Field(k.row, name)) && Held(c, t, k.source, name, Field(k.row, name))
    && ChangeColumn(c, t, k.row, k.source, name, k.variant, 0) in {None, Some(k.row)}
  }

  /** The one change: the column goes from one text to another, and nothing else moves. */
  ghost predicate Moves(c: Cloner, t: Table, names: seq<string>, column: string, k: Case) {
    && k.variant > 0 && column in names && (forall name :: name in k.row ==> name in names)
    && Field(k.row, column) != Null && Field(k.next, column) != Null
    && (forall name :: name in names && name != column ==> Rests(c, t, k, name))
    && Proper(Field(k.row, column)) && Proper(Field(k.next, column))
       && Held(c, t, k.source, column, Field(k.row, column))
    && k.next == k.row[column := Field(k.next, column)]
    && Field(k.row, column).text != Field(k.next, column).text
    && ChangeColumn(c, t, k.row, k.source, column, k.variant, 0) == Some(k.next)
  }

  lemma RestingRests(c: Cloner, t: Table, k: Case, name: string)
    requires Solid(c, t, name) && name in k.row && k.row[name] == Resting(c, t, name, k.variant)
    requires name in k.source && k.source[name] == Text("0")
    ensures Rests(c, t, k, name)
  {
    assert k.row[name := k.row[name]] == k.row;
    match FindKey(t.foreignKeys, name) {
      case Some(key) =>
        if HasRows(c.parents, key.table) {
          assert c.parents[key.table][k.variant % |c.parents[key.table]|] in RowsOf(c.parents, key.table);
          assert SameText(k.row[name], k.row[name]);
        }
      case None =>
        if FindColumn(t.columns, name).Some? {
          assert k.row[name] == Reach(c, t, FindColumn(t.columns, name).value, Field(k.source, name), k.variant + 1);
        }
    }
  }

  lemma CaseMoves(c: Cloner, t: Table, names: seq<string>, column: string, from: Value, to: Value, x: Value,
                  variant: nat)
    requires variant > 0 && column in names && (forall name :: name in names ==> Solid(c, t, name))
    requires Proper(from) && Proper(to) && from.text != to.text
    requires var k := MakeCase(c, t, names, column, from, to, x, variant);
             && Held(c, t, k.source, column, from)
             && ChangeColumn(c, t, k.row, k.source, column, variant, 0) == Some(k.next)
    ensures Moves(c, t, names, column, MakeCase(c, t, names, column, from, to, x, variant))
  {
    var k := MakeCase(c, t, names, column, from, to, x, variant);
    assert k.variant == variant && Field(k.row, column) == from && Field(k.next, column) == to;
    forall name | name in names && name != column ensures Rests(c, t, k, name) {
      RestingRests(c, t, k, name);
    }
  }

  lemma Wraps(m: nat, n: nat)
    requires m < n
    ensures (m + n) % n == m
  {
    assert (m + n) / n == 1;
  }

  lemma ChangeToParent(c: Cloner, t: Table, row: Row, source: Row, column: string, key: ForeignKey, m: nat)
    requires FindKey(t.foreignKeys, column) == Some(key) && FindColumn(t.columns, column).Some?
             && Field(row, column) != Null
    requires m < |RowsOf(c.parents, key.table)|
    ensures var rows := RowsOf(c.parents, key.table);
            ChangeColumn(c, t, row, source, column, m + |rows|, 0) == Some(row[column := Field(rows[m], key.refColumn)])
  {
    Wraps(m, |RowsOf(c.parents, key.table)|);
  }

  lemma KeyCase(c: Cloner, t: Table, names: seq<string>, column: string, key: ForeignKey) returns (k: Case)
    requires Movable(c, t, column) && FindKey(t.foreignKeys, column) == Some(key)
    requires column in names && forall name :: name in names ==> Solid(c, t, name)
    ensures Moves(c, t, names, column, k)
  {
    var rows := RowsOf(c.parents, key.table);
    var p, q :| p in rows && q in rows && !Alike(Field(p, key.refColumn), Field(q, key.refColumn));
    var m :| 0 <= m < |rows| && rows[m] == q;
    var from, to, variant := Field(p, key.refColumn), Field(q, key.refColumn), m + |rows|;
    assert SameText(from, from);
    k := MakeCase(c, t, names, column, from, to, from, variant);
    assert Solid(c, t, column) && Proper(from) && Proper(to);
    assert Field(k.row, column) == from;
    ChangeToParent(c, t, k.row, k.source, column, key, m);
    CaseMoves(c, t, names, column, from, to, from, variant);
  }

  lemma ValueCase(c: Cloner, t: Table, names: seq<string>, column: string) returns (k: Case)
    requires Movable(c, t, column) && FindKey(t.foreignKeys, column).None?
    requires column in names && forall name :: name in names ==> Solid(c, t, name)
    ensures Moves(c, t, names, column, k)
  {
    var found := FindColumn(t.columns, column).value;
    var x, w: nat, v: nat :| v >= 2 && Proper(x) && !Alike(Reach(c, t, found, x, w), Reach(c, t, found, x, v));
    var from, to, variant := Reach(c, t, found, x, w), Reach(c, t, found, x, v), v - 1;
    k := MakeCase(c, t, names, column, from, to, x, variant);
    assert Solid(c, t, column) && Proper(from) && Proper(to);
    assert k.row[column] == from && Field(k.source, column) == x;
    CaseMoves(c, t, names, column, from, to, x, variant);
  }

  lemma MovableCase(c: Cloner, t: Table, names: seq<string>, column: string) returns (k: Case)
    requires Movable(c, t, column) && column in names && forall name :: name in names ==> Solid(c, t, name)
    ensures Moves(c, t, names, column, k)
  {
    match FindKey(t.foreignKeys, column) {
      case Some(key) => k := KeyCase(c, t, names, column, key);
      case None => k := ValueCase(c, t, names, column);
    }
  }

  lemma {:induction false} RoundReaches(c: Cloner, t: Table, names: seq<string>, column: string, k: Case,
                                        index: seq<string>, columns: seq<string>, occupied: Occupied)
    requires Moves(c, t, names, column, k) && column in columns && forall name :: name in columns ==> name in names
    requires !Free(k.row, index, occupied) && Free(k.next, index, occupied)
    ensures Round(c, t, k.row, k.source, index, columns, occupied, k.variant, 0) == (k.next, true)
    decreases columns
  {
    if columns[0] != column {
      assert column in columns[1..] && columns[0] in names && Rests(c, t, k, columns[0]);
      RoundReaches(c, t, names, column, k, index, columns[1..], occupied);
    }
  }

  lemma {:induction false} FreeTail(c: Cloner, t: Table, row: Row, source: Row, indexes: seq<seq<string>>, count: nat,
                                    occupied: Occupied, variant: nat, next: Row)
    requires count <= |indexes| && Settle(c, t, row, source, indexes[..count], occupied, variant) == Some(next)
    requires forall k :: count <= k < |indexes| ==> Free(next, indexes[k], occupied)
    ensures Settle(c, t, row, source, indexes, occupied, variant) == Some(next)
    decreases |indexes| - count
  {
    if count < |indexes| {
      assert indexes[..count + 1][..count] == indexes[..count];
      FreeTail(c, t, row, source, indexes, count + 1, occupied, variant, next);
    } else {
      assert indexes[..count] == indexes;
    }
  }

  lemma SettleNext(c: Cloner, t: Table, row: Row, source: Row, indexes: seq<seq<string>>, j: nat, occupied: Occupied,
                   variant: nat, next: Row)
    requires j < |indexes| && Settle(c, t, row, source, indexes[..j], occupied, variant) == Some(row) && c.minimum > 0
    requires !Free(row, indexes[j], occupied)
    requires Round(c, t, row, source, indexes[j], indexes[j], occupied, variant, 0) == (next, true)
    ensures Settle(c, t, row, source, indexes[..j + 1], occupied, variant) == Some(next)
  {
    assert indexes[..j + 1][..j] == indexes[..j];
  }

  ghost predicate NoIndexTwice(indexes: seq<seq<string>>) {
    forall m, n :: 0 <= m < n < |indexes| ==> indexes[m] != indexes[n]
  }

  lemma CaseKeys(c: Cloner, t: Table, names: seq<string>, column: string, k: Case, index: seq<string>)
    requires Moves(c, t, names, column, k) && column in index && forall name :: name in index ==> name in names
    ensures LiveKey(k.row, index).Some? && LiveKey(k.next, index).Some?
            && LiveKey(k.row, index) != LiveKey(k.next, index)
  {
    forall name | name in index
      ensures Field(k.row, name) != Null && Proper(Field(k.row, name))
      ensures Field(k.next, name) != Null && Proper(Field(k.next, name))
      ensures name != column ==> Field(k.next, name) == Field(k.row, name)
    {
      assert name != column ==> Rests(c, t, k, name);
    }
    JoinedIsLive(k.row, index);
    JoinedIsLive(k.next, index);
    JoinedDiffers(k.row, k.next, index, column);
  }

  /** The keys that make the row free on the first index, but not where settling the second leads. */
  lemma KeysOfCase(c: Cloner, t: Table, first: seq<string>, second: seq<string>, column: string, k: Case)
    returns (occupied: Occupied)
    requires first != second && column in first && column in second && Moves(c, t, first + second, column, k)
    ensures Free(k.row, first, occupied) && !Free(k.row, second, occupied)
    ensures !Free(k.next, first, occupied) && Free(k.next, second, occupied)
    ensures forall index :: index != first && index != second ==> KeysOn(occupied, index) == {}
  {
    CaseKeys(c, t, first + second, column, k, first);
    CaseKeys(c, t, first + second, column, k, second);
    occupied := map[first := {LiveKey(k.next, first).value}, second := {LiveKey(k.row, second).value}];
  }

  lemma CaseHeld(c: Cloner, t: Table, indexes: seq<seq<string>>, names: seq<string>, column: string, k: Case)
    requires Moves(c, t, names, column, k)
    ensures RowHeld(c, t, k.row, k.source, indexes)
  {
    forall name ensures Held(c, t, k.source, name, Field(k.row, name)) {
      assert name in k.row && name != column ==> Rests(c, t, k, name);
    }
  }

  lemma CaseSettles(c: Cloner, t: Table, indexes: seq<seq<string>>, i: nat, j: nat, names: seq<string>, column: string,
                    k: Case, occupied: Occupied)
    requires i < j < |indexes| && NoIndexTwice(indexes) && c.minimum > 0 && Moves(c, t, names, column, k)
    requires column in indexes[j] && forall name :: name in indexes[j] ==> name in names
    requires Free(k.row, indexes[i], occupied) && !Free(k.row, indexes[j], occupied)
             && Free(k.next, indexes[j], occupied)
    requires forall index :: index != indexes[i] && index != indexes[j] ==> KeysOn(occupied, index) == {}
    ensures Settle(c, t, k.row, k.source, indexes, occupied, k.variant) == Some(k.next)
  {
    forall m | 0 <= m < |indexes| && m != i && m != j ensures KeysOn(occupied, indexes[m]) == {} {
      assert indexes[m] != indexes[i] && indexes[m] != indexes[j];
    }
    FreeRowIsKept(c, t, k.row, k.source, indexes[..j], occupied, k.variant);
    RoundReaches(c, t, names, column, k, indexes[j], indexes[j], occupied);
    SettleNext(c, t, k.row, k.source, indexes, j, occupied, k.variant, k.next);
    FreeTail(c, t, k.row, k.source, indexes, j + 1, occupied, k.variant, k.next);
  }

  /** A shared column that can move lets the second index undo the first: the row ends on a key in use. */
  lemma SharedColumnUndoes(c: Cloner, t: Table, indexes: seq<seq<string>>, i: nat, j: nat, column: string)
    returns (row: Row, source: Row, occupied: Occupied, variant: nat)
    requires i < j < |indexes| && column in indexes[i] && column in indexes[j] && Movable(c, t, column)
    requires NoIndexTwice(indexes) && c.minimum > 0 && AllSolid(c, t, indexes)
    ensures variant > 0 && RowHeld(c, t, row, source, indexes)
    ensures !AllFree(Settle(c, t, row, source, indexes, occupied, variant), indexes, occupied)
  {
    var first, second := indexes[i], indexes[j];
    assert forall name :: name in first + second ==> name in first || name in second;
    var k := MovableCase(c, t, first + second, column);
    occupied := KeysOfCase(c, t, first, second, column, k);
    CaseHeld(c, t, indexes, first + second, column, k);
    CaseSettles(c, t, indexes, i, j, first + second, column, k, occupied);
    row, source, variant := k.row, k.source, k.variant;
    assert first in indexes;
  }

  /**
   For the generator and parent rows given, settling is safe for all rows, sources and occupied
   keys if and only if no column shared by two indexes can change its text.
   */
  lemma SettlesSafelyIff(c: Cloner, t: Table, indexes: seq<seq<string>>)
    requires c.minimum > 0 && NoIndexTwice(indexes) && AllSolid(c, t, indexes)
    ensures SettlesSafely(c, t, indexes) <==> SharedStay(c, t, indexes)
  {
    if SharedStay(c, t, indexes) {
      forall row, source, occupied, variant: nat | variant > 0 && RowHeld(c, t, row, source, indexes)
        ensures AllFree(Settle(c, t, row, source, indexes, occupied, variant), indexes, occupied)
      {
        assert SharedHeld(c, t, row, source, indexes);
        SettleFrees(c, t, row, source, indexes, occupied, variant);
      }
    } else {
      var column :| Shared(indexes, column) && Movable(c, t, column);
      var i, j :| 0 <= i < j < |indexes| && column in indexes[i] && column in indexes[j];
      var row, source, occupied, variant := SharedColumnUndoes(c, t, indexes, i, j, column);
    }
  }

  // ----- The register

  ghost predicate Registered(occupied: Occupied, rows: seq<Row>, indexes: seq<seq<string>>) {
    forall index, i :: index in indexes && 0 <= i < |rows| && LiveKey(rows[i], index).Some? ==>
      LiveKey(rows[i], index).value in KeysOn(occupied, index)
  }

  lemma {:induction false} OccupyMeaning(occupied: Occupied, row: Row, indexes: seq<seq<string>>, index: seq<string>)
    ensures var after := KeysOn(Occupy(occupied, row, indexes), index);
            && KeysOn(occupied, index) <= after
            && (index in indexes && LiveKey(row, index).Some? ==> LiveKey(row, index).value in after)
  {
    if indexes != [] {
      OccupyMeaning(occupied, row, indexes[..|indexes| - 1], index);
      assert index in indexes ==> index in indexes[..|indexes| - 1] || index == indexes[|indexes| - 1];
    }
  }

  lemma OccupyRegisters(occupied: Occupied, rows: seq<Row>, row: Row, indexes: seq<seq<string>>)
    requires Registered(occupied, rows, indexes)
    ensures Registered(Occupy(occupied, row, indexes), rows + [row], indexes)
  {
    forall index, i | index in indexes && 0 <= i < |rows + [row]| && LiveKey((rows + [row])[i], index).Some?
      ensures LiveKey((rows + [row])[i], index).value in KeysOn(Occupy(occupied, row, indexes), index)
    {
      OccupyMeaning(occupied, row, indexes, index);
      assert i < |rows| ==> (rows + [row])[i] == rows[i];
    }
  }

  /** Each new row differs from every row before it on every index it takes part in. */
  ghost predicate Apart(existing: seq<Row>, rows: seq<Row>, indexes: seq<seq<string>>) {
    forall index, i, j :: index in indexes && 0 <= i < j < |existing + rows| && |existing| <= j ==>
      LiveKey((existing + rows)[j], index).None?
          || LiveKey((existing + rows)[i], index) != LiveKey((existing + rows)[j], index)
  }

  lemma ApartMore(existing: seq<Row>, rows: seq<Row>, row: Row, indexes: seq<seq<string>>, occupied: Occupied)
    requires Apart(existing, rows, indexes) && Registered(occupied, existing + rows, indexes)
    requires forall index :: index in indexes ==> Free(row, index, occupied)
    ensures Apart(existing, rows + [row], indexes)
  {
    var all, more := existing + rows, existing + (rows + [row]);
    assert more == all + [row];
    forall index, i, j | index in indexes && 0 <= i < j < |more| && |existing| <= j
      ensures LiveKey(more[j], index).None? || LiveKey(more[i], index) != LiveKey(more[j], index)
    {
      assert more[i] == all[i];
      if j < |all| {
        assert more[j] == all[j];
      } else {
        assert Free(row, index, occupied);
      }
    }
  }

  lemma {:induction false} RegisterRegisters(rows: seq<Row>, indexes: seq<seq<string>>)
    ensures Registered(Register(rows, indexes), rows, indexes)
  {
    if rows != [] {
      var front, last := rows[..|rows| - 1], rows[|rows| - 1];
      RegisterRegisters(front, indexes);
      OccupyRegisters(Register(front, indexes), front, last, indexes);
      assert front + [last] == rows;
    }
  }

  // ----- The clones of a table

  /** The shared columns cannot move, and the table's own rows hold keys of parents and texts that are not empty. */
  ghost predicate Expandable(c: Cloner, t: Table, existing: seq<Row>) {
    forall column :: Shared(TrackedIndexes(t), column) ==>
      && KeysDistinct(t.foreignKeys) && ClonesKnown(c, t) && Solid(c, t, column) && !Movable(c, t, column)
      && forall source :: source in existing ==> SourceHeld(c, t, source, column)
  }

  ghost predicate SourceHeld(c: Cloner, t: Table, source: Row, column: string) {
    Held(c, t, source, column, Field(source, column))
  }

  lemma {:induction false} LinkedHolds(c: Cloner, t: Table, count: nat, source: Row, variant: nat, column: string)
    requires variant > 0 && count <= |t.foreignKeys| && KeysDistinct(t.foreignKeys) && ClonesKnown(c, t)
    requires Solid(c, t, column) && SourceHeld(c, t, source, column)
    ensures Held(c, t, source, column, Field(Linked(c, t.foreignKeys[..count], source, variant), column))
  {
    if count > 0 {
      var last := t.foreignKeys[count - 1];
      assert t.foreignKeys[..count][..count - 1] == t.foreignKeys[..count - 1];
      LinkedHolds(c, t, count - 1, source, variant, column);
      if last.column == column {
        FindKeyOf(t.foreignKeys, last);
        if HasRows(c.parents, last.table) {
          var p := c.parents[last.table][(variant - 1) % |c.parents[last.table]|];
          assert p in RowsOf(c.parents, last.table);
          assert SameText(Field(p, last.refColumn), Field(p, last.refColumn));
        }
      }
    }
  }

  lemma {:induction false} VaryPrimaryHolds(c: Cloner, t: Table, names: seq<string>, row: Row, source: Row,
                                            variant: nat, column: string)
    requires variant > 0 && Solid(c, t, column)
    requires SourceHeld(c, t, source, column) && Held(c, t, source, column, Field(row, column))
    ensures Held(c, t, source, column, Field(VaryPrimary(c, t, names, row, source, variant), column))
  {
    if names != [] {
      VaryPrimaryHolds(c, t, names[..|names| - 1], row, source, variant, column);
      if names[|names| - 1] == column {
        var key, found := FindKey(t.foreignKeys, column), FindColumn(t.columns, column);
        if key.Some? && HasRows(c.parents, key.value.table) {
          var p := c.parents[key.value.table][(variant - 1) % |c.parents[key.value.table]|];
          assert p in RowsOf(c.parents, key.value.table);
          assert SameText(Field(p, key.value.refColumn), Field(p, key.value.refColumn));
        } else if found.Some? {
          assert c.vary(t.name, found.value, Field(source, column), variant)
              == Reach(c, t, found.value, Field(source, column), variant);
        }
      }
    }
  }

  lemma PreparedHolds(c: Cloner, t: Table, source: Row, variant: nat, column: string)
    requires variant > 0 && KeysDistinct(t.foreignKeys) && ClonesKnown(c, t)
    requires Solid(c, t, column) && SourceHeld(c, t, source, column)
    ensures Held(c, t, source, column, Field(Prepared(c, t, source, variant), column))
  {
    LinkedHolds(c, t, |t.foreignKeys|, source, variant, column);
    assert t.foreignKeys[..|t.foreignKeys|] == t.foreignKeys;
    VaryPrimaryHolds(c, t, t.primaryKeys, Linked(c, t.foreignKeys, source, variant), source, variant, column);
  }

  lemma CloneFrees(c: Cloner, t: Table, existing: seq<Row>, occupied: Occupied, count: nat)
    requires existing != [] && count > 0 && Expandable(c, t, existing)
    ensures var source := SourceOf(existing, count);
            AllFree(Settle(c, t, Prepared(c, t, source, count), source, TrackedIndexes(t), occupied, count),
                    TrackedIndexes(t), occupied)
  {
    var source := SourceOf(existing, count);
    assert source in existing;
    forall column | Shared(TrackedIndexes(t), column)
      ensures Held(c, t, source, column, Field(Prepared(c, t, source, count), column))
    {
      PreparedHolds(c, t, source, count, column);
    }
    SettleFrees(c, t, Prepared(c, t, source, count), source, TrackedIndexes(t), occupied, count);
  }

  lemma {:induction false} ClonesApart(c: Cloner, t: Table, existing: seq<Row>, count: nat)
    requires existing != [] && Clones(c, t, existing, count).Some? && Expandable(c, t, existing)
    ensures var (rows, occupied) := Clones(c, t, existing, count).value;
            && |rows| == count
            && Registered(occupied, existing + rows, TrackedIndexes(t))
            && Apart(existing, rows, TrackedIndexes(t))
  {
    var indexes := TrackedIndexes(t);
    if count == 0 {
      RegisterRegisters(existing, indexes);
      assert existing + [] == existing;
    } else {
      ClonesApart(c, t, existing, count - 1);
      var (rows, occupied) := Clones(c, t, existing, count - 1).value;
      var source := SourceOf(existing, count);
      var row := Settle(c, t, Prepared(c, t, source, count), source, indexes, occupied, count).value;
      CloneFrees(c, t, existing, occupied, count);
      ApartMore(existing, rows, row, indexes, occupied);
      OccupyRegisters(occupied, existing + rows, row, indexes);
      assert existing + (rows + [row]) == existing + rows + [row];
    }
  }

  /**
   An expansion that throws nothing brings the table to the minimum, and if no column shared by
   two tracked indexes can move, no new row repeats a key of the table.
   */
  lemma {:induction false} ExpansionMeaning(c: Cloner, t: Table, existing: seq<Row>)
    requires Expansion(c, t, existing).Some? && Expandable(c, t, existing)
    ensures var rows := Expansion(c, t, existing).value;
            && |existing + rows| == (if |existing| >= c.minimum then |existing| else c.minimum)
            && Apart(existing, rows, TrackedIndexes(t))
  {
    if |existing| < c.minimum {
      ClonesApart(c, t, existing, c.minimum - |existing|);
    }
  }
}
