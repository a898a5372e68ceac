/**
 The verifier that runs after seeding, and what the expansion gives it.
 */
module SeedVerifier {
  import opened SeedTargets
  import opened SeedExpansion
  import opened SeedFixpoint
  import opened SeedIntegrity

  datatype Verdict = Passed | UnderMinimum(tables: seq<string>) | Orphaned(keys: seq<(string, ForeignKey)>)

  predicate Checked(table: string, key: ForeignKey) {
    TableIncluded(table) && key.table !in EXCLUDED_TABLES
  }

  predicate Orphan(row: Row, parents: seq<Row>, key: ForeignKey) {
    var value := Field(row, key.column);
    && !value.Null?
    && !exists p | p in parents :: !Field(p, key.refColumn).Null? && Field(p, key.refColumn).text == value.text
  }

  ghost predicate Short(db: map<string, seq<Row>>, table: string) {
    |RowsOf(db, table)| < TargetFor(table, VERIFIER_DEFAULT)
  }

  ghost predicate Dangling(db: map<string, seq<Row>>, k: (string, ForeignKey)) {
    Checked(k.0, k.1) && !Refers(RowsOf(db, k.0), RowsOf(db, k.1.table), k.1)
  }

  method TablesUnderMinimum(db: map<string, seq<Row>>, names: seq<string>) returns (under: seq<string>)
    ensures forall name :: name in under <==> name in names && TableIncluded(name) && Short(db, name)
  {
    under := [];
    for i := 0 to |names|
      invariant forall name :: name in under <==> name in names[..i] && TableIncluded(name) && Short(db, name)
    {
      var count := |RowsOf(db, names[i])|;
      if TableIncluded(names[i]) {
        if count < TargetFor(names[i], VERIFIER_DEFAULT) {
          under := under + [names[i]];
        }
      }
      assert names[..i + 1] == names[..i] + [names[i]];
    }
    assert names[..|names|] == names;
  }

  method OrphanedKeys(db: map<string, seq<Row>>, keys: seq<(string, ForeignKey)>)
    returns (orphaned: seq<(string, ForeignKey)>)
    ensures forall k :: k in orphaned <==> k in keys && Dangling(db, k)
  {
    orphaned := [];
    for i := 0 to |keys|
      invariant forall k :: k in orphaned <==> k in keys[..i] && Dangling(db, k)
    {
      if Checked(keys[i].0, keys[i].1) {
        var count := CountOrphans(RowsOf(db, keys[i].0), RowsOf(db, keys[i].1.table), keys[i].1);
        if count > 0 {
          orphaned := orphaned + [keys[i]];
        }
      }
      assert keys[..i + 1] == keys[..i] + [keys[i]];
    }
    assert keys[..|keys|] == keys;
  }

  /** What the verifier accepts: no included table short, no checked key dangling. */
  ghost predicate Accepts(db: map<string, seq<Row>>, names: seq<string>, keys: seq<(string, ForeignKey)>) {
    && (forall name :: name in names && TableIncluded(name) ==> !Short(db, name))
    && forall k :: k in keys ==> !Dangling(db, k)
  }

  /** The row-count check over every included table, and only then the orphan check. */
  method VerifyCoverage(db: map<string, seq<Row>>, names: seq<string>, keys: seq<(string, ForeignKey)>)
    returns (verdict: Verdict)
    ensures verdict.Passed? <==> Accepts(db, names, keys)
    ensures verdict.UnderMinimum? <==> exists name :: name in names && TableIncluded(name) && Short(db, name)
    ensures verdict.UnderMinimum? ==>
              forall name :: name in verdict.tables <==> name in names && TableIncluded(name) && Short(db, name)
    ensures verdict.Orphaned? ==> forall k :: k in verdict.keys <==> k in keys && Dangling(db, k)
  {
    var under := TablesUnderMinimum(db, names);
    if |under| > 0 {
      assert under[0] in under;
      return UnderMinimum(under);
    }
    var orphaned := OrphanedKeys(db, keys);
    if |orphaned| > 0 {
      assert orphaned[0] in orphaned;
      return Orphaned(orphaned);
    }
    return Passed;
  }

  /** The left join of children with parents, counting children left without one. */
  method CountOrphans(rows: seq<Row>, parents: seq<Row>, key: ForeignKey) returns (count: nat)
    ensures count == 0 <==> Refers(rows, parents, key)
  {
    count := 0;
    for i := 0 to |rows|
      invariant count == 0 <==> Refers(rows[..i], parents, key)
    {
      assert rows[..i + 1] == rows[..i] + [rows[i]];
      if Orphan(rows[i], parents, key) {
        count := count + 1;
        assert rows[i] in rows[..i + 1];
      }
    }
    assert rows[..|rows|] == rows;
  }

  // ----- The expander and the verifier together

  /** The expander's targets: the shared overrides, with the configured minimum as default. */
  ghost predicate ConfiguredTargets(env: Env, minRecords: nat) {
    forall name :: env.target(name) == TargetFor(name, minRecords)
  }

  lemma TargetsAgree(name: string, minRecords: nat)
    requires minRecords >= VERIFIER_DEFAULT
    ensures 0 < TargetFor(name, VERIFIER_DEFAULT) <= TargetFor(name, minRecords)
  {
  }

  ghost predicate ListsTables(names: seq<string>, tables: seq<Table>) {
    forall name :: name in names && TableIncluded(name) ==> exists t :: t in tables && t.name == name
  }

  ghost predicate ListsKeys(keys: seq<(string, ForeignKey)>, schema: seq<Table>) {
    forall k :: k in keys && Checked(k.0, k.1) ==> exists t :: t in schema && t.name == k.0 && k.1 in t.foreignKeys
  }

  /**
   Over a sound schema in which the required keys of the tables that start short form no cycle, a
   seeded database in which no table stopped itself or was cut off passes the verifier.
   */
  lemma SeededDatabasePasses(env: Env, minRecords: nat, db: map<string, seq<Row>>, tables: seq<Table>,
                             schema: seq<Table>, filled: set<string>, rank: map<string, nat>, names: seq<string>,
                             keys: seq<(string, ForeignKey)>)
    requires ConfiguredTargets(env, minRecords) && minRecords >= VERIFIER_DEFAULT
    requires (forall t :: t in tables ==> t.name in db) && Acyclic(env, db, tables, rank)
    requires SchemaReady(env, tables, schema) && Sound(db, schema, filled)
    requires ListsTables(names, tables) && ListsKeys(keys, schema)
    requires var s := SeedCoverage(env, db, tables);
             forall t :: t in tables ==> !StopsItself(env, s, t) && !CutOff(env, db, t, tables)
    ensures Accepts(SeedCoverage(env, db, tables).db, names, keys)
  {
    var s := SeedCoverage(env, db, tables);
    forall t | t in tables ensures Target(env, t) > 0 {
      TargetsAgree(t.name, minRecords);
    }
    EveryTableFullIff(env, db, tables, rank);
    SeedingKeepsIntegrity(env, db, tables, schema, filled);
    forall name | name in names && TableIncluded(name) ensures !Short(s.db, name) {
      var t :| t in tables && t.name == name;
      assert Full(env, s, t);
      TargetsAgree(name, minRecords);
    }
    forall k | k in keys && Checked(k.0, k.1) ensures !Dangling(s.db, k) {
      var t :| t in schema && t.name == k.0 && k.1 in t.foreignKeys;
      assert KeysValid(s.db, t);
    }
  }

  /** With the verifier's own default as minimum, these conditions are also necessary. */
  lemma {:induction false} SeededDatabasePassesIff(env: Env, db: map<string, seq<Row>>, tables: seq<Table>,
                                                   schema: seq<Table>, filled: set<string>, rank: map<string, nat>,
                                                   names: seq<string>, keys: seq<(string, ForeignKey)>)
    requires ConfiguredTargets(env, VERIFIER_DEFAULT)
    requires (forall t :: t in tables ==> t.name in db) && Acyclic(env, db, tables, rank)
    requires SchemaReady(env, tables, schema) && Sound(db, schema, filled)
    requires ListsTables(names, tables) && ListsKeys(keys, schema)
    requires forall t :: t in tables ==> t.name in names && TableIncluded(t.name)
    ensures var s := SeedCoverage(env, db, tables);
            Accepts(s.db, names, keys) <==>
            forall t :: t in tables ==> !StopsItself(env, s, t) && !CutOff(env, db, t, tables)
  {
    var s := SeedCoverage(env, db, tables);
    if forall t :: t in tables ==> !StopsItself(env, s, t) && !CutOff(env, db, t, tables) {
      SeededDatabasePasses(env, VERIFIER_DEFAULT, db, tables, schema, filled, rank, names, keys);
    }
    if Accepts(s.db, names, keys) {
      forall t | t in tables ensures Target(env, t) > 0 && Full(env, s, t) {
        TargetsAgree(t.name, VERIFIER_DEFAULT);
        assert !Short(s.db, t.name);
      }
      EveryTableFullIff(env, db, tables, rank);
    }
  }

  /** With the verifier's own default as minimum, a table it finds short is one that was stopped. */
  lemma {:induction false} ShortForVerifierIffStopped(env: Env, db: map<string, seq<Row>>, tables: seq<Table>, t: Table)
    requires ConfiguredTargets(env, VERIFIER_DEFAULT)
    requires (forall u :: u in tables ==> u.name in db) && t in tables
    ensures var s := SeedCoverage(env, db, tables);
            Short(s.db, t.name) <==>
              StopsItself(env, s, t) || (|s.db[t.name]| < Target(env, t) && LacksParent(t, s.parents))
  {
    BoundSuffices(env, db, tables);
    ShortIffStopped(env, SeedCoverage(env, db, tables), t, tables);
  }
}
