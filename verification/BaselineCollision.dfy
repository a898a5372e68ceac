/**
 A run of the baseline expander that ends on a repeated key.

 Provinces are unique by country and code and by country and slug.  With ten countries and four
 provinces, settling the first clone on the second index moves it to a country in which its code
 is taken.
 */
module BaselineCollision {
  import opened Decimals
  import opened Wrappers
  import opened SeedExpansion
  import opened SeedIntegrity
  import opened BaselineExpansion
  import opened BaselineUniqueness

  const COUNTRY: ForeignKey := ForeignKey("country_id", "countries", "id")
  const BY_CODE: seq<string> := ["country_id", "code"]
  const BY_SLUG: seq<string> := ["country_id", "slug"]

  function Plain(name: string): Column {
    Column(name, false, None, false)
  }

  function Provinces(): Table {
    Table("provinces", [Plain("country_id"), Plain("code"), Plain("slug")], ["id"], [BY_CODE, BY_SLUG], [COUNTRY])
  }

  function Country(i: nat): string {
    Decimal(i)
  }

  function Countries(): seq<Row> {
    seq(10, i requires 0 <= i < 10 => map["id" := Text(Country(i))])
  }

  /** Strings get a numbered suffix, as long as they fit. */
  function Suffixing(): Cloner {
    Cloner((table: string, column: Column, value: Value, variant: nat) =>
             if value.Null? then Null else Text(value.text + "-seed-" + Decimal(variant)),
           (table, key, variant) => None, map["countries" := Countries()], 10)
  }

  function Province(country: string, code: string, slug: string): Row {
    map["country_id" := Text(country), "code" := Text(code), "slug" := Text(slug)]
  }

  /** In the first country, two in the second, and one in the third. */
  function Existing(): seq<Row> {
    [Province(Country(0), "A", "X"), Province(Country(1), "B", "X"), Province(Country(1), "C", Varied()),
     Province(Country(2), "A", "Y")]
  }

  function Varied(): string {
    "X-seed-" + Decimal(2)
  }

  // ----- Keys of two columns

  function Pair(a: string, b: string): string {
    a + "\U{001f}" + b
  }

  lemma PairsDiffer(a: string, b: string, x: string, y: string)
    requires |a| == |x| && (a != x || b != y)
    ensures Pair(a, b) != Pair(x, y)
  {
    assert Pair(a, b)[..|a|] == a && Pair(x, y)[..|x|] == x;
    assert Pair(a, b)[|a| + 1..] == b && Pair(x, y)[|x| + 1..] == y;
  }

  lemma PairKey(row: Row, a: string, b: string)
    requires Field(row, a) != Null && Field(row, b) != Null
    ensures LiveKey(row, [a, b]) == Some(Pair(Field(row, a).text, Field(row, b).text))
  {
    var index := [a, b];
    assert index[..1] == [a] && index[1] == b;
    assert forall name :: name in index ==> Field(row, name) != Null;
    assert Joined(row, index) == Pair(Field(row, a).text, Field(row, b).text);
    assert |Pair(Field(row, a).text, Field(row, b).text)| >= 1;
  }

  lemma ProvinceKeys(country: string, code: string, slug: string)
    ensures LiveKey(Province(country, code, slug), BY_CODE) == Some(Pair(country, code))
    ensures LiveKey(Province(country, code, slug), BY_SLUG) == Some(Pair(country, slug))
  {
    PairKey(Province(country, code, slug), "country_id", "code");
    PairKey(Province(country, code, slug), "country_id", "slug");
  }

  lemma {:induction false} OccupyOnly(occupied: Occupied, row: Row, indexes: seq<seq<string>>, index: seq<string>,
                                      key: string)
    requires key in KeysOn(Occupy(occupied, row, indexes), index)
    ensures key in KeysOn(occupied, index) || LiveKey(row, index) == Some(key)
  {
    if indexes != [] {
      var before := Occupy(occupied, row, indexes[..|indexes| - 1]);
      if key in KeysOn(before, index) {
        OccupyOnly(occupied, row, indexes[..|indexes| - 1], index, key);
      }
    }
  }

  lemma {:induction false} RegisterOnly(rows: seq<Row>, indexes: seq<seq<string>>, index: seq<string>, key: string)
    requires key in KeysOn(Register(rows, indexes), index)
    ensures exists i :: 0 <= i < |rows| && LiveKey(rows[i], index) == Some(key)
  {
    if rows != [] {
      var front, last := rows[..|rows| - 1], rows[|rows| - 1];
      OccupyOnly(Register(front, indexes), last, indexes, index, key);
      if key in KeysOn(Register(front, indexes), index) {
        RegisterOnly(front, indexes, index, key);
        var i :| 0 <= i < |front| && LiveKey(front[i], index) == Some(key);
        assert rows[i] == front[i];
      }
    }
  }

  function Taken(): Occupied {
    Register(Existing(), [BY_CODE, BY_SLUG])
  }

  lemma CountriesDiffer()
    ensures |Country(0)| == |Country(1)| == |Country(2)| == 1
    ensures Country(0) != Country(1) && Country(0) != Country(2) && Country(1) != Country(2)
  {
    forall i, j | 0 <= i < j < 3 ensures |Country(i)| == 1 && |Country(j)| == 1 && Country(i) != Country(j) {
      if Country(i) == Country(j) {
        DecimalInjective(i, j);
      }
    }
    assert |Country(0)| == 1 && |Country(1)| == 1 && |Country(2)| == 1;
  }

  lemma FourRegistered(rows: seq<Row>, indexes: seq<seq<string>>, index: seq<string>, key: string,
                       k0: string, k1: string, k2: string, k3: string)
    requires |rows| == 4 && index in indexes
    requires LiveKey(rows[0], index) == Some(k0) && LiveKey(rows[1], index) == Some(k1)
    requires LiveKey(rows[2], index) == Some(k2) && LiveKey(rows[3], index) == Some(k3)
    ensures key in KeysOn(Register(rows, indexes), index) <==> key == k0 || key == k1 || key == k2 || key == k3
  {
    RegisterRegisters(rows, indexes);
    if key in KeysOn(Register(rows, indexes), index) {
      RegisterOnly(rows, indexes, index, key);
    }
  }

  lemma TakenByCode(country: string, code: string)
    requires |country| == 1
    ensures Pair(country, code) in KeysOn(Taken(), BY_CODE) <==>
            || (country == Country(0) && code == "A") || (country == Country(1) && code == "B")
            || (country == Country(1) && code == "C") || (country == Country(2) && code == "A")
  {
    CountriesDiffer();
    ExistingKeys();
    FourRegistered(Existing(), [BY_CODE, BY_SLUG], BY_CODE, Pair(country, code),
                   Pair(Country(0), "A"), Pair(Country(1), "B"), Pair(Country(1), "C"), Pair(Country(2), "A"));
    PairMeans(country, code, Country(0), "A");
    PairMeans(country, code, Country(1), "B");
    PairMeans(country, code, Country(1), "C");
    PairMeans(country, code, Country(2), "A");
  }

  lemma TakenBySlug(country: string, slug: string)
    requires |country| == 1
    ensures Pair(country, slug) in KeysOn(Taken(), BY_SLUG) <==>
            || (country == Country(0) && slug == "X") || (country == Country(1) && slug == "X")
            || (country == Country(1) && slug == Varied()) || (country == Country(2) && slug == "Y")
  {
    CountriesDiffer();
    ExistingKeys();
    FourRegistered(Existing(), [BY_CODE, BY_SLUG], BY_SLUG, Pair(country, slug),
                   Pair(Country(0), "X"), Pair(Country(1), "X"), Pair(Country(1), Varied()), Pair(Country(2), "Y"));
    PairMeans(country, slug, Country(0), "X");
    PairMeans(country, slug, Country(1), "X");
    PairMeans(country, slug, Country(1), Varied());
    PairMeans(country, slug, Country(2), "Y");
  }

  lemma PairMeans(a: string, b: string, x: string, y: string)
    requires |a| == |x|
    ensures Pair(a, b) == Pair(x, y) <==> a == x && b == y
  {
    if a != x || b != y {
      PairsDiffer(a, b, x, y);
    }
  }

  lemma ExistingKeys()
    ensures var rows := Existing();
            && LiveKey(rows[0], BY_CODE) == Some(Pair(Country(0), "A"))
               && LiveKey(rows[0], BY_SLUG) == Some(Pair(Country(0), "X"))
            && LiveKey(rows[1], BY_CODE) == Some(Pair(Country(1), "B"))
               && LiveKey(rows[1], BY_SLUG) == Some(Pair(Country(1), "X"))
            && LiveKey(rows[2], BY_CODE) == Some(Pair(Country(1), "C"))
               && LiveKey(rows[2], BY_SLUG) == Some(Pair(Country(1), Varied()))
            && LiveKey(rows[3], BY_CODE) == Some(Pair(Country(2), "A"))
               && LiveKey(rows[3], BY_SLUG) == Some(Pair(Country(2), "Y"))
  {
    ProvinceKeys(Country(0), "A", "X");
    ProvinceKeys(Country(1), "B", "X");
    ProvinceKeys(Country(1), "C", Varied());
    ProvinceKeys(Country(2), "A", "Y");
  }

  // ----- The changes settling makes

  lemma Moved(country: string, code: string, slug: string, attempt: nat)
    requires attempt < 9
    ensures ChangeColumn(Suffixing(), Provinces(), Province(country, code, slug), Existing()[0], "country_id", 1,
                         attempt)
         == Some(Province(Country(1 + attempt), code, slug))
  {
    var t := Provinces();
    assert FindColumn(t.columns, "country_id") == Some(t.columns[0]);
    assert FindKey(t.foreignKeys, "country_id") == Some(COUNTRY);
    assert (1 + attempt) % 10 == 1 + attempt;
    assert Countries()[1 + attempt] == map["id" := Text(Country(1 + attempt))];
    assert Province(country, code, slug)["country_id" := Text(Country(1 + attempt))] ==
        Province(Country(1 + attempt), code, slug);
  }

  lemma Suffixed(country: string, code: string, slug: string)
    ensures ChangeColumn(Suffixing(), Provinces(), Province(country, code, slug), Existing()[0], "slug", 1, 0)
         == Some(Province(country, code, Varied()))
  {
    var t := Provinces();
    assert t.columns[0].name != "slug" && t.columns[1].name != "slug";
    assert t.columns[1..][0] == t.columns[1] && t.columns[1..][1..][0] == t.columns[2];
    assert FindColumn(t.columns, "slug") == Some(t.columns[2]);
    assert t.foreignKeys[..0] == [];
    assert FindKey(t.foreignKeys, "slug") == None;
    assert "X" + "-seed-" + Decimal(2) == Varied();
    assert Province(country, code, slug)["slug" := Text(Varied())] == Province(country, code, Varied());
  }

  lemma FreeByCode(country: string, code: string, slug: string)
    requires |country| == 1
    ensures Free(Province(country, code, slug), BY_CODE, Taken()) <==> Pair(country, code) !in KeysOn(Taken(), BY_CODE)
  {
    ProvinceKeys(country, code, slug);
  }

  lemma FreeBySlug(country: string, code: string, slug: string)
    requires |country| == 1
    ensures Free(Province(country, code, slug), BY_SLUG, Taken()) <==> Pair(country, slug) !in KeysOn(Taken(), BY_SLUG)
  {
    ProvinceKeys(country, code, slug);
  }

  lemma SettledAtOnce(c: Cloner, t: Table, row: Row, source: Row, index: seq<string>, occupied: Occupied, variant: nat,
                      next: Row)
    requires c.minimum > 0 && index != [] && !Free(row, index, occupied) && Free(next, index, occupied)
    requires ChangeColumn(c, t, row, source, index[0], variant, 0) == Some(next)
    ensures SettleIndex(c, t, row, source, index, occupied, variant) == Some(next)
  {
    assert Round(c, t, row, source, index, index, occupied, variant, 0) == (next, true);
  }

  lemma RoundOfTwo(c: Cloner, t: Table, row: Row, source: Row, a: string, b: string, occupied: Occupied, variant: nat,
                   attempt: nat, mid: Row, next: Row)
    requires ChangeColumn(c, t, row, source, a, variant, attempt) == Some(mid) && !Free(mid, [a, b], occupied)
    requires ChangeColumn(c, t, mid, source, b, variant, attempt) == Some(next) && !Free(next, [a, b], occupied)
    ensures Round(c, t, row, source, [a, b], [a, b], occupied, variant, attempt) == (next, false)
  {
    assert [a, b][1..] == [b] && [b][1..] == [];
    assert Round(c, t, mid, source, [a, b], [b], occupied, variant, attempt) == (next, false);
  }

  lemma SettledInTwoRounds(c: Cloner, t: Table, row: Row, source: Row, index: seq<string>, occupied: Occupied,
                           variant: nat, mid: Row, next: Row)
    requires c.minimum > 0 && index != [] && !Free(row, index, occupied) && Free(next, index, occupied)
    requires Round(c, t, row, source, index, index, occupied, variant, 0) == (mid, false)
    requires ChangeColumn(c, t, mid, source, index[0], variant, 1) == Some(next)
    ensures SettleIndex(c, t, row, source, index, occupied, variant) == Some(next)
  {
    assert Round(c, t, mid, source, index, index, occupied, variant, 1) == (next, true);
    assert Rounds(c, t, mid, source, index, occupied, variant, 1) == (next, true);
  }

  lemma FirstIndex()
    ensures SettleIndex(Suffixing(), Provinces(), Existing()[0], Existing()[0], BY_CODE, Taken(), 1)
         == Some(Province(Country(1), "A", "X"))
  {
    CountriesDiffer();
    FreeByCode(Country(0), "A", "X");
    FreeByCode(Country(1), "A", "X");
    TakenByCode(Country(0), "A");
    TakenByCode(Country(1), "A");
    Moved(Country(0), "A", "X", 0);
    SettledAtOnce(Suffixing(), Provinces(), Existing()[0], Existing()[0], BY_CODE, Taken(), 1,
                  Province(Country(1), "A", "X"));
  }

  lemma FirstRound()
    ensures Round(Suffixing(), Provinces(), Province(Country(1), "A", "X"), Existing()[0], BY_SLUG, BY_SLUG, Taken(),
                  1, 0)
         == (Province(Country(1), "A", Varied()), false)
  {
    CountriesDiffer();
    FreeBySlug(Country(1), "A", "X");
    FreeBySlug(Country(1), "A", Varied());
    TakenBySlug(Country(1), "X");
    TakenBySlug(Country(1), Varied());
    Moved(Country(1), "A", "X", 0);
    Suffixed(Country(1), "A", "X");
    RoundOfTwo(Suffixing(), Provinces(), Province(Country(1), "A", "X"), Existing()[0], "country_id", "slug", Taken(),
               1, 0,
               Province(Country(1), "A", "X"), Province(Country(1), "A", Varied()));
  }

  lemma SecondIndex()
    ensures SettleIndex(Suffixing(), Provinces(), Province(Country(1), "A", "X"), Existing()[0], BY_SLUG, Taken(), 1)
         == Some(Province(Country(2), "A", Varied()))
  {
    CountriesDiffer();
    FreeBySlug(Country(1), "A", "X");
    FreeBySlug(Country(2), "A", Varied());
    TakenBySlug(Country(1), "X");
    TakenBySlug(Country(2), Varied());
    FirstRound();
    Moved(Country(1), "A", Varied(), 1);
    SettledInTwoRounds(Suffixing(), Provinces(), Province(Country(1), "A", "X"), Existing()[0], BY_SLUG, Taken(), 1,
                       Province(Country(1), "A", Varied()), Province(Country(2), "A", Varied()));
  }

  lemma FirstPrepared()
    ensures Prepared(Suffixing(), Provinces(), Existing()[0], 1) == Existing()[0]
  {
    var c, t, source := Suffixing(), Provinces(), Existing()[0];
    assert t.foreignKeys[..0] == [] && t.foreignKeys[0] == COUNTRY;
    assert Field(source, "country_id") == Text(Country(0));
    assert Countries()[0] == map["id" := Text(Country(0))];
    assert source["country_id" := Text(Country(0))] == source;
    assert Linked(c, [], source, 1) == source;
    assert Linked(c, t.foreignKeys, source, 1) == source;
  }

  lemma SettleTwo(c: Cloner, t: Table, row: Row, source: Row, a: seq<string>, b: seq<string>, occupied: Occupied,
                  variant: nat, next: Row)
    requires SettleIndex(c, t, row, source, a, occupied, variant) == Some(next)
    ensures Settle(c, t, row, source, [a, b], occupied, variant) ==
            SettleIndex(c, t, next, source, b, occupied, variant)
  {
    assert [a, b][..1] == [a] && [a][..0] == [];
    assert Settle(c, t, row, source, [a], occupied, variant) == Some(next);
  }

  lemma FirstClone()
    ensures Settle(Suffixing(), Provinces(), Existing()[0], Existing()[0], [BY_CODE, BY_SLUG], Taken(), 1)
         == Some(Province(Country(2), "A", Varied()))
  {
    FirstIndex();
    SecondIndex();
    SettleTwo(Suffixing(), Provinces(), Existing()[0], Existing()[0], BY_CODE, BY_SLUG, Taken(), 1,
              Province(Country(1), "A", "X"));
  }

  lemma OneClone(c: Cloner, t: Table, existing: seq<Row>, indexes: seq<seq<string>>, row: Row, next: Row)
    requires existing != [] && TrackedIndexes(t) == indexes && Prepared(c, t, existing[0], 1) == row
    requires Settle(c, t, row, existing[0], indexes, Register(existing, indexes), 1) == Some(next)
    ensures Clones(c, t, existing, 1).Some? && Clones(c, t, existing, 1).value.0 == [next]
  {
    assert Clones(c, t, existing, 0) == Some(([], Register(existing, indexes)));
    assert SourceOf(existing, 1) == existing[0];
  }

  lemma CollidingClone()
    ensures Clones(Suffixing(), Provinces(), Existing(), 1).Some?
    ensures Clones(Suffixing(), Provinces(), Existing(), 1).value.0 == [Province(Country(2), "A", Varied())]
  {
    FirstPrepared();
    FirstClone();
    OneClone(Suffixing(), Provinces(), Existing(), [BY_CODE, BY_SLUG], Existing()[0],
             Province(Country(2), "A", Varied()));
  }

  lemma ExistingDiffer()
    ensures forall i, j :: 0 <= i < j < 4 ==>
              LiveKey(Existing()[i], BY_CODE) != LiveKey(Existing()[j], BY_CODE)
              && LiveKey(Existing()[i], BY_SLUG) != LiveKey(Existing()[j], BY_SLUG)
  {
    ExistingKeys();
    CountriesDiffer();
    PairsDiffer(Country(0), "A", Country(1), "B");
    PairsDiffer(Country(0), "A", Country(1), "C");
    PairsDiffer(Country(0), "A", Country(2), "A");
    PairsDiffer(Country(1), "B", Country(1), "C");
    PairsDiffer(Country(1), "B", Country(2), "A");
    PairsDiffer(Country(1), "C", Country(2), "A");
    PairsDiffer(Country(0), "X", Country(1), "X");
    PairsDiffer(Country(0), "X", Country(1), Varied());
    PairsDiffer(Country(0), "X", Country(2), "Y");
    PairsDiffer(Country(1), "X", Country(1), Varied());
    PairsDiffer(Country(1), "X", Country(2), "Y");
    PairsDiffer(Country(1), Varied(), Country(2), "Y");
  }

  lemma ExistingRefer()
    ensures Refers(Existing(), Countries(), COUNTRY)
  {
    forall row | row in Existing() && !Field(row, COUNTRY.column).Null?
      ensures exists p :: p in Countries() && SameText(Field(row, COUNTRY.column), Field(p, COUNTRY.refColumn))
    {
      var i: nat :| i < 3 && Field(row, "country_id") == Text(Country(i));
      assert Countries()[i] == map["id" := Text(Country(i))];
      assert Countries()[i] in Countries();
    }
  }

  /** Four provinces, unique on both indexes, whose first clone repeats the country and code of the fourth. */
  lemma ProvincesCollide()
    ensures TrackedIndexes(Provinces()) == [BY_CODE, BY_SLUG]
    ensures forall i, j :: 0 <= i < j < 4 ==>
              LiveKey(Existing()[i], BY_CODE) != LiveKey(Existing()[j], BY_CODE)
              && LiveKey(Existing()[i], BY_SLUG) != LiveKey(Existing()[j], BY_SLUG)
    ensures Refers(Existing(), Countries(), COUNTRY)
    ensures var clones := Clones(Suffixing(), Provinces(), Existing(), 1);
            && clones.Some? && |clones.value.0| == 1
            && LiveKey(clones.value.0[0], BY_CODE).Some?
            && LiveKey(clones.value.0[0], BY_CODE) == LiveKey(Existing()[3], BY_CODE)
  {
    CollidingClone();
    ExistingKeys();
    ProvinceKeys(Country(2), "A", Varied());
    ExistingDiffer();
    ExistingRefer();
  }
}
