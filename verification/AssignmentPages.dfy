/**
 Paging through the active assignments of one agent while other callers change them.

 A page is the query `uuid > cursor, ascending, take limit`; a walk passes the last uuid of a
 full page as the next cursor and stops at the first page that is short.  Each call sees the
 table as it is at that moment.
 */
module AssignmentPages {
  import opened Wrappers
  import opened AssignmentTable

  function Clamp(limit: int): nat {
    if limit < 1 then 1 else if limit > 100 then 100 else limit
  }

  function CurrentUuids(rows: map<Key, Row>, agent: string): set<nat> {
    set k | k in ActiveKeys(rows, agent) :: rows[k].uuid
  }

  function Beyond(uuids: set<nat>, cursor: Option<nat>): set<nat> {
    set u | u in uuids && (cursor.Some? ==> u > cursor.value)
  }

  ghost function Least(uuids: set<nat>): (m: nat)
    requires uuids != {}
    ensures m in uuids && forall u :: u in uuids ==> m <= u
  {
    LeastExists(uuids);
    var m :| m in uuids && forall u :: u in uuids ==> m <= u;
    m
  }

  lemma LeastExists(uuids: set<nat>)
    requires uuids != {}
    ensures exists m :: m in uuids && forall u :: u in uuids ==> m <= u
  {
    var m :| m in uuids;
    if m' :| m' in uuids && m' < m {
      var rest := uuids - {m};
      assert m' in rest;
      LeastExists(rest);
      var least :| least in rest && forall u :: u in rest ==> least <= u;
      forall u | u in uuids ensures least <= u {
        assert u == m || u in rest;
      }
    }
  }

  /** The `count` smallest elements, smallest first. */
  ghost function Smallest(uuids: set<nat>, count: nat): (page: seq<nat>) {
    if count == 0 || uuids == {} then []
    else [Least(uuids)] + Smallest(uuids - {Least(uuids)}, count - 1)
  }

  ghost function ListCurrent(rows: map<Key, Row>, agent: string, limit: int, cursor: Option<nat>): seq<nat> {
    Smallest(Beyond(CurrentUuids(rows, agent), cursor), Clamp(limit))
  }

  /** Everything the calls return, one table per call; the walk stops at the first short page. */
  ghost function Walk(tables: seq<map<Key, Row>>, agent: string, limit: int, cursor: Option<nat>): seq<nat> {
    if tables == [] then []
    else
      var page := ListCurrent(tables[0], agent, limit, cursor);
      if |page| < Clamp(limit) then page
      else page + Walk(tables[1..], agent, limit, Some(page[|page| - 1]))
  }

  /** The number of calls until the first short page; more than the tables given if there is none. */
  ghost function Calls(tables: seq<map<Key, Row>>, agent: string, limit: int, cursor: Option<nat>): (calls: nat)
    ensures calls > 0
  {
    if tables == [] then 1
    else
      var page := ListCurrent(tables[0], agent, limit, cursor);
      if |page| < Clamp(limit) then 1
      else 1 + Calls(tables[1..], agent, limit, Some(page[|page| - 1]))
  }

  ghost predicate Completes(tables: seq<map<Key, Row>>, agent: string, limit: int, cursor: Option<nat>) {
    Calls(tables, agent, limit, cursor) <= |tables|
  }

  ghost predicate Ascending(s: seq<nat>) {
    forall i, j :: 0 <= i < j < |s| ==> s[i] < s[j]
  }

  lemma {:induction false} SmallestIsSubset(uuids: set<nat>, count: nat)
    ensures forall u :: u in Smallest(uuids, count) ==> u in uuids
    ensures |Smallest(uuids, count)| == (if |uuids| < count then |uuids| else count)
  {
    if count != 0 && uuids != {} {
      SmallestIsSubset(uuids - {Least(uuids)}, count - 1);
    }
  }

  lemma {:induction false} SmallestAscends(uuids: set<nat>, count: nat)
    ensures Ascending(Smallest(uuids, count))
  {
    if count != 0 && uuids != {} {
      var m := Least(uuids);
      var rest := Smallest(uuids - {m}, count - 1);
      SmallestAscends(uuids - {m}, count - 1);
      SmallestIsSubset(uuids - {m}, count - 1);
      forall i, j | 0 <= i < j < |[m] + rest| ensures ([m] + rest)[i] < ([m] + rest)[j] {
        assert ([m] + rest)[j] == rest[j - 1];
        assert rest[j - 1] in rest;
      }
    }
  }

  lemma {:induction false} SmallestSkipsNothing(uuids: set<nat>, count: nat, u: nat)
    requires u in uuids && u !in Smallest(uuids, count)
    ensures |Smallest(uuids, count)| == count
    ensures forall v :: v in Smallest(uuids, count) ==> v < u
  {
    if count != 0 && uuids != {} {
      SmallestSkipsNothing(uuids - {Least(uuids)}, count - 1, u);
    }
  }

  lemma SmallestIsPage(uuids: set<nat>, count: nat)
    ensures var page := Smallest(uuids, count);
            && Ascending(page)
            && |page| == (if |uuids| < count then |uuids| else count)
            && (forall u :: u in page ==> u in uuids)
            && (forall u :: u in uuids && u !in page ==> |page| == count && forall v :: v in page ==> v < u)
  {
    SmallestIsSubset(uuids, count);
    SmallestAscends(uuids, count);
    forall u | u in uuids && u !in Smallest(uuids, count)
      ensures |Smallest(uuids, count)| == count && forall v :: v in Smallest(uuids, count) ==> v < u
    {
      SmallestSkipsNothing(uuids, count, u);
    }
  }

  /** One page: ascending, beyond the cursor, and nothing between its elements is skipped. */
  lemma PageMeaning(rows: map<Key, Row>, agent: string, limit: int, cursor: Option<nat>)
    ensures var page := ListCurrent(rows, agent, limit, cursor);
            && Ascending(page)
            && |page| <= Clamp(limit) <= 100 && (1 <= limit <= 100 ==> Clamp(limit) == limit) && Clamp(limit) >= 1
            && (forall u :: u in page ==> u in CurrentUuids(rows, agent) && (cursor.Some? ==> cursor.value < u))
            && (forall u :: u in Beyond(CurrentUuids(rows, agent), cursor) && u !in page ==>
                  |page| == Clamp(limit) && page[|page| - 1] < u)
  {
    SmallestIsPage(Beyond(CurrentUuids(rows, agent), cursor), Clamp(limit));
    var page := ListCurrent(rows, agent, limit, cursor);
    assert |page| > 0 ==> page[|page| - 1] in page;
  }

  /** Whatever changes between the calls, the listing is strictly ascending, so nothing is listed twice. */
  lemma {:induction false} WalkNeverRepeats(tables: seq<map<Key, Row>>, agent: string, limit: int, cursor: Option<nat>)
    ensures Ascending(Walk(tables, agent, limit, cursor))
    ensures forall u :: u in Walk(tables, agent, limit, cursor) ==> cursor.Some? ==> cursor.value < u
    decreases tables
  {
    if tables != [] {
      var page := ListCurrent(tables[0], agent, limit, cursor);
      PageMeaning(tables[0], agent, limit, cursor);
      if |page| == Clamp(limit) {
        var last := page[|page| - 1];
        var rest := Walk(tables[1..], agent, limit, Some(last));
        WalkNeverRepeats(tables[1..], agent, limit, Some(last));
        forall i, j | 0 <= i < j < |page + rest| ensures (page + rest)[i] < (page + rest)[j] {
          if i < |page| <= j {
            assert (page + rest)[j] in rest;
          }
        }
        forall u | u in page + rest ensures cursor.Some? ==> cursor.value < u {
          assert last in page;
        }
      }
    }
  }

  /** A completed walk lists every assignment that is active at each of its calls. */
  lemma {:induction false} WalkMissesNothing(tables: seq<map<Key, Row>>, agent: string, limit: int,
                                             cursor: Option<nat>, u: nat)
    requires Completes(tables, agent, limit, cursor)
    requires forall i :: 0 <= i < Calls(tables, agent, limit, cursor) ==> u in CurrentUuids(tables[i], agent)
    requires cursor.Some? ==> cursor.value < u
    ensures u in Walk(tables, agent, limit, cursor)
    decreases tables
  {
    var page := ListCurrent(tables[0], agent, limit, cursor);
    PageMeaning(tables[0], agent, limit, cursor);
    assert u in CurrentUuids(tables[0], agent);
    if |page| == Clamp(limit) && u !in page {
      forall i | 0 <= i < Calls(tables[1..], agent, limit, Some(page[|page| - 1]))
        ensures u in CurrentUuids(tables[1..][i], agent)
      {
        assert tables[1..][i] == tables[i + 1];
      }
      WalkMissesNothing(tables[1..], agent, limit, Some(page[|page| - 1]), u);
    }
  }

  /** An assignment that stays active through the walk is listed, and by WalkNeverRepeats only once. */
  lemma StayingAssignmentIsListed(tables: seq<map<Key, Row>>, agent: string, limit: int, k: Key)
    requires Completes(tables, agent, limit, None) && k.agent == agent
    requires forall i :: 0 <= i < |tables| ==> Active(tables[i], k)
    requires forall i :: 0 < i < |tables| ==> KeepsUuids(tables[0], tables[i])
    ensures Active(tables[0], k) && tables[0][k].uuid in Walk(tables, agent, limit, None)
  {
    forall i | 0 <= i < Calls(tables, agent, limit, None) ensures tables[0][k].uuid in CurrentUuids(tables[i], agent) {
      assert k in ActiveKeys(tables[i], agent);
      assert tables[i][k].uuid == tables[0][k].uuid;
    }
    WalkMissesNothing(tables, agent, limit, None, tables[0][k].uuid);
  }

  /** Nothing is listed that was not active when its page was read. */
  lemma {:induction false} WalkListsOnlyActive(tables: seq<map<Key, Row>>, agent: string, limit: int,
                                               cursor: Option<nat>, u: nat)
    requires u in Walk(tables, agent, limit, cursor)
    ensures exists i :: 0 <= i < |tables| && i < Calls(tables, agent, limit, cursor)
                        && u in CurrentUuids(tables[i], agent)
    decreases tables
  {
    var page := ListCurrent(tables[0], agent, limit, cursor);
    PageMeaning(tables[0], agent, limit, cursor);
    if u in page {
      assert u in CurrentUuids(tables[0], agent);
    } else {
      WalkListsOnlyActive(tables[1..], agent, limit, Some(page[|page| - 1]), u);
      var i :| 0 <= i < |tables[1..]| && i < Calls(tables[1..], agent, limit, Some(page[|page| - 1]))
               && u in CurrentUuids(tables[1..][i], agent);
      assert tables[1..][i] == tables[i + 1];
    }
  }

  ghost predicate Unchanging(tables: seq<map<Key, Row>>, rows: map<Key, Row>) {
    forall i :: 0 <= i < |tables| ==> tables[i] == rows
  }

  /** With no changes a walk over n assignments takes exactly floor(n / limit) + 1 calls. */
  lemma {:induction false} UnchangingWalkLength(tables: seq<map<Key, Row>>, rows: map<Key, Row>, agent: string,
                                                limit: int, cursor: Option<nat>)
    requires Unchanging(tables, rows)
    requires |Beyond(CurrentUuids(rows, agent), cursor)| < |tables| * Clamp(limit)
    ensures Completes(tables, agent, limit, cursor)
    ensures var calls, n := Calls(tables, agent, limit, cursor), |Beyond(CurrentUuids(rows, agent), cursor)|;
            (calls - 1) * Clamp(limit) <= n < calls * Clamp(limit)
    decreases tables
  {
    var page := ListCurrent(rows, agent, limit, cursor);
    SmallestIsPage(Beyond(CurrentUuids(rows, agent), cursor), Clamp(limit));
    assert tables[0] == rows;
    if |page| == Clamp(limit) {
      FullPageAdvances(rows, agent, limit, cursor);
      Unfold(|tables| - 1, Clamp(limit));
      UnchangingWalkLength(tables[1..], rows, agent, limit, Some(page[|page| - 1]));
      var rest := Calls(tables[1..], agent, limit, Some(page[|page| - 1]));
      Unfold(rest, Clamp(limit));
      Unfold(rest - 1, Clamp(limit));
    }
  }

  lemma Unfold(k: int, limit: int)
    ensures (k + 1) * limit == k * limit + limit
  {
  }

  lemma FullPageAdvances(rows: map<Key, Row>, agent: string, limit: int, cursor: Option<nat>)
    requires |ListCurrent(rows, agent, limit, cursor)| == Clamp(limit)
    ensures var page := ListCurrent(rows, agent, limit, cursor);
            |Beyond(CurrentUuids(rows, agent), Some(page[|page| - 1]))| ==
            |Beyond(CurrentUuids(rows, agent), cursor)| - Clamp(limit)
  {
    var all := CurrentUuids(rows, agent);
    var left := Beyond(all, cursor);
    var page := ListCurrent(rows, agent, limit, cursor);
    var last := page[|page| - 1];
    SmallestIsPage(left, Clamp(limit));
    var listed := Elements(page);
    AscendingSize(page);
    assert last in page;
    assert last in left;
    assert forall u :: u in page ==> u <= last;
    assert Beyond(all, Some(last)) == left - listed;
    SizeOfRest(left, listed);
  }

  function Elements(s: seq<nat>): set<nat> {
    set u | u in s
  }

  lemma SizeOfRest(a: set<nat>, b: set<nat>)
    requires b <= a
    ensures |a - b| == |a| - |b|
  {
    assert a == (a - b) + b;
  }

  lemma {:induction false} AscendingSize(s: seq<nat>)
    requires Ascending(s)
    ensures |Elements(s)| == |s|
  {
    if s != [] {
      var front, last := s[..|s| - 1], s[|s| - 1];
      AscendingSize(front);
      assert s == front + [last];
      assert Elements(s) == Elements(front) + {last};
      assert last !in Elements(front);
    }
  }
}
