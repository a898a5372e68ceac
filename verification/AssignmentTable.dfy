/**
 The property-agent assignment table, its append-only history, and what one
 whole transaction of the adapter does to them.

 The table is a map from (property, agent) to a row, because the schema makes
 that pair unique.  Clock readings and random uuids are drawn outside the model
 and arrive with the request.
 */
module AssignmentTable {
  import opened Wrappers

  datatype Property = Property(id: nat, uuid: string, deleted: bool)

  datatype Key = Key(propertyId: nat, agent: string)

  datatype Row = Row(
    uuid: nat,
    displayName: string,
    isPrimary: bool,
    assignedAt: int,
    unassignedAt: Option<int>,
    createdBy: Option<string>,
    updatedBy: Option<string>)

  datatype Action = ASSIGN | UNASSIGN | REASSIGN

  datatype Entry = Entry(
    uuid: nat, propertyId: nat, propertyUuid: string, agent: string, actor: string, action: Action)

  datatype Db = Db(properties: map<string, Property>, rows: map<Key, Row>, history: seq<Entry>)

  /** The uuids and clock readings one transaction draws. */
  datatype Draws = Draws(rowUuid: nat, entryUuid: nat, fromEntryUuid: nat, now: int, fromNow: int)

  datatype Request =
    | Assign(propertyUuid: string, agent: string, displayName: string, actor: string, draws: Draws)
    | Unassign(propertyUuid: string, agent: string, actor: string, draws: Draws)
    | Reassign(propertyUuid: string, from: Option<string>, agent: string, displayName: string,
               actor: string, draws: Draws)

  datatype Error = PropertyNotFound | AlreadyAssigned | NoActiveAssignment | TargetAlreadyAssigned

  // ----- Reading

  ghost predicate Live(db: Db, propertyUuid: string) {
    propertyUuid in db.properties && !db.properties[propertyUuid].deleted
  }

  function Lookup(rows: map<Key, Row>, k: Key): Option<Row> {
    if k in rows then Some(rows[k]) else None
  }

  /** A lookup restricted to rows with no unassignment time. */
  function IfActive(row: Option<Row>): Option<Row> {
    if row.Some? && row.value.unassignedAt.None? then row else None
  }

  predicate Active(rows: map<Key, Row>, k: Key) {
    k in rows && rows[k].unassignedAt.None?
  }

  /** An empty source agent counts as none, and moving an agent onto itself skips the first half. */
  predicate MovesFrom(req: Request) {
    req.Reassign? && req.from.Some? && req.from.value != "" && req.from.value != req.agent
  }

  function Target(prop: Property, req: Request): Key {
    Key(prop.id, req.agent)
  }

  function Source(prop: Property, req: Request): Key
    requires MovesFrom(req)
  {
    Key(prop.id, req.from.value)
  }

  // ----- The rows and entries a transaction writes

  function Closed(row: Row, now: int, actor: string): Row {
    row.(unassignedAt := Some(now), updatedBy := Some(actor), isPrimary := false)
  }

  function Opened(req: Request, found: Option<Row>): Row
    requires !req.Unassign?
  {
    if found.None? then
      Row(req.draws.rowUuid, req.displayName, true, req.draws.now, None, Some(req.actor), None)
    else
      var row := found.value.(displayName := req.displayName, assignedAt := req.draws.now,
                              unassignedAt := None, isPrimary := true, updatedBy := Some(req.actor));
      if req.Assign? && row.createdBy.None? then row.(createdBy := Some(req.actor)) else row
  }

  function Refusal(req: Request, found: Option<Row>): Option<Error> {
    match req
    case Assign(_, _, _, _, _) => if IfActive(found).Some? then Some(AlreadyAssigned) else None
    case Unassign(_, _, _, _) => if IfActive(found).None? then Some(NoActiveAssignment) else None
    case Reassign(_, _, _, _, _, _) => if IfActive(found).Some? then Some(TargetAlreadyAssigned) else None
  }

  function Written(req: Request, found: Option<Row>): Row
    requires Refusal(req, found).None?
  {
    if req.Unassign? then Closed(found.value, req.draws.now, req.actor) else Opened(req, found)
  }

  function TargetEntry(prop: Property, req: Request): Entry {
    Entry(req.draws.entryUuid, prop.id, prop.uuid, req.agent, req.actor,
          match req
          case Assign(_, _, _, _, _) => ASSIGN
          case Unassign(_, _, _, _) => UNASSIGN
          case Reassign(_, _, _, _, _, _) => REASSIGN)
  }

  function SourceEntry(prop: Property, req: Request): Entry
    requires MovesFrom(req)
  {
    Entry(req.draws.fromEntryUuid, prop.id, prop.uuid, req.from.value, req.actor, UNASSIGN)
  }

  function SourceWrites(rows: map<Key, Row>, prop: Property, req: Request): map<Key, Row> {
    if MovesFrom(req) && Active(rows, Source(prop, req)) then
      map[Source(prop, req) := Closed(rows[Source(prop, req)], req.draws.fromNow, req.actor)]
    else map[]
  }

  function SourceLogs(rows: map<Key, Row>, prop: Property, req: Request): seq<Entry> {
    if MovesFrom(req) && Active(rows, Source(prop, req)) then [SourceEntry(prop, req)] else []
  }

  datatype Effects = Effects(writes: map<Key, Row>, logs: seq<Entry>, row: Row)

  /** What the part of a transaction after the row lock decides, from the rows it finds. */
  function Body(rows: map<Key, Row>, prop: Property, req: Request): Result<Effects, Error> {
    var found := Lookup(rows, Target(prop, req));
    if Refusal(req, found).Some? then Err(Refusal(req, found).value)
    else
      Ok(Effects(SourceWrites(rows, prop, req)[Target(prop, req) := Written(req, found)],
                 SourceLogs(rows, prop, req) + [TargetEntry(prop, req)],
                 Written(req, found)))
  }

  function Apply(db: Db, outcome: Result<Effects, Error>): Db {
    match outcome
    case Ok(e) => db.(rows := db.rows + e.writes, history := db.history + e.logs)
    case Err(_) => db
  }

  /** What the caller is told: the assignment row, or the error thrown. */
  function Reply(outcome: Result<Effects, Error>): Result<Row, Error> {
    match outcome
    case Ok(e) => Ok(e.row)
    case Err(x) => Err(x)
  }

  /** One whole transaction, run alone. */
  ghost function Outcome(db: Db, req: Request): Result<Effects, Error> {
    if Live(db, req.propertyUuid) then Body(db.rows, db.properties[req.propertyUuid], req)
    else Err(PropertyNotFound)
  }

  ghost function Run(db: Db, req: Request): Db {
    Apply(db, Outcome(db, req))
  }

  // ----- What the history says about the table

  predicate Opening(a: Action) {
    a != UNASSIGN
  }

  function EntriesOf(history: seq<Entry>, k: Key): seq<Action> {
    if history == [] then []
    else
      var last := history[|history| - 1];
      var rest := EntriesOf(history[..|history| - 1], k);
      if last.propertyId == k.propertyId && last.agent == k.agent then rest + [last.action] else rest
  }

  ghost predicate Alternates(actions: seq<Action>) {
    forall i :: 0 <= i < |actions| ==> (Opening(actions[i]) <==> i % 2 == 0)
  }

  /** The history of one pair alternates, and its last entry says what the row says. */
  ghost predicate PairAgrees(db: Db, k: Key) {
    var actions := EntriesOf(db.history, k);
    && Alternates(actions)
    && (k in db.rows <==> actions != [])
    && (k in db.rows ==>
          && (Active(db.rows, k) <==> Opening(actions[|actions| - 1]))
          && db.rows[k].isPrimary == Active(db.rows, k))
  }

  ghost predicate LogAgrees(db: Db) {
    forall k :: PairAgrees(db, k)
  }

  function ActiveKeys(rows: map<Key, Row>, agent: string): set<Key> {
    set k | k in rows && k.agent == agent && Active(rows, k)
  }

  /** The adapter's count query. */
  function CountCurrent(rows: map<Key, Row>, agent: string): nat {
    |ActiveKeys(rows, agent)|
  }

  function Count(history: seq<Entry>, agent: string, opening: bool): nat {
    if history == [] then 0
    else
      var last := history[|history| - 1];
      Count(history[..|history| - 1], agent, opening)
      + if last.agent == agent && Opening(last.action) == opening then 1 else 0
  }

  ghost predicate CountAgrees(db: Db) {
    forall agent ::
      CountCurrent(db.rows, agent) == Count(db.history, agent, true) - Count(db.history, agent, false)
  }

  lemma EntriesOfAppend(history: seq<Entry>, e: Entry, k: Key)
    ensures EntriesOf(history + [e], k) ==
            EntriesOf(history, k) + if e.propertyId == k.propertyId && e.agent == k.agent then [e.action] else []
  {
    assert (history + [e])[..|history|] == history;
  }

  lemma CountAppend(history: seq<Entry>, e: Entry, agent: string, opening: bool)
    ensures Count(history + [e], agent, opening) ==
            Count(history, agent, opening) + if e.agent == agent && Opening(e.action) == opening then 1 else 0
  {
    assert (history + [e])[..|history|] == history;
  }

  // ----- One write with its log entry

  /** The row write and the entry that follows it, as every branch of the adapter pairs them. */
  function WriteAndLog(db: Db, row: Row, e: Entry): Db {
    db.(rows := db.rows[Key(e.propertyId, e.agent) := row], history := db.history + [e])
  }

  ghost predicate Paired(db: Db, row: Row, e: Entry) {
    && (Opening(e.action) <==> !Active(db.rows, Key(e.propertyId, e.agent)))
    && (Opening(e.action) <==> row.unassignedAt.None?)
    && row.isPrimary == Opening(e.action)
  }

  lemma WriteAndLogAgrees(db: Db, row: Row, e: Entry)
    requires LogAgrees(db) && Paired(db, row, e)
    ensures LogAgrees(WriteAndLog(db, row, e))
  {
    var after := WriteAndLog(db, row, e);
    forall k ensures PairAgrees(after, k) {
      EntriesOfAppend(db.history, e, k);
      assert PairAgrees(db, k);
      var actions := EntriesOf(db.history, k);
      if k == Key(e.propertyId, e.agent) {
        assert |actions| > 0 ==> (Opening(actions[|actions| - 1]) <==> (|actions| - 1) % 2 == 0);
      } else {
        assert EntriesOf(after.history, k) == actions;
      }
    }
  }

  lemma ActiveKeysUpdate(rows: map<Key, Row>, k: Key, row: Row, agent: string)
    ensures ActiveKeys(rows[k := row], agent) ==
            ActiveKeys(rows, agent) - {k} + if k.agent == agent && row.unassignedAt.None? then {k} else {}
  {
  }

  lemma WriteAndLogCounts(db: Db, row: Row, e: Entry, agent: string)
    requires Paired(db, row, e)
    ensures CountCurrent(WriteAndLog(db, row, e).rows, agent) ==
            CountCurrent(db.rows, agent) + if e.agent != agent then 0 else if Opening(e.action) then 1 else -1
  {
    var k := Key(e.propertyId, e.agent);
    ActiveKeysUpdate(db.rows, k, row, agent);
    var before := ActiveKeys(db.rows, agent);
    assert k in before <==> k.agent == agent && Active(db.rows, k);
    if e.agent != agent {
      assert before - {k} == before;
    } else if Opening(e.action) {
      assert before - {k} == before;
    } else {
      assert |before - {k}| == |before| - 1;
    }
  }

  // ----- A whole transaction

  /** A reassignment that closes its source first. */
  ghost function AfterSource(db: Db, prop: Property, req: Request): Db {
    db.(rows := db.rows + SourceWrites(db.rows, prop, req), history := db.history + SourceLogs(db.rows, prop, req))
  }

  /** Applying the effects is closing the source, then one more write with its entry. */
  lemma BodyInTwoWrites(db: Db, prop: Property, req: Request)
    requires Body(db.rows, prop, req).Ok?
    ensures Apply(db, Body(db.rows, prop, req)) ==
            WriteAndLog(AfterSource(db, prop, req), Body(db.rows, prop, req).value.row, TargetEntry(prop, req))
    ensures Paired(AfterSource(db, prop, req), Body(db.rows, prop, req).value.row, TargetEntry(prop, req))
    ensures MovesFrom(req) && Active(db.rows, Source(prop, req)) ==>
              && AfterSource(db, prop, req) ==
                 WriteAndLog(db, Closed(db.rows[Source(prop, req)], req.draws.fromNow, req.actor),
                             SourceEntry(prop, req))
              && Paired(db, Closed(db.rows[Source(prop, req)], req.draws.fromNow, req.actor), SourceEntry(prop, req))
    ensures !(MovesFrom(req) && Active(db.rows, Source(prop, req))) ==> AfterSource(db, prop, req) == db
  {
    var e := Body(db.rows, prop, req).value;
    var mid := AfterSource(db, prop, req);
    assert db.rows + e.writes == mid.rows[Target(prop, req) := e.row];
    assert db.history + e.logs == mid.history + [TargetEntry(prop, req)];
    assert Active(mid.rows, Target(prop, req)) == Active(db.rows, Target(prop, req));
    if MovesFrom(req) && Active(db.rows, Source(prop, req)) {
      var row := Closed(db.rows[Source(prop, req)], req.draws.fromNow, req.actor);
      assert db.rows + map[Source(prop, req) := row] == db.rows[Source(prop, req) := row];
    } else {
      assert db.rows + map[] == db.rows && db.history + [] == db.history;
    }
  }

  /** Every transaction body keeps history and table in agreement. */
  lemma BodyKeepsLog(db: Db, prop: Property, req: Request)
    requires LogAgrees(db)
    ensures LogAgrees(Apply(db, Body(db.rows, prop, req)))
  {
    if Body(db.rows, prop, req).Ok? {
      BodyInTwoWrites(db, prop, req);
      var mid := AfterSource(db, prop, req);
      if MovesFrom(req) && Active(db.rows, Source(prop, req)) {
        WriteAndLogAgrees(db, Closed(db.rows[Source(prop, req)], req.draws.fromNow, req.actor), SourceEntry(prop, req));
      }
      WriteAndLogAgrees(mid, Body(db.rows, prop, req).value.row, TargetEntry(prop, req));
    }
  }

  /** By how much a successful body changes the number of active assignments of an agent. */
  function Delta(rows: map<Key, Row>, prop: Property, req: Request, agent: string): int {
    (if agent != req.agent then 0 else if req.Unassign? then -1 else 1)
    - (if MovesFrom(req) && Active(rows, Source(prop, req)) && agent == req.from.value then 1 else 0)
  }

  lemma BodyCounts(db: Db, prop: Property, req: Request, agent: string)
    requires Body(db.rows, prop, req).Ok?
    ensures CountCurrent(Apply(db, Body(db.rows, prop, req)).rows, agent) ==
            CountCurrent(db.rows, agent) + Delta(db.rows, prop, req, agent)
  {
    BodyInTwoWrites(db, prop, req);
    var mid := AfterSource(db, prop, req);
    if MovesFrom(req) && Active(db.rows, Source(prop, req)) {
      WriteAndLogCounts(db, Closed(db.rows[Source(prop, req)], req.draws.fromNow, req.actor), SourceEntry(prop, req),
                        agent);
    }
    WriteAndLogCounts(mid, Body(db.rows, prop, req).value.row, TargetEntry(prop, req), agent);
  }

  lemma WriteAndLogTallies(db: Db, row: Row, e: Entry, agent: string)
    requires Paired(db, row, e)
    ensures var after := WriteAndLog(db, row, e);
            CountCurrent(after.rows, agent) - Count(after.history, agent, true) + Count(after.history, agent, false) ==
            CountCurrent(db.rows, agent) - Count(db.history, agent, true) + Count(db.history, agent, false)
  {
    WriteAndLogCounts(db, row, e, agent);
    CountAppend(db.history, e, agent, true);
    CountAppend(db.history, e, agent, false);
  }

  lemma BodyTallies(db: Db, prop: Property, req: Request, agent: string)
    requires Body(db.rows, prop, req).Ok?
    ensures var after := Apply(db, Body(db.rows, prop, req));
            CountCurrent(after.rows, agent) - Count(after.history, agent, true) + Count(after.history, agent, false) ==
            CountCurrent(db.rows, agent) - Count(db.history, agent, true) + Count(db.history, agent, false)
  {
    BodyInTwoWrites(db, prop, req);
    if MovesFrom(req) && Active(db.rows, Source(prop, req)) {
      WriteAndLogTallies(db, Closed(db.rows[Source(prop, req)], req.draws.fromNow, req.actor), SourceEntry(prop, req),
                         agent);
    }
    WriteAndLogTallies(AfterSource(db, prop, req), Body(db.rows, prop, req).value.row, TargetEntry(prop, req), agent);
  }

  /** The count query always equals openings minus unassignments in the history. */
  lemma BodyKeepsCount(db: Db, prop: Property, req: Request)
    requires CountAgrees(db)
    ensures CountAgrees(Apply(db, Body(db.rows, prop, req)))
  {
    var after := Apply(db, Body(db.rows, prop, req));
    if Body(db.rows, prop, req).Ok? {
      forall agent
        ensures CountCurrent(after.rows, agent) ==
                Count(after.history, agent, true) - Count(after.history, agent, false)
      {
        BodyTallies(db, prop, req, agent);
      }
    }
  }

  /** Rows are never removed and never change identity. */
  ghost predicate KeepsUuids(before: map<Key, Row>, after: map<Key, Row>) {
    forall k :: k in before ==> k in after && after[k].uuid == before[k].uuid
  }

  /**
   The assignments in force after a whole transaction: the target pair is opened or closed, a
   moved source is closed, every other pair is as it was, and a refusal changes nothing.
   */
  lemma RunMeaning(db: Db, req: Request, k: Key)
    ensures Outcome(db, req).Err? ==> Run(db, req) == db
    ensures Outcome(db, req).Ok? ==>
              var prop := db.properties[req.propertyUuid];
              Active(Run(db, req).rows, k) <==>
                if k == Target(prop, req) then !req.Unassign?
                else Active(db.rows, k) && !(MovesFrom(req) && k == Source(prop, req))
    ensures Outcome(db, req).Err? <==>
              || !Live(db, req.propertyUuid)
              || (Active(db.rows, Target(db.properties[req.propertyUuid], req)) <==> !req.Unassign?)
    ensures Run(db, req).properties == db.properties && KeepsUuids(db.rows, Run(db, req).rows)
  {
  }

  // ----- What a transaction stores, field by field

  /** The row a first, or a reopening, assign or reassign leaves on its pair, and answers with. */
  lemma OpeningStores(db: Db, req: Request)
    requires Outcome(db, req).Ok? && !req.Unassign?
    ensures var k := Key(db.properties[req.propertyUuid].id, req.agent);
            && k in Run(db, req).rows && Reply(Outcome(db, req)) == Ok(Run(db, req).rows[k])
            && var row := Run(db, req).rows[k];
               && row.displayName == req.displayName && row.assignedAt == req.draws.now
               && row.isPrimary && row.unassignedAt == None
               && (k !in db.rows ==>
                     row.uuid == req.draws.rowUuid && row.createdBy == Some(req.actor) && row.updatedBy == None)
               && (k in db.rows ==>
                     && row.uuid == db.rows[k].uuid && row.updatedBy == Some(req.actor)
                     && (if req.Assign? && db.rows[k].createdBy == None then row.createdBy == Some(req.actor)
                         else row.createdBy == db.rows[k].createdBy))
  {
  }

  /** Closing keeps who and when of the assignment, and adds when and by whom it ended. */
  ghost predicate ClosedBy(was: Row, row: Row, actor: string, at: int) {
    && row.uuid == was.uuid && row.displayName == was.displayName
    && row.assignedAt == was.assignedAt && row.createdBy == was.createdBy
    && row.unassignedAt == Some(at) && row.updatedBy == Some(actor) && !row.isPrimary
  }

  lemma UnassigningStores(db: Db, req: Request)
    requires Outcome(db, req).Ok? && req.Unassign?
    ensures var k := Key(db.properties[req.propertyUuid].id, req.agent);
            && k in db.rows && k in Run(db, req).rows && Reply(Outcome(db, req)) == Ok(Run(db, req).rows[k])
            && ClosedBy(db.rows[k], Run(db, req).rows[k], req.actor, req.draws.now)
  {
  }

  /** A reassignment that names another agent, active on the property, as its source. */
  ghost predicate TakesFrom(db: Db, req: Request)
    requires req.propertyUuid in db.properties
  {
    && req.Reassign? && req.from.Some? && req.from.value != "" && req.from.value != req.agent
    && Key(db.properties[req.propertyUuid].id, req.from.value) in db.rows
    && db.rows[Key(db.properties[req.propertyUuid].id, req.from.value)].unassignedAt == None
  }

  /** The source of a reassignment is closed, and no third row is touched. */
  lemma OtherRowsStored(db: Db, req: Request, k: Key)
    requires Outcome(db, req).Ok? && k in db.rows && k != Key(db.properties[req.propertyUuid].id, req.agent)
    ensures k in Run(db, req).rows
    ensures if TakesFrom(db, req) && k == Key(db.properties[req.propertyUuid].id, req.from.value) then
              ClosedBy(db.rows[k], Run(db, req).rows[k], req.actor, req.draws.fromNow)
            else Run(db, req).rows[k] == db.rows[k]
    ensures forall other :: other in Run(db, req).rows && other !in db.rows ==>
              other == Key(db.properties[req.propertyUuid].id, req.agent)
  {
  }

  ghost predicate Records(e: Entry, uuid: nat, prop: Property, agent: string, actor: string, action: Action) {
    && e.uuid == uuid && e.propertyId == prop.id && e.propertyUuid == prop.uuid
    && e.agent == agent && e.actor == actor && e.action == action
  }

  /** One entry for the target, after one for the source if that was closed. */
  lemma EntriesStored(db: Db, req: Request)
    requires Outcome(db, req).Ok?
    ensures var prop, after := db.properties[req.propertyUuid], Run(db, req).history;
            var n, last := |db.history|, |after| - 1;
            && |after| == n + (if TakesFrom(db, req) then 2 else 1) && db.history <= after
            && Records(after[last], req.draws.entryUuid, prop, req.agent, req.actor,
                       if req.Assign? then ASSIGN else if req.Unassign? then UNASSIGN else REASSIGN)
            && (TakesFrom(db, req) ==>
                  Records(after[n], req.draws.fromEntryUuid, prop, req.from.value, req.actor, UNASSIGN))
  {
  }
}
