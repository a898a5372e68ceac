/**
 Any number of assign, unassign and reassign transactions running at once.

 A transaction is a small program that advances one statement at a time: find the
 property, take its row lock, read and write rows, append history, commit.  Its writes stay
 private until it commits; reads see committed rows under its own writes.  Between any two
 statements any other transaction may advance, a transaction may be lost (its connection
 dies), and a property may be soft deleted or restored by somebody else, which waits for the
 row lock like every other update of that row.
 */
module AssignmentConcurrency {
  import opened Wrappers
  import opened AssignmentTable

  datatype Phase =
    | Started | Found | Locked | SourceRead | SourceWritten | SourceDone
    | TargetRead | TargetWritten | TargetLogged | Over

  /** `live` is whether the property was still live when the lock was granted. */
  datatype Tx = Tx(
    req: Request, phase: Phase, prop: Property, live: bool,
    seen: Option<Row>, writes: map<Key, Row>, logs: seq<Entry>)

  /** What happened, in the order it took effect. */
  datatype Event =
    | Ended(tid: nat, prop: Property, live: bool, req: Request, reply: Result<Row, Error>)
    | Missing(tid: nat, req: Request)
    | Lost(tid: nat, prop: Property)
    | Flagged(propertyUuid: string, deleted: bool)

  datatype Grant = Grant(tid: nat, propertyId: nat)

  datatype System = System(
    db: Db, txs: map<nat, Tx>, locks: map<nat, nat>, granted: seq<Grant>, events: seq<Event>)

  datatype Step = Begin(tid: nat, req: Request) | Advance(tid: nat) | Lose(tid: nat)
                | Flag(propertyUuid: string, deleted: bool)

  predicate Holding(phase: Phase) {
    !phase.Started? && !phase.Found? && !phase.Over?
  }

  // ----- The steps

  function SetTx(s: System, t: nat, tx: Tx): System {
    s.(txs := s.txs[t := tx])
  }

  function SetDeleted(db: Db, propertyUuid: string, deleted: bool): Db {
    if propertyUuid !in db.properties then db
    else db.(properties := db.properties[propertyUuid := db.properties[propertyUuid].(deleted := deleted)])
  }

  /** Leaves the lock and records how the transaction ended. */
  function Finish(s: System, t: nat, db: Db, event: Event): System
    requires t in s.txs
  {
    s.(db := db, txs := s.txs[t := s.txs[t].(phase := Over)],
       locks := s.locks - {s.txs[t].prop.id}, events := s.events + [event])
  }

  function FindProperty(s: System, t: nat): System
    requires t in s.txs
  {
    var tx := s.txs[t];
    if tx.req.propertyUuid in s.db.properties && !s.db.properties[tx.req.propertyUuid].deleted then
      SetTx(s, t, tx.(phase := Found, prop := s.db.properties[tx.req.propertyUuid]))
    else
      SetTx(s, t, tx.(phase := Over)).(events := s.events + [Missing(t, tx.req)])
  }

  function TakeLock(s: System, t: nat): System
    requires t in s.txs
  {
    var tx := s.txs[t];
    if tx.prop.id in s.locks then s
    else
      var live := tx.req.propertyUuid in s.db.properties && !s.db.properties[tx.req.propertyUuid].deleted;
      SetTx(s, t, tx.(phase := Locked, live := live))
      .(locks := s.locks[tx.prop.id := t], granted := s.granted + [Grant(t, tx.prop.id)])
  }

  /** The statements of a reassignment that close the source, one at a time. */
  function SourceHalf(rows: map<Key, Row>, tx: Tx): Tx {
    match tx.phase
    case Locked =>
      if MovesFrom(tx.req) then
        tx.(phase := SourceRead, seen := IfActive(Lookup(rows + tx.writes, Source(tx.prop, tx.req))))
      else tx.(phase := SourceDone)
    case SourceRead =>
      if MovesFrom(tx.req) && tx.seen.Some? then
        tx.(phase := SourceWritten, writes := tx.writes[Source(tx.prop, tx.req) :=
          Closed(tx.seen.value, tx.req.draws.fromNow, tx.req.actor)])
      else tx.(phase := SourceDone)
    case SourceWritten =>
      if MovesFrom(tx.req) then tx.(phase := SourceDone, logs := tx.logs + [SourceEntry(tx.prop, tx.req)]) else tx
    case _ => tx
  }

  /** The read, the write and the log entry of the target row. */
  function TargetHalf(rows: map<Key, Row>, tx: Tx): Tx {
    match tx.phase
    case SourceDone =>
      var found := Lookup(rows + tx.writes, Target(tx.prop, tx.req));
      tx.(phase := TargetRead, seen := if tx.req.Unassign? then IfActive(found) else found)
    case TargetRead =>
      if Refusal(tx.req, tx.seen).None? then
        tx.(phase := TargetWritten, writes := tx.writes[Target(tx.prop, tx.req) := Written(tx.req, tx.seen)])
      else tx
    case TargetWritten => tx.(phase := TargetLogged, logs := tx.logs + [TargetEntry(tx.prop, tx.req)])
    case _ => tx
  }

  function Commit(s: System, t: nat): System
    requires t in s.txs
  {
    var tx := s.txs[t];
    var target := Target(tx.prop, tx.req);
    if target !in tx.writes then s
    else
      Finish(s, t, s.db.(rows := s.db.rows + tx.writes, history := s.db.history + tx.logs),
             Ended(t, tx.prop, tx.live, tx.req, Ok(tx.writes[target])))
  }

  function Refuse(s: System, t: nat, error: Error): System
    requires t in s.txs
  {
    Finish(s, t, s.db, Ended(t, s.txs[t].prop, s.txs[t].live, s.txs[t].req, Err(error)))
  }

  function AdvanceTx(s: System, t: nat): System
    requires t in s.txs
  {
    var tx := s.txs[t];
    match tx.phase
    case Started => FindProperty(s, t)
    case Found => TakeLock(s, t)
    case Locked => SetTx(s, t, SourceHalf(s.db.rows, tx))
    case SourceRead => SetTx(s, t, SourceHalf(s.db.rows, tx))
    case SourceWritten => SetTx(s, t, SourceHalf(s.db.rows, tx))
    case SourceDone => SetTx(s, t, TargetHalf(s.db.rows, tx))
    case TargetRead =>
      if Refusal(tx.req, tx.seen).Some? then Refuse(s, t, Refusal(tx.req, tx.seen).value)
      else SetTx(s, t, TargetHalf(s.db.rows, tx))
    case TargetWritten => SetTx(s, t, TargetHalf(s.db.rows, tx))
    case TargetLogged => Commit(s, t)
    case Over => s
  }

  /** The connection dies: nothing private survives, and the lock is free again. */
  function LoseTx(s: System, t: nat): System
    requires t in s.txs && !s.txs[t].phase.Over?
  {
    if Holding(s.txs[t].phase) then Finish(s, t, s.db, Lost(t, s.txs[t].prop))
    else SetTx(s, t, s.txs[t].(phase := Over))
  }

  function SetFlag(s: System, u: string, deleted: bool): System {
    s.(db := SetDeleted(s.db, u, deleted), events := s.events + [Flagged(u, deleted)])
  }

  function Next(s: System, step: Step): System {
    match step
    case Begin(t, req) =>
      if t in s.txs then s
      else SetTx(s, t, Tx(req, Started, Property(0, "", false), false, None, map[], []))
    case Advance(t) => if t in s.txs then AdvanceTx(s, t) else s
    case Lose(t) =>
      if t !in s.txs || s.txs[t].phase.Over? then s else LoseTx(s, t)
    case Flag(u, deleted) =>
      if u !in s.db.properties || s.db.properties[u].id in s.locks then s
      else SetFlag(s, u, deleted)
  }

  function Start(db: Db): System {
    System(db, map[], map[], [], [])
  }

  function Execute(s: System, steps: seq<Step>): System {
    if steps == [] then s else Next(Execute(s, steps[..|steps| - 1]), steps[|steps| - 1])
  }

  // ----- Running the recorded events one at a time

  /** The property a transaction found is the one its request names, up to the deletion flag. */
  ghost predicate Names(db: Db, prop: Property, req: Request) {
    && req.propertyUuid in db.properties
    && db.properties[req.propertyUuid].id == prop.id
    && db.properties[req.propertyUuid].uuid == prop.uuid
  }

  function Replay(db: Db, events: seq<Event>): Db {
    if events == [] then db
    else
      var before := Replay(db, events[..|events| - 1]);
      match events[|events| - 1]
      case Ended(_, prop, _, req, _) => Apply(before, Body(before.rows, prop, req))
      case Flagged(u, deleted) => SetDeleted(before, u, deleted)
      case _ => before
  }

  /** Each transaction was answered as its locked part answers when nothing else is running. */
  ghost predicate Legal(db: Db, events: seq<Event>) {
    events != [] ==>
      var before := Replay(db, events[..|events| - 1]);
      && Legal(db, events[..|events| - 1])
      && match events[|events| - 1]
         case Ended(_, prop, live, req, reply) =>
           && Names(before, prop, req)
           && live == Live(before, req.propertyUuid)
           && reply == Reply(Body(before.rows, prop, req))
         case Missing(_, req) => !Live(before, req.propertyUuid)
         case _ => true
  }

  function EndedOn(events: seq<Event>, id: nat): seq<nat> {
    if events == [] then []
    else
      var rest := EndedOn(events[..|events| - 1], id);
      match events[|events| - 1]
      case Ended(t, prop, _, _, _) => if prop.id == id then rest + [t] else rest
      case Lost(t, prop) => if prop.id == id then rest + [t] else rest
      case _ => rest
  }

  function GrantedOn(granted: seq<Grant>, id: nat): seq<nat> {
    if granted == [] then []
    else
      var rest := GrantedOn(granted[..|granted| - 1], id);
      if granted[|granted| - 1].propertyId == id then rest + [granted[|granted| - 1].tid] else rest
  }

  function Holder(locks: map<nat, nat>, id: nat): seq<nat> {
    if id in locks then [locks[id]] else []
  }

  // ----- The invariant

  /** What a running transaction holds is what its whole body would have produced so far. */
  ghost predicate TxFaithful(db: Db, tx: Tx) {
    && (!tx.phase.Started? && !tx.phase.Over? ==> Names(db, tx.prop, tx.req))
    && (Holding(tx.phase) ==> tx.live == Live(db, tx.req.propertyUuid))
    && Progress(db.rows, tx)
  }

  ghost predicate Progress(rows: map<Key, Row>, tx: Tx) {
    match tx.phase
    case Started => tx.writes == map[] && tx.logs == []
    case Found => tx.writes == map[] && tx.logs == []
    case Locked => tx.writes == map[] && tx.logs == []
    case SourceRead =>
      && tx.writes == map[] && tx.logs == []
      && MovesFrom(tx.req) && tx.seen == IfActive(Lookup(rows, Source(tx.prop, tx.req)))
    case SourceWritten =>
      && MovesFrom(tx.req) && Active(rows, Source(tx.prop, tx.req))
      && tx.writes == SourceWrites(rows, tx.prop, tx.req) && tx.logs == []
    case SourceDone =>
      tx.writes == SourceWrites(rows, tx.prop, tx.req) && tx.logs == SourceLogs(rows, tx.prop, tx.req)
    case TargetRead =>
      && tx.writes == SourceWrites(rows, tx.prop, tx.req) && tx.logs == SourceLogs(rows, tx.prop, tx.req)
      && var found := Lookup(rows, Target(tx.prop, tx.req));
         tx.seen == if tx.req.Unassign? then IfActive(found) else found
    case TargetWritten =>
      && var body := Body(rows, tx.prop, tx.req);
         body.Ok? && tx.writes == body.value.writes && tx.logs == SourceLogs(rows, tx.prop, tx.req)
    case TargetLogged =>
      && var body := Body(rows, tx.prop, tx.req);
         body.Ok? && tx.writes == body.value.writes && tx.logs == body.value.logs
    case Over => true
  }

  ghost predicate LocksOk(s: System) {
    && (forall t :: t in s.txs && Holding(s.txs[t].phase) ==>
          s.txs[t].prop.id in s.locks && s.locks[s.txs[t].prop.id] == t)
    && (forall id :: id in s.locks ==>
          s.locks[id] in s.txs && Holding(s.txs[s.locks[id]].phase) && s.txs[s.locks[id]].prop.id == id)
  }

  ghost predicate InLockOrder(s: System) {
    forall id :: GrantedOn(s.granted, id) == EndedOn(s.events, id) + Holder(s.locks, id)
  }

  ghost predicate Inv(db0: Db, s: System) {
    && Legal(db0, s.events)
    && s.db == Replay(db0, s.events)
    && (forall t :: t in s.txs ==> TxFaithful(s.db, s.txs[t]))
    && LocksOk(s)
    && InLockOrder(s)
  }

  // ----- Every step keeps it

  /** A transaction does not notice changes to the rows of other properties. */
  lemma FaithfulFrame(db: Db, db': Db, tx: Tx)
    requires TxFaithful(db, tx)
    requires forall prop, req :: Names(db, prop, req) ==> Names(db', prop, req)
    requires Holding(tx.phase) ==> Live(db, tx.req.propertyUuid) == Live(db', tx.req.propertyUuid)
    requires Holding(tx.phase) ==>
               forall agent :: Lookup(db.rows, Key(tx.prop.id, agent)) == Lookup(db'.rows, Key(tx.prop.id, agent))
    ensures TxFaithful(db', tx)
  {
    if Holding(tx.phase) {
      assert Lookup(db.rows, Target(tx.prop, tx.req)) == Lookup(db'.rows, Target(tx.prop, tx.req));
      if MovesFrom(tx.req) {
        assert Lookup(db.rows, Source(tx.prop, tx.req)) == Lookup(db'.rows, Source(tx.prop, tx.req));
      }
    }
  }

  lemma SourceHalfFaithful(db: Db, tx: Tx)
    requires TxFaithful(db, tx) && (tx.phase.Locked? || tx.phase.SourceRead? || tx.phase.SourceWritten?)
    ensures TxFaithful(db, SourceHalf(db.rows, tx)) && Holding(SourceHalf(db.rows, tx).phase)
    ensures SourceHalf(db.rows, tx).prop == tx.prop
  {
    assert db.rows + map[] == db.rows;
  }

  lemma TargetHalfFaithful(db: Db, tx: Tx)
    requires TxFaithful(db, tx) && (tx.phase.SourceDone? || tx.phase.TargetRead? || tx.phase.TargetWritten?)
    requires tx.phase.TargetRead? ==> Refusal(tx.req, tx.seen).None?
    ensures TxFaithful(db, TargetHalf(db.rows, tx)) && Holding(TargetHalf(db.rows, tx).phase)
    ensures TargetHalf(db.rows, tx).prop == tx.prop
  {
    assert Target(tx.prop, tx.req) !in SourceWrites(db.rows, tx.prop, tx.req);
  }

  /** A step that only moves one transaction and keeps its lock. */
  lemma LocalStep(db0: Db, s: System, t: nat, tx: Tx)
    requires Inv(db0, s) && t in s.txs && TxFaithful(s.db, tx)
    requires Holding(tx.phase) == Holding(s.txs[t].phase)
    requires Holding(tx.phase) ==> tx.prop == s.txs[t].prop
    ensures Inv(db0, SetTx(s, t, tx))
  {
  }

  lemma Extend(events: seq<Event>, e: Event)
    ensures (events + [e])[..|events|] == events
    ensures (events + [e])[|events + [e]| - 1] == e
  {
  }

  lemma FindKeeps(db0: Db, s: System, t: nat)
    requires Inv(db0, s) && t in s.txs && s.txs[t].phase.Started?
    ensures Inv(db0, FindProperty(s, t))
  {
    var tx := s.txs[t];
    if Live(s.db, tx.req.propertyUuid) {
      LocalStep(db0, s, t, tx.(phase := Found, prop := s.db.properties[tx.req.propertyUuid]));
    } else {
      LocalStep(db0, s, t, tx.(phase := Over));
      Extend(s.events, Missing(t, tx.req));
    }
  }

  lemma LockKeeps(db0: Db, s: System, t: nat)
    requires Inv(db0, s) && t in s.txs && s.txs[t].phase.Found?
    ensures Inv(db0, TakeLock(s, t))
  {
    var s' := TakeLock(s, t);
    var id := s.txs[t].prop.id;
    if id !in s.locks {
      assert s'.granted[..|s.granted|] == s.granted;
      forall id' ensures GrantedOn(s'.granted, id') == EndedOn(s'.events, id') + Holder(s'.locks, id') {
        assert GrantedOn(s.granted, id') == EndedOn(s.events, id') + Holder(s.locks, id');
      }
    }
  }

  /** Leaving the lock, whether by commit, refusal or loss. */
  lemma FinishKeeps(db0: Db, s: System, t: nat, db: Db, e: Event)
    requires Inv(db0, s) && t in s.txs && Holding(s.txs[t].phase)
    requires e.Ended? || e.Lost?
    requires e.tid == t && e.prop == s.txs[t].prop
    requires e.Ended? ==>
               && e.req == s.txs[t].req && e.live == s.txs[t].live
               && e.reply == Reply(Body(s.db.rows, e.prop, e.req))
               && db == Apply(s.db, Body(s.db.rows, e.prop, e.req))
    requires e.Lost? ==> db == s.db
    ensures Inv(db0, Finish(s, t, db, e))
  {
    var s' := Finish(s, t, db, e);
    var id := s.txs[t].prop.id;
    Extend(s.events, e);
    assert Replay(db0, s'.events) == db;
    assert Legal(db0, s'.events);
    forall u | u in s'.txs ensures TxFaithful(s'.db, s'.txs[u]) {
      if u != t {
        assert Holding(s.txs[u].phase) ==> s.txs[u].prop.id != id;
        WritesStayInside(s.db, e.prop, s.txs[t].req, db, s.txs[u].prop.id);
        FaithfulFrame(s.db, db, s.txs[u]);
      }
    }
    forall id' ensures GrantedOn(s'.granted, id') == EndedOn(s'.events, id') + Holder(s'.locks, id') {
      assert GrantedOn(s.granted, id') == EndedOn(s.events, id') + Holder(s.locks, id');
    }
  }

  lemma WritesStayInside(db: Db, prop: Property, req: Request, db': Db, id: nat)
    requires db' == db || db' == Apply(db, Body(db.rows, prop, req))
    ensures db'.properties == db.properties
    ensures id != prop.id ==> forall agent :: Lookup(db.rows, Key(id, agent)) == Lookup(db'.rows, Key(id, agent))
  {
  }

  lemma {:induction false} CommitKeeps(db0: Db, s: System, t: nat)
    requires Inv(db0, s) && t in s.txs && s.txs[t].phase.TargetLogged?
    ensures Inv(db0, Commit(s, t))
  {
    var tx := s.txs[t];
    var body := Body(s.db.rows, tx.prop, tx.req);
    assert TxFaithful(s.db, tx);
    FinishKeeps(db0, s, t, s.db.(rows := s.db.rows + tx.writes, history := s.db.history + tx.logs),
                Ended(t, tx.prop, tx.live, tx.req, Ok(tx.writes[Target(tx.prop, tx.req)])));
  }

  lemma RefuseKeeps(db0: Db, s: System, t: nat)
    requires Inv(db0, s) && t in s.txs && s.txs[t].phase.TargetRead?
    requires Refusal(s.txs[t].req, s.txs[t].seen).Some?
    ensures Inv(db0, Refuse(s, t, Refusal(s.txs[t].req, s.txs[t].seen).value))
  {
    var tx := s.txs[t];
    assert TxFaithful(s.db, tx);
    FinishKeeps(db0, s, t, s.db,
                Ended(t, tx.prop, tx.live, tx.req, Err(Refusal(tx.req, tx.seen).value)));
  }

  lemma AdvanceKeeps(db0: Db, s: System, t: nat)
    requires Inv(db0, s) && t in s.txs
    ensures Inv(db0, AdvanceTx(s, t))
  {
    var tx := s.txs[t];
    assert TxFaithful(s.db, tx);
    match tx.phase {
      case Started => FindKeeps(db0, s, t);
      case Found => LockKeeps(db0, s, t);
      case TargetLogged => CommitKeeps(db0, s, t);
      case Over =>
      case TargetRead =>
        if Refusal(tx.req, tx.seen).Some? {
          RefuseKeeps(db0, s, t);
        } else {
          TargetHalfFaithful(s.db, tx);
          LocalStep(db0, s, t, TargetHalf(s.db.rows, tx));
        }
      case _ =>
        if tx.phase.SourceDone? || tx.phase.TargetWritten? {
          TargetHalfFaithful(s.db, tx);
          LocalStep(db0, s, t, TargetHalf(s.db.rows, tx));
        } else {
          SourceHalfFaithful(s.db, tx);
          LocalStep(db0, s, t, SourceHalf(s.db.rows, tx));
        }
    }
  }

  /** A flag change on a property whose lock is free is not noticed by a transaction that holds one. */
  lemma FlagFaithful(db: Db, u: string, deleted: bool, tx: Tx)
    requires TxFaithful(db, tx) && u in db.properties
    requires Holding(tx.phase) ==> tx.prop.id != db.properties[u].id
    ensures TxFaithful(SetDeleted(db, u, deleted), tx)
  {
    FaithfulFrame(db, SetDeleted(db, u, deleted), tx);
  }

  lemma {:induction false} FlagKeeps(db0: Db, s: System, u: string, deleted: bool)
    requires Inv(db0, s) && u in s.db.properties && s.db.properties[u].id !in s.locks
    ensures Inv(db0, SetFlag(s, u, deleted))
  {
    Extend(s.events, Flagged(u, deleted));
    forall t | t in s.txs ensures TxFaithful(SetFlag(s, u, deleted).db, s.txs[t]) {
      FlagFaithful(s.db, u, deleted, s.txs[t]);
    }
    forall id ensures EndedOn(SetFlag(s, u, deleted).events, id) == EndedOn(s.events, id) {
    }
  }

  lemma BeginKeeps(db0: Db, s: System, t: nat, req: Request)
    requires Inv(db0, s)
    ensures Inv(db0, Next(s, Begin(t, req)))
  {
  }

  lemma {:induction false} LoseKeeps(db0: Db, s: System, t: nat)
    requires Inv(db0, s) && t in s.txs && !s.txs[t].phase.Over?
    ensures Inv(db0, LoseTx(s, t))
  {
    if Holding(s.txs[t].phase) {
      FinishKeeps(db0, s, t, s.db, Lost(t, s.txs[t].prop));
    } else {
      LocalStep(db0, s, t, s.txs[t].(phase := Over));
    }
  }

  lemma {:induction false} NextKeeps(db0: Db, s: System, step: Step)
    requires Inv(db0, s)
    ensures Inv(db0, Next(s, step))
  {
    match step {
      case Begin(t, req) => BeginKeeps(db0, s, t, req);
      case Advance(t) =>
        if t in s.txs {
          AdvanceKeeps(db0, s, t);
        }
      case Lose(t) =>
        if t in s.txs && !s.txs[t].phase.Over? {
          LoseKeeps(db0, s, t);
        }
      case Flag(u, deleted) =>
        if u in s.db.properties && s.db.properties[u].id !in s.locks {
          FlagKeeps(db0, s, u, deleted);
        }
    }
  }

  // ----- Results over whole runs

  lemma {:induction false} ExecuteKeeps(db0: Db, steps: seq<Step>)
    ensures Inv(db0, Execute(Start(db0), steps))
  {
    if steps != [] {
      ExecuteKeeps(db0, steps[..|steps| - 1]);
      NextKeeps(db0, Execute(Start(db0), steps[..|steps| - 1]), steps[|steps| - 1]);
    }
  }

  /**
   In every interleaving the committed tables are those of running the locked parts one at a
   time, every caller was told what that run tells it, and on each property the one-at-a-time
   order is the order in which the lock was granted.  Refused and lost transactions leave no trace.
   */
  lemma {:induction false} Serializable(db0: Db, steps: seq<Step>)
    ensures var s := Execute(Start(db0), steps);
            && s.db == Replay(db0, s.events)
            && Legal(db0, s.events)
            && forall id :: GrantedOn(s.granted, id) == EndedOn(s.events, id) + Holder(s.locks, id)
  {
    ExecuteKeeps(db0, steps);
  }

  /** The events that changed something: commits and flag changes. */
  function OnlyCommitted(events: seq<Event>): seq<Event> {
    if events == [] then []
    else
      var rest := OnlyCommitted(events[..|events| - 1]);
      var last := events[|events| - 1];
      if last.Flagged? || (last.Ended? && last.reply.Ok?) then rest + [last] else rest
  }

  /** Taking the refused, missing and lost transactions out of the run changes nothing. */
  lemma {:induction false} AbortsLeaveNoTrace(db: Db, events: seq<Event>)
    requires Legal(db, events)
    ensures Replay(db, OnlyCommitted(events)) == Replay(db, events)
    ensures Legal(db, OnlyCommitted(events))
  {
    if events != [] {
      var front, last := events[..|events| - 1], events[|events| - 1];
      AbortsLeaveNoTrace(db, front);
      var rest := OnlyCommitted(front);
      assert (rest + [last])[..|rest|] == rest;
    }
  }

  // ----- Whole transactions, property lookup included

  /** The recorded events again, each transaction now run in full, from its property lookup on. */
  ghost function SerialRun(db: Db, events: seq<Event>): Db {
    if events == [] then db
    else
      var before := SerialRun(db, events[..|events| - 1]);
      match events[|events| - 1]
      case Ended(_, _, _, req, _) => Run(before, req)
      case Missing(_, req) => Run(before, req)
      case Flagged(u, deleted) => SetDeleted(before, u, deleted)
      case Lost(_, _) => before
  }

  ghost predicate SerialAnswers(db: Db, events: seq<Event>) {
    events != [] ==>
      var before := SerialRun(db, events[..|events| - 1]);
      && SerialAnswers(db, events[..|events| - 1])
      && match events[|events| - 1]
         case Ended(_, _, _, req, reply) => reply == Reply(Outcome(before, req))
         case Missing(_, req) => Outcome(before, req) == Err(PropertyNotFound)
         case _ => true
  }

  predicate NoneStale(events: seq<Event>) {
    forall i :: 0 <= i < |events| && events[i].Ended? ==> events[i].live
  }

  lemma {:induction false} SerialIffNoneStale(db: Db, events: seq<Event>)
    requires Legal(db, events)
    ensures SerialAnswers(db, events) <==> NoneStale(events)
    ensures NoneStale(events) ==> SerialRun(db, events) == Replay(db, events)
  {
    if events != [] {
      var front, last := events[..|events| - 1], events[|events| - 1];
      SerialIffNoneStale(db, front);
      assert NoneStale(events) <==> NoneStale(front) && (last.Ended? ==> last.live);
      if NoneStale(front) && last.Ended? {
        var before := Replay(db, front);
        assert Body(before.rows, last.prop, last.req) ==
               Body(before.rows, before.properties[last.req.propertyUuid], last.req);
      }
    }
  }

  /**
   The lookup of the property comes before its lock.  So the run is answered as whole transactions
   are in the order in which the locks were granted if and only if every property was still live
   when its lock was granted.
   */
  lemma {:induction false} LockOrderIffNoneStale(db0: Db, steps: seq<Step>)
    ensures var s := Execute(Start(db0), steps);
            && (SerialAnswers(db0, s.events) <==> NoneStale(s.events))
            && (NoneStale(s.events) ==> s.db == SerialRun(db0, s.events))
  {
    ExecuteKeeps(db0, steps);
    SerialIffNoneStale(db0, Execute(Start(db0), steps).events);
  }

  lemma ExecuteMore(s: System, steps: seq<Step>, step: Step)
    ensures Execute(s, steps + [step]) == Next(Execute(s, steps), step)
  {
    assert (steps + [step])[..|steps|] == steps;
  }

  /** A property deleted between the lookup and the lock is still assigned to: lock order then answers differently. */
  lemma StaleCommitHappens(req: Request, id: nat) returns (db0: Db, steps: seq<Step>)
    requires req.Assign?
    ensures var s := Execute(Start(db0), steps);
            && !Live(s.db, req.propertyUuid)
            && Active(s.db.rows, Key(id, req.agent))
            && !SerialAnswers(db0, s.events)
  {
    var prop := Property(id, req.propertyUuid, false);
    db0 := Db(map[req.propertyUuid := prop], map[], []);
    steps := [];
    var s := Start(db0);
    steps, s := steps + [Begin(0, req)], Next(s, Begin(0, req));
    assert Execute(Start(db0), steps) == s by { ExecuteMore(Start(db0), [], Begin(0, req)); }
    ExecuteMore(Start(db0), steps, Advance(0));
    steps, s := steps + [Advance(0)], Next(s, Advance(0));
    assert s.txs[0].phase.Found?;
    ExecuteMore(Start(db0), steps, Flag(req.propertyUuid, true));
    steps, s := steps + [Flag(req.propertyUuid, true)], Next(s, Flag(req.propertyUuid, true));
    assert s.txs[0].phase.Found? && !Live(s.db, req.propertyUuid);
    var phases := [Locked, SourceDone, TargetRead, TargetWritten, TargetLogged];
    for i := 0 to 5
      invariant Execute(Start(db0), steps) == s
      invariant s.txs.Keys == {0} && s.txs[0].req == req && s.txs[0].prop == prop
      invariant s.txs[0].phase == if i == 0 then Found else phases[i - 1]
      invariant i == 0 ==> s.locks == map[]
      invariant i > 0 ==> !s.txs[0].live
      invariant s.db == SetDeleted(db0, req.propertyUuid, true)
      invariant i <= 3 ==> s.txs[0].writes == map[]
      invariant i == 3 ==> s.txs[0].seen == None
      invariant i > 3 ==> s.txs[0].writes == map[Target(prop, req) := Opened(req, None)]
    {
      ExecuteMore(Start(db0), steps, Advance(0));
      steps, s := steps + [Advance(0)], Next(s, Advance(0));
    }
    ExecuteMore(Start(db0), steps, Advance(0));
    steps, s := steps + [Advance(0)], Next(s, Advance(0));
    assert !NoneStale(s.events) by {
      assert s.events[|s.events| - 1].Ended? && !s.events[|s.events| - 1].live;
    }
    LockOrderIffNoneStale(db0, steps);
  }

  // ----- The log agrees with the table in every reachable state

  lemma {:induction false} ReplayAgrees(db: Db, events: seq<Event>)
    requires LogAgrees(db) && CountAgrees(db)
    ensures LogAgrees(Replay(db, events)) && CountAgrees(Replay(db, events))
  {
    if events != [] {
      var before := Replay(db, events[..|events| - 1]);
      ReplayAgrees(db, events[..|events| - 1]);
      match events[|events| - 1] {
        case Ended(_, prop, _, req, _) =>
          BodyKeepsLog(before, prop, req);
          BodyKeepsCount(before, prop, req);
        case Flagged(u, deleted) =>
          assert forall k :: PairAgrees(before, k) ==> PairAgrees(Replay(db, events), k);
        case _ =>
      }
    }
  }

  /** For every run from empty tables, on every pair and for every agent. */
  lemma {:induction false} HistoryTellsTheTable(properties: map<string, Property>, steps: seq<Step>, k: Key)
    ensures var db := Execute(Start(Db(properties, map[], [])), steps).db;
            && PairAgrees(db, k)
            && CountCurrent(db.rows, k.agent) == Count(db.history, k.agent, true) - Count(db.history, k.agent, false)
  {
    var db0 := Db(properties, map[], []);
    assert LogAgrees(db0);
    forall agent ensures CountCurrent(db0.rows, agent) ==
        Count(db0.history, agent, true) - Count(db0.history, agent, false) {
      assert ActiveKeys(db0.rows, agent) == {};
    }
    ExecuteKeeps(db0, steps);
    ReplayAgrees(db0, Execute(Start(db0), steps).events);
  }

  lemma {:induction false} ReplayKeepsUuids(db: Db, events: seq<Event>)
    ensures KeepsUuids(db.rows, Replay(db, events).rows)
  {
    if events != [] {
      ReplayKeepsUuids(db, events[..|events| - 1]);
    }
  }

  // ----- No deadlock

  /** Only a busy lock stops a transaction that is not over. */
  lemma AdvanceMoves(s: System, t: nat)
    requires t in s.txs && TxFaithful(s.db, s.txs[t]) && !s.txs[t].phase.Over?
    requires s.txs[t].phase.Found? ==> s.txs[t].prop.id !in s.locks
    ensures Next(s, Advance(t)) != s
  {
    assert t in Next(s, Advance(t)).txs && Next(s, Advance(t)).txs[t].phase != s.txs[t].phase;
  }

  /** Every transaction not over can take a step itself, or the one whose lock it waits for can. */
  lemma {:induction false} NoDeadlock(db0: Db, steps: seq<Step>, t: nat)
    requires var s := Execute(Start(db0), steps); t in s.txs && !s.txs[t].phase.Over?
    ensures var s := Execute(Start(db0), steps);
            exists u :: u in s.txs && Next(s, Advance(u)) != s
                        && (u == t || (s.txs[t].phase.Found? && s.txs[t].prop.id in s.locks
                                       && u == s.locks[s.txs[t].prop.id]))
  {
    ExecuteKeeps(db0, steps);
    var s := Execute(Start(db0), steps);
    var u := if s.txs[t].phase.Found? && s.txs[t].prop.id in s.locks then s.locks[s.txs[t].prop.id] else t;
    assert TxFaithful(s.db, s.txs[u]);
    AdvanceMoves(s, u);
  }
}
