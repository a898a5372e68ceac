/**
 Whole transactions, property lookup included, are serializable in every run.

 The order in which locks were granted need not be such an order, because a property can be
 deleted between its lookup and its lock.  Moving that deletion, and the lookups that failed
 because of it, behind the commit gives one.
 */
module AssignmentOrder {
  import opened Wrappers
  import opened AssignmentTable
  import opened AssignmentConcurrency

  // ----- A found property was live at some time

  ghost predicate EverLive(db: Db, events: seq<Event>, u: string) {
    u in db.properties && (!db.properties[u].deleted || Flagged(u, false) in events)
  }

  /** Every transaction that ended had its property live before. */
  ghost predicate EndedOnLive(db: Db, events: seq<Event>) {
    forall i :: 0 <= i < |events| && events[i].Ended? ==> EverLive(db, events[..i], events[i].req.propertyUuid)
  }

  ghost predicate Sighted(db0: Db, s: System) {
    && EndedOnLive(db0, s.events)
    && forall t :: t in s.txs && !s.txs[t].phase.Started? && !s.txs[t].phase.Over? ==>
         EverLive(db0, s.events, s.txs[t].req.propertyUuid)
  }

  lemma {:induction false} LiveWasEverLive(db: Db, events: seq<Event>, u: string)
    requires Live(Replay(db, events), u)
    ensures EverLive(db, events, u)
  {
    if events != [] {
      var front, last := events[..|events| - 1], events[|events| - 1];
      assert events == front + [last];
      if last != Flagged(u, false) {
        LiveWasEverLive(db, front, u);
      } else {
        ReplayKeepsNames(db, events, u);
      }
    }
  }

  lemma {:induction false} ReplayKeepsNames(db: Db, events: seq<Event>, u: string)
    ensures u in Replay(db, events).properties <==> u in db.properties
  {
    if events != [] {
      ReplayKeepsNames(db, events[..|events| - 1], u);
    }
  }

  lemma EndedOnLiveMore(db: Db, events: seq<Event>, e: Event)
    requires EndedOnLive(db, events)
    requires e.Ended? ==> EverLive(db, events, e.req.propertyUuid)
    ensures EndedOnLive(db, events + [e])
  {
    var more := events + [e];
    forall i | 0 <= i < |more| && more[i].Ended? ensures EverLive(db, more[..i], more[i].req.propertyUuid) {
      assert more[..i] == events[..i];
      assert i < |events| ==> more[i] == events[i];
      assert i == |events| ==> events[..i] == events;
    }
  }

  lemma SightedStep(db0: Db, s: System, step: Step)
    requires Inv(db0, s) && Sighted(db0, s)
    ensures Sighted(db0, Next(s, step))
  {
    var s' := Next(s, step);
    if s'.events != s.events {
      EventAdded(s, step);
      EndedOnLiveMore(db0, s.events, s'.events[|s.events|]);
    }
    forall t | t in s'.txs && !s'.txs[t].phase.Started? && !s'.txs[t].phase.Over?
      ensures EverLive(db0, s'.events, s'.txs[t].req.propertyUuid)
    {
      if step == Advance(t) && s.txs[t].phase.Started? {
        LiveWasEverLive(db0, s.events, s.txs[t].req.propertyUuid);
      } else {
        StayedActive(s, step, t);
      }
    }
  }

  /** A step records at most one event; an end is recorded of a transaction that holds its lock. */
  lemma EventAdded(s: System, step: Step)
    ensures var s' := Next(s, step);
            || s'.events == s.events
            || (exists e :: s'.events == s.events + [e]
                            && (e.Ended? ==>
                                  e.tid in s.txs && Holding(s.txs[e.tid].phase) && e.req == s.txs[e.tid].req))
  {
    var s' := Next(s, step);
    if step.Advance? && step.tid in s.txs && s'.events != s.events {
      assert s'.events == s.events + [s'.events[|s.events|]];
    }
  }

  lemma StayedActive(s: System, step: Step, t: nat)
    requires var s' := Next(s, step); t in s'.txs && !s'.txs[t].phase.Started? && !s'.txs[t].phase.Over?
    requires !(step == Advance(t) && t in s.txs && s.txs[t].phase.Started?)
    ensures t in s.txs && !s.txs[t].phase.Started? && !s.txs[t].phase.Over?
    ensures Next(s, step).txs[t].req == s.txs[t].req
  {
    if step.Advance? && step.tid in s.txs {
      AdvanceKeepsRequests(s, step.tid, t);
    }
  }

  lemma AdvanceKeepsRequests(s: System, u: nat, t: nat)
    requires u in s.txs && t in AdvanceTx(s, u).txs
    ensures t in s.txs && AdvanceTx(s, u).txs[t].req == s.txs[t].req
    ensures t != u ==> AdvanceTx(s, u).txs[t] == s.txs[t]
    ensures s.txs[t].phase.Over? ==> AdvanceTx(s, u).txs[t].phase.Over?
  {
  }

  lemma {:induction false} ExecuteSighted(db0: Db, steps: seq<Step>)
    ensures Sighted(db0, Execute(Start(db0), steps))
  {
    if steps != [] {
      var front := steps[..|steps| - 1];
      ExecuteSighted(db0, front);
      ExecuteKeeps(db0, front);
      SightedStep(db0, Execute(Start(db0), front), steps[|steps| - 1]);
    }
  }

  // ----- Moving deletions behind

  /** The deletions and failed lookups of the property since it was last restored. */
  predicate Sinks(e: Event, u: string) {
    e == Flagged(u, true) || (e.Missing? && e.req.propertyUuid == u)
  }

  function Kept(events: seq<Event>, u: string): seq<Event> {
    if events == [] then []
    else
      var last := events[|events| - 1];
      if last == Flagged(u, false) then events
      else
        var front := Kept(events[..|events| - 1], u);
        if Sinks(last, u) then front else front + [last]
  }

  function Sunk(events: seq<Event>, u: string): seq<Event> {
    if events == [] || events[|events| - 1] == Flagged(u, false) then []
    else
      var front := Sunk(events[..|events| - 1], u);
      if Sinks(events[|events| - 1], u) then front + [events[|events| - 1]] else front
  }

  /** An order in which whole transactions give the same answers. */
  function Reordered(events: seq<Event>): seq<Event> {
    if events == [] then []
    else
      var rest, last := Reordered(events[..|events| - 1]), events[|events| - 1];
      if last.Ended? && !last.live then
        Kept(rest, last.req.propertyUuid) + [last] + Sunk(rest, last.req.propertyUuid)
      else rest + [last]
  }

  // ----- What stays in order

  function Only(keep: Event -> bool, events: seq<Event>): seq<Event> {
    if events == [] then []
    else
      var front := Only(keep, events[..|events| - 1]);
      if keep(events[|events| - 1]) then front + [events[|events| - 1]] else front
  }

  lemma OnlyMore(keep: Event -> bool, events: seq<Event>, e: Event)
    ensures Only(keep, events + [e]) == if keep(e) then Only(keep, events) + [e] else Only(keep, events)
  {
    assert (events + [e])[..|events|] == events;
  }

  lemma {:induction false} OnlyConcat(keep: Event -> bool, a: seq<Event>, b: seq<Event>)
    ensures Only(keep, a + b) == Only(keep, a) + Only(keep, b)
  {
    if b == [] {
      assert a + b == a;
    } else {
      var front, last := b[..|b| - 1], b[|b| - 1];
      OnlyConcat(keep, a, front);
      assert a + b == a + front + [last];
      OnlyMore(keep, a + front, last);
    }
  }

  /** Events that no sinking event may pass: they keep their order. */
  ghost predicate Stays(keep: Event -> bool, u: string) {
    (forall e :: keep(e) ==> !Sinks(e, u)) || (forall e :: keep(e) ==> e.Flagged? && e.propertyUuid == u)
  }

  lemma {:induction false} SinkingKeepsOrder(keep: Event -> bool, events: seq<Event>, u: string)
    requires Stays(keep, u)
    ensures Only(keep, Kept(events, u)) + Only(keep, Sunk(events, u)) == Only(keep, events)
    ensures (forall e :: keep(e) ==> !Sinks(e, u)) ==> Only(keep, Sunk(events, u)) == []
  {
    if events != [] && events[|events| - 1] != Flagged(u, false) {
      var front, last := events[..|events| - 1], events[|events| - 1];
      SinkingKeepsOrder(keep, front, u);
      if Sinks(last, u) {
        OnlyMore(keep, Sunk(front, u), last);
      } else {
        OnlyMore(keep, Kept(front, u), last);
      }
    }
  }

  lemma {:induction false} SinkingKeepsAll(events: seq<Event>, u: string)
    ensures multiset(Kept(events, u)) + multiset(Sunk(events, u)) == multiset(events)
  {
    if events != [] && events[|events| - 1] != Flagged(u, false) {
      var front, last := events[..|events| - 1], events[|events| - 1];
      SinkingKeepsAll(front, u);
      assert events == front + [last];
    }
  }

  function IsEnd(): Event -> bool {
    (e: Event) => e.Ended?
  }

  function IsFlagOf(u: string): Event -> bool {
    (e: Event) => e.Flagged? && e.propertyUuid == u
  }

  /** The same events, with all ends in the same order, and all flag changes of each property. */
  ghost predicate SameOrder(a: seq<Event>, b: seq<Event>) {
    && multiset(a) == multiset(b)
    && Only(IsEnd(), a) == Only(IsEnd(), b)
    && forall u :: Only(IsFlagOf(u), a) == Only(IsFlagOf(u), b)
  }

  lemma {:induction false} ReorderedSameOrder(events: seq<Event>)
    ensures SameOrder(Reordered(events), events)
  {
    if events != [] {
      var front, last := events[..|events| - 1], events[|events| - 1];
      ReorderedSameOrder(front);
      assert events == front + [last];
      if last.Ended? && !last.live {
        SinkingSameOrder(Reordered(front), last, last.req.propertyUuid);
      }
      MoreSameOrder(Reordered(front), front, last);
    }
  }

  lemma MoreSameOrder(a: seq<Event>, b: seq<Event>, e: Event)
    requires SameOrder(a, b)
    ensures SameOrder(a + [e], b + [e])
  {
    OnlyMore(IsEnd(), a, e);
    OnlyMore(IsEnd(), b, e);
    forall u ensures Only(IsFlagOf(u), a + [e]) == Only(IsFlagOf(u), b + [e]) {
      OnlyMore(IsFlagOf(u), a, e);
      OnlyMore(IsFlagOf(u), b, e);
    }
  }

  /** Sinking keeps the order of every kind of event that cannot pass what sinks. */
  lemma SinkingInOrder(keep: Event -> bool, events: seq<Event>, e: Event, u: string)
    requires Stays(keep, u) && (keep(e) ==> forall f :: keep(f) ==> !Sinks(f, u))
    ensures Only(keep, Kept(events, u) + [e] + Sunk(events, u)) == Only(keep, events + [e])
  {
    SinkingKeepsOrder(keep, events, u);
    OnlyAround(keep, Kept(events, u), e, Sunk(events, u));
    OnlyMore(keep, events, e);
  }

  lemma SinkingSameOrder(events: seq<Event>, e: Event, u: string)
    requires e.Ended?
    ensures SameOrder(Kept(events, u) + [e] + Sunk(events, u), events + [e])
  {
    SinkingKeepsAll(events, u);
    SinkingInOrder(IsEnd(), events, e, u);
    forall v ensures Only(IsFlagOf(v), Kept(events, u) + [e] + Sunk(events, u)) == Only(IsFlagOf(v), events + [e]) {
      SinkingInOrder(IsFlagOf(v), events, e, u);
    }
  }

  lemma OnlyAround(keep: Event -> bool, a: seq<Event>, e: Event, b: seq<Event>)
    ensures Only(keep, a + [e] + b) == Only(keep, a) + (if keep(e) then [e] else []) + Only(keep, b)
  {
    OnlyMore(keep, a, e);
    OnlyConcat(keep, a + [e], b);
  }

  // ----- Serial runs, one event at a time

  ghost function SerialStep(db: Db, e: Event): Db {
    match e
    case Ended(_, _, _, req, _) => Run(db, req)
    case Missing(_, req) => Run(db, req)
    case Flagged(u, deleted) => SetDeleted(db, u, deleted)
    case Lost(_, _) => db
  }

  ghost predicate StepAnswers(db: Db, e: Event) {
    match e
    case Ended(_, _, _, req, reply) => reply == Reply(Outcome(db, req))
    case Missing(_, req) => Outcome(db, req) == Err(PropertyNotFound)
    case _ => true
  }

  lemma SerialMore(db: Db, events: seq<Event>, e: Event)
    ensures SerialRun(db, events + [e]) == SerialStep(SerialRun(db, events), e)
    ensures SerialAnswers(db, events + [e]) <==> SerialAnswers(db, events) && StepAnswers(SerialRun(db, events), e)
  {
    assert (events + [e])[..|events|] == events;
  }

  ghost predicate Found(events: seq<Event>) {
    forall i :: 0 <= i < |events| && events[i].Ended? ==> events[i].reply != Err(PropertyNotFound)
  }

  lemma {:induction false} LegalFound(db: Db, events: seq<Event>)
    requires Legal(db, events)
    ensures Found(events)
  {
    if events != [] {
      LegalFound(db, events[..|events| - 1]);
    }
  }

  /** An event that neither sinks nor is about the property does not notice its deletion. */
  lemma DeletionElsewhere(db: Db, u: string, e: Event)
    requires Live(db, u) && !Sinks(e, u) && e != Flagged(u, false)
    requires e.Ended? ==> e.req.propertyUuid != u
    ensures StepAnswers(SetDeleted(db, u, true), e) <==> StepAnswers(db, e)
    ensures SerialStep(SetDeleted(db, u, true), e) == SetDeleted(SerialStep(db, e), u, true)
    ensures Live(SerialStep(db, e), u)
  {
    if e.Flagged? {
      assert SetDeleted(SetDeleted(db, u, true), e.propertyUuid, e.deleted)
          == SetDeleted(SetDeleted(db, e.propertyUuid, e.deleted), u, true);
    }
  }

  lemma RunKeepsProperties(db: Db, req: Request)
    ensures Run(db, req).properties == db.properties
  {
  }

  ghost predicate SunkMeaning(db: Db, events: seq<Event>, u: string) {
    var kept, sunk := Kept(events, u), Sunk(events, u);
    && SerialAnswers(db, kept) && Live(SerialRun(db, kept), u)
    && SerialRun(db, events) == (if sunk == [] then SerialRun(db, kept) else SetDeleted(SerialRun(db, kept), u, true))
    && AllSink(sunk, u)
  }

  ghost predicate AllSink(sunk: seq<Event>, u: string) {
    (forall e :: e in sunk ==> Sinks(e, u)) && (sunk != [] ==> sunk[0] == Flagged(u, true))
  }

  /** Without what sinks the property stays live, and nobody else notices. */
  lemma {:induction false} SinkingMeaning(db: Db, events: seq<Event>, u: string)
    requires SerialAnswers(db, events) && Found(events) && EverLive(db, events, u)
    ensures SunkMeaning(db, events, u)
  {
    if events != [] {
      var front, last := events[..|events| - 1], events[|events| - 1];
      assert events == front + [last];
      SerialMore(db, front, last);
      if last == Flagged(u, false) {
        SerialKeepsNames(db, front, u);
      } else {
        SinkingMeaning(db, front, u);
        if Sinks(last, u) {
          OneMoreSinks(db, front, last, u);
        } else {
          OneMoreStays(db, front, last, u);
        }
      }
    }
  }

  lemma OneMoreSinks(db: Db, front: seq<Event>, last: Event, u: string)
    requires SunkMeaning(db, front, u) && Sinks(last, u) && StepAnswers(SerialRun(db, front), last)
    ensures SunkMeaning(db, front + [last], u)
  {
    assert (front + [last])[..|front|] == front;
    SerialMore(db, front, last);
    DeletedTwice(SerialRun(db, Kept(front, u)), u);
  }

  lemma DeletedTwice(db: Db, u: string)
    ensures SetDeleted(SetDeleted(db, u, true), u, true) == SetDeleted(db, u, true)
  {
  }

  lemma OneMoreStays(db: Db, front: seq<Event>, last: Event, u: string)
    requires SunkMeaning(db, front, u) && !Sinks(last, u) && last != Flagged(u, false)
    requires StepAnswers(SerialRun(db, front), last) && (last.Ended? ==> last.reply != Err(PropertyNotFound))
    ensures SunkMeaning(db, front + [last], u)
  {
    assert (front + [last])[..|front|] == front;
    SerialMore(db, front, last);
    SerialMore(db, Kept(front, u), last);
    if last.Ended? && last.req.propertyUuid == u {
      RunKeepsProperties(SerialRun(db, Kept(front, u)), last.req);
    } else {
      DeletionElsewhere(SerialRun(db, Kept(front, u)), u, last);
    }
  }

  lemma {:induction false} SerialKeepsNames(db: Db, events: seq<Event>, u: string)
    ensures u in SerialRun(db, events).properties <==> u in db.properties
  {
    if events != [] {
      SerialKeepsNames(db, events[..|events| - 1], u);
    }
  }

  /** What sank, run behind everything else, is answered as before and leaves the property deleted. */
  lemma {:induction false} SunkRuns(db: Db, events: seq<Event>, sunk: seq<Event>, u: string)
    requires SerialAnswers(db, events) && Live(SerialRun(db, events), u) && AllSink(sunk, u)
    ensures SerialAnswers(db, events + sunk)
    ensures SerialRun(db, events + sunk) ==
            if sunk == [] then SerialRun(db, events) else SetDeleted(SerialRun(db, events), u, true)
  {
    if sunk == [] {
      assert events + sunk == events;
    } else {
      var front, last := sunk[..|sunk| - 1], sunk[|sunk| - 1];
      assert forall e :: e in front ==> e in sunk;
      assert last in sunk;
      SunkRuns(db, events, front, u);
      assert events + sunk == events + front + [last];
      SerialMore(db, events + front, last);
      var d := SerialRun(db, events);
      assert SetDeleted(SetDeleted(d, u, true), u, true) == SetDeleted(d, u, true);
    }
  }

  /** A transaction that ended on a deleted property, run where the property is live. */
  lemma StaleRuns(db: Db, before: Db, u: string, prop: Property, req: Request)
    requires Live(db, u) && before == SetDeleted(db, u, true) && req.propertyUuid == u && Names(before, prop, req)
    ensures Outcome(db, req) == Body(before.rows, prop, req)
    ensures SetDeleted(Run(db, req), u, true) == Apply(before, Body(before.rows, prop, req))
    ensures Live(Run(db, req), u)
  {
    assert Body(before.rows, prop, req) == Body(db.rows, db.properties[u], req);
  }

  lemma {:induction false} ReorderedAnswers(db: Db, events: seq<Event>)
    requires Legal(db, events) && EndedOnLive(db, events)
    ensures SerialAnswers(db, Reordered(events))
    ensures SerialRun(db, Reordered(events)) == Replay(db, events)
    decreases |events|
  {
    if events != [] {
      var front, last := events[..|events| - 1], events[|events| - 1];
      forall i | 0 <= i < |front| && front[i].Ended? ensures EverLive(db, front[..i], front[i].req.propertyUuid) {
        assert front[..i] == events[..i] && front[i] == events[i];
      }
      ReorderedAnswers(db, front);
      if last.Ended? && !last.live {
        StaleAnswers(db, front, last);
      } else {
        NextAnswers(db, front, last);
      }
    }
  }

  lemma NextAnswers(db: Db, front: seq<Event>, last: Event)
    requires Legal(db, front + [last]) && !(last.Ended? && !last.live)
    requires SerialAnswers(db, Reordered(front)) && SerialRun(db, Reordered(front)) == Replay(db, front)
    ensures SerialAnswers(db, Reordered(front) + [last])
    ensures SerialRun(db, Reordered(front) + [last]) == Replay(db, front + [last])
  {
    assert (front + [last])[..|front|] == front;
    SerialMore(db, Reordered(front), last);
    var before := Replay(db, front);
    if last.Ended? {
      assert Body(before.rows, last.prop, last.req) ==
             Body(before.rows, before.properties[last.req.propertyUuid], last.req);
    }
  }

  lemma StaleAnswers(db: Db, front: seq<Event>, last: Event)
    requires Legal(db, front + [last]) && EndedOnLive(db, front + [last]) && last.Ended? && !last.live
    requires SerialAnswers(db, Reordered(front)) && SerialRun(db, Reordered(front)) == Replay(db, front)
    ensures SerialAnswers(db, Reordered(front + [last]))
    ensures SerialRun(db, Reordered(front + [last])) == Replay(db, front + [last])
  {
    var events, rest, u := front + [last], Reordered(front), last.req.propertyUuid;
    assert events[..|front|] == front && events[|front|] == last;
    var before := Replay(db, front);
    LegalFound(db, front);
    ReorderedSameOrder(front);
    forall i | 0 <= i < |rest| && rest[i].Ended? ensures rest[i].reply != Err(PropertyNotFound) {
      assert rest[i] in multiset(rest);
      assert rest[i] in multiset(front);
    }
    assert Flagged(u, false) in front ==> Flagged(u, false) in multiset(rest);
    assert EverLive(db, front, u);
    SinkingMeaning(db, rest, u);
    var kept, sunk := Kept(rest, u), Sunk(rest, u);
    var d := SerialRun(db, kept);
    StaleRuns(d, before, u, last.prop, last.req);
    SerialMore(db, kept, last);
    SunkRuns(db, kept + [last], sunk, u);
  }

  // ----- The result

  /**
   Every run is serializable as whole transactions: some order of the recorded events, with all
   ends in the order of the locks and all flag changes of a property in their order, gives every
   transaction its answer and ends in the same tables.
   */
  lemma {:induction false} WholeTransactionsSerializable(db0: Db, steps: seq<Step>) returns (order: seq<Event>)
    ensures var s := Execute(Start(db0), steps);
            SameOrder(order, s.events) && SerialAnswers(db0, order) && SerialRun(db0, order) == s.db
  {
    ExecuteKeeps(db0, steps);
    ExecuteSighted(db0, steps);
    var s := Execute(Start(db0), steps);
    order := Reordered(s.events);
    ReorderedSameOrder(s.events);
    ReorderedAnswers(db0, s.events);
  }
}
