/** Page walks over the states of one run of concurrent transactions. */
module AssignmentWalks {
  import opened Wrappers
  import opened AssignmentTable
  import opened AssignmentConcurrency
  import opened AssignmentOrder
  import opened AssignmentPages

  lemma EventKeepsUuids(db: Db, events: seq<Event>, e: Event)
    ensures KeepsUuids(Replay(db, events).rows, Replay(db, events + [e]).rows)
  {
    assert (events + [e])[..|events|] == events;
  }

  lemma StepKeepsUuids(db0: Db, s: System, step: Step)
    requires Inv(db0, s)
    ensures KeepsUuids(s.db.rows, Next(s, step).db.rows)
  {
    var s' := Next(s, step);
    NextKeeps(db0, s, step);
    EventAdded(s, step);
    assert s.db == Replay(db0, s.events) && s'.db == Replay(db0, s'.events);
    if s'.events != s.events {
      var e :| s'.events == s.events + [e];
      EventKeepsUuids(db0, s.events, e);
    }
  }

  /** Between two points of a run no assignment row disappears or changes its uuid. */
  lemma {:induction false} RunKeepsUuids(db0: Db, steps: seq<Step>, i: nat, j: nat)
    requires i <= j <= |steps|
    ensures KeepsUuids(Execute(Start(db0), steps[..i]).db.rows, Execute(Start(db0), steps[..j]).db.rows)
    decreases j
  {
    if i < j {
      RunKeepsUuids(db0, steps, i, j - 1);
      assert steps[..j][..j - 1] == steps[..j - 1];
      ExecuteKeeps(db0, steps[..j - 1]);
      StepKeepsUuids(db0, Execute(Start(db0), steps[..j - 1]), steps[j - 1]);
    }
  }

  /** The calls of a walk see the tables after these numbers of steps. */
  ghost function Seen(db0: Db, steps: seq<Step>, times: seq<nat>): (tables: seq<map<Key, Row>>)
    requires forall i :: 0 <= i < |times| ==> times[i] <= |steps|
    ensures |tables| == |times|
    ensures forall i :: 0 <= i < |times| ==> tables[i] == Execute(Start(db0), steps[..times[i]]).db.rows
  {
    seq(|times|, i requires 0 <= i < |times| => Execute(Start(db0), steps[..times[i]]).db.rows)
  }

  /**
   While any transactions run between its calls, a completed walk lists an assignment that is
   active at each of them.
   */
  lemma RunningWalkListsStaying(db0: Db, steps: seq<Step>, times: seq<nat>, agent: string, limit: int, k: Key)
    requires forall i :: 0 <= i < |times| ==> times[i] <= |steps|
    requires forall i, j :: 0 <= i < j < |times| ==> times[i] <= times[j]
    requires Completes(Seen(db0, steps, times), agent, limit, None) && k.agent == agent
    requires forall i :: 0 <= i < |times| ==> Active(Seen(db0, steps, times)[i], k)
    ensures var tables := Seen(db0, steps, times);
            times != [] && k in tables[0] && tables[0][k].uuid in Walk(tables, agent, limit, None)
  {
    var tables := Seen(db0, steps, times);
    forall i | 0 < i < |tables| ensures KeepsUuids(tables[0], tables[i]) {
      RunKeepsUuids(db0, steps, times[0], times[i]);
    }
    StayingAssignmentIsListed(tables, agent, limit, k);
  }
}
