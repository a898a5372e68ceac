/** What the three assignment operations answer and change, told from the world and the tables. */
module AgentAnswers {
  import opened Wrappers
  import opened AssignmentTable
  import opened AgentCapacity

  // ----- When an agent may take one more assignment

  ghost predicate Eligible(p: Profile) {
    && p.user.Some? && !p.user.value.deleted && p.user.value.isActive && p.hasAgentAccess
    && p.user.value.status != "inactive" && p.user.value.status != "suspended"
    && p.user.value.status != "deleted" && p.user.value.status != "disabled"
  }

  ghost predicate HasRoom(world: World, rows: map<Key, Row>, p: Profile) {
    var current := |set k | k in rows && k.agent == p.userUuid && rows[k].unassignedAt == None|;
    if p.userUuid in world.workloads then
      var w := world.workloads[p.userUuid];
      current + w.leads + w.opportunities + w.deals < p.maxActiveAssignments
    else current < p.maxActiveAssignments
  }

  ghost predicate MayTake(world: World, rows: map<Key, Row>, p: Profile) {
    Eligible(p) && p.status == "ACTIVE" && p.availability == "ACTIVE" && HasRoom(world, rows, p)
  }

  lemma MayTakeIff(world: World, rows: map<Key, Row>, p: Profile)
    ensures MayTake(world, rows, p) <==> IsAgentAssignable(p, Remaining(world, rows, p))
  {
    assert ActiveKeys(rows, p.userUuid) == set k | k in rows && k.agent == p.userUuid && rows[k].unassignedAt == None;
  }

  // ----- Answers, in the order the conditions are checked

  /** The pair of the property with the user of the agent profile. */
  ghost function Pair(world: World, db: Db, property: string, agentUuid: string): Key
    requires property in db.properties && agentUuid in world.profiles
  {
    Key(db.properties[property].id, world.profiles[agentUuid].userUuid)
  }

  ghost predicate IsLive(db: Db, property: string) {
    property in db.properties && !db.properties[property].deleted
  }

  ghost predicate InForce(db: Db, k: Key) {
    k in db.rows && db.rows[k].unassignedAt == None
  }

  lemma AssignAnswers(world: World, db: Db, op: Operation)
    requires op.AssignTo?
    ensures var answer := Serve(world, db, op).1;
            if op.agentUuid !in world.profiles then answer == Err(AgentNotFound)
            else if !op.permitted then answer == Err(Forbidden)
            else if !MayTake(world, db.rows, world.profiles[op.agentUuid]) then answer == Err(NotAssignable)
            else if !IsLive(db, op.property) then answer == Err(Refused(PropertyNotFound))
            else if InForce(db, Pair(world, db, op.property, op.agentUuid)) then answer == Err(Refused(AlreadyAssigned))
            else answer.Ok?
  {
    if op.agentUuid in world.profiles {
      MayTakeIff(world, db.rows, world.profiles[op.agentUuid]);
    }
  }

  lemma ReassignAnswers(world: World, db: Db, op: Operation)
    requires op.ReassignTo?
    ensures var answer := Serve(world, db, op).1;
            if !op.permitted then answer == Err(Forbidden)
            else if op.agentUuid !in world.profiles then answer == Err(AgentNotFound)
            else if !MayTake(world, db.rows, world.profiles[op.agentUuid]) then answer == Err(NotAssignable)
            else if op.fromUuid.Some? && op.fromUuid.value != "" && op.fromUuid.value !in world.profiles then
              answer == Err(AgentNotFound)
            else if !IsLive(db, op.property) then answer == Err(Refused(PropertyNotFound))
            else if InForce(db, Pair(world, db, op.property, op.agentUuid)) then
              answer == Err(Refused(TargetAlreadyAssigned))
            else answer.Ok?
  {
    if op.agentUuid in world.profiles {
      MayTakeIff(world, db.rows, world.profiles[op.agentUuid]);
    }
  }

  lemma UnassignAnswers(world: World, db: Db, op: Operation)
    requires op.UnassignFrom?
    ensures var answer := Serve(world, db, op).1;
            if !op.permitted then answer == Err(Forbidden)
            else if op.agentUuid !in world.profiles then answer == Err(AgentNotFound)
            else if !IsLive(db, op.property) then answer == Err(Refused(PropertyNotFound))
            else if InForce(db, Pair(world, db, op.property, op.agentUuid)) then answer.Ok?
            else answer == Err(Refused(NoActiveAssignment))
  {
  }

  /** An operation that fails changes nothing. */
  lemma FailureChangesNothing(world: World, db: Db, op: Operation)
    requires Serve(world, db, op).1.Err?
    ensures Serve(world, db, op).0 == db
  {
  }

  // ----- Changes

  /** The source of a reassignment that is to be closed, if it names one that is in force. */
  ghost function Taken(world: World, db: Db, op: Operation): set<Key>
    requires op.property in db.properties
  {
    if && op.ReassignTo? && op.fromUuid.Some? && op.fromUuid.value in world.profiles && op.agentUuid in world.profiles
       && op.fromUuid.value != "" && world.profiles[op.fromUuid.value].userUuid != ""
       && world.profiles[op.fromUuid.value].userUuid != world.profiles[op.agentUuid].userUuid
       && InForce(db, Pair(world, db, op.property, op.fromUuid.value))
    then {Pair(world, db, op.property, op.fromUuid.value)} else {}
  }

  /** A success opens or closes exactly the pair of the property and the agent's user, and closes a named source. */
  lemma SuccessChanges(world: World, db: Db, op: Operation, k: Key)
    requires Serve(world, db, op).1.Ok?
    ensures op.property in db.properties && op.agentUuid in world.profiles
    ensures InForce(Serve(world, db, op).0, k) <==>
            if k == Pair(world, db, op.property, op.agentUuid) then !op.UnassignFrom?
            else InForce(db, k) && k !in Taken(world, db, op)
  {
  }

  /** The last entry names the property, the agent's user, the caller and what was done. */
  lemma SuccessIsLogged(world: World, db: Db, op: Operation)
    requires Serve(world, db, op).1.Ok?
    ensures op.property in db.properties && op.agentUuid in world.profiles
    ensures var after := Serve(world, db, op).0.history;
            && |after| == |db.history| + 1 + |Taken(world, db, op)| && db.history <= after
            && Records(after[|after| - 1], op.draws.entryUuid, db.properties[op.property],
                       world.profiles[op.agentUuid].userUuid, op.actor,
                       match op
                       case AssignTo(_, _, _, _, _) => ASSIGN
                       case ReassignTo(_, _, _, _, _, _) => REASSIGN
                       case UnassignFrom(_, _, _, _, _) => UNASSIGN)
            && (Taken(world, db, op) != {} ==>
                  Records(after[|db.history|], op.draws.fromEntryUuid, db.properties[op.property],
                          world.profiles[op.fromUuid.value].userUuid, op.actor, UNASSIGN))
  {
    EntriesStored(db, Gate(world, db.rows, op).value);
  }

  /** The row answered is that of the pair; an opened one carries the display name, or the user if there is none. */
  lemma SuccessAnswersRow(world: World, db: Db, op: Operation)
    requires Serve(world, db, op).1.Ok?
    ensures op.property in db.properties && op.agentUuid in world.profiles
    ensures var k, after := Pair(world, db, op.property, op.agentUuid), Serve(world, db, op).0.rows;
            && k in after && Serve(world, db, op).1.value == after[k]
            && (if op.UnassignFrom? then
                  k in db.rows && ClosedBy(db.rows[k], after[k], op.actor, op.draws.now)
                else
                  && after[k].assignedAt == op.draws.now
                  && (match world.profiles[op.agentUuid].displayName
                      case Some(name) => after[k].displayName == name
                      case None => after[k].displayName == world.profiles[op.agentUuid].userUuid))
  {
    var req := Gate(world, db.rows, op).value;
    if op.UnassignFrom? {
      UnassigningStores(db, req);
    } else {
      OpeningStores(db, req);
    }
  }
}
