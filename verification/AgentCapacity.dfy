/**
 The capacity gate in front of the assignment adapter.

 The profiles, the authorization answers and the CRM and sales workloads come from other
 services; here they are fixed inputs.  An agent's load is the active property assignments
 plus those workloads.
 */
module AgentCapacity {
  import opened Wrappers
  import opened AssignmentTable
  import opened AssignmentAdapter

  /** `status` is the user's status in lower case. */
  datatype User = User(status: string, isActive: bool, deleted: bool)

  datatype Profile = Profile(
    userUuid: string, displayName: Option<string>, status: string, maxActiveAssignments: int,
    availability: string, user: Option<User>, hasAgentAccess: bool)

  /** Assigned leads, open opportunities and open deals of a user. */
  datatype Workload = Workload(leads: nat, opportunities: nat, deals: nat)

  datatype World = World(profiles: map<string, Profile>, workloads: map<string, Workload>)

  datatype ServiceError = AgentNotFound | Forbidden | NotAssignable | Refused(error: Error)

  /** `permitted` is whether the caller holds the permission the operation asks for. */
  datatype Operation =
    | AssignTo(property: string, agentUuid: string, actor: string, permitted: bool, draws: Draws)
    | ReassignTo(property: string, fromUuid: Option<string>, agentUuid: string, actor: string, permitted: bool,
                 draws: Draws)
    | UnassignFrom(property: string, agentUuid: string, actor: string, permitted: bool, draws: Draws)

  // ----- The gate

  predicate IsUserEligible(profile: Profile) {
    && profile.user.Some?
    && !profile.user.value.deleted
    && profile.user.value.isActive
    && profile.user.value.status !in ["inactive", "suspended", "deleted", "disabled"]
    && profile.hasAgentAccess
  }

  predicate IsAgentAssignable(profile: Profile, remaining: int) {
    IsUserEligible(profile) && profile.status == "ACTIVE" && profile.availability == "ACTIVE" && remaining > 0
  }

  function Outside(world: World, userUuid: string): nat {
    if userUuid in world.workloads then
      var w := world.workloads[userUuid];
      w.leads + w.opportunities + w.deals
    else 0
  }

  function Load(world: World, rows: map<Key, Row>, userUuid: string): nat {
    CountCurrent(rows, userUuid) + Outside(world, userUuid)
  }

  function Remaining(world: World, rows: map<Key, Row>, profile: Profile): nat {
    var left := profile.maxActiveAssignments - Load(world, rows, profile.userUuid);
    if left < 0 then 0 else left
  }

  // ----- One operation

  function Name(profile: Profile): string {
    if profile.displayName.Some? then profile.displayName.value else profile.userUuid
  }

  /** The request the operation sends to the adapter, or why it stops before that. */
  function Gate(world: World, rows: map<Key, Row>, op: Operation): Result<Request, ServiceError> {
    match op
    case AssignTo(property, agentUuid, actor, permitted, draws) =>
      if agentUuid !in world.profiles then Err(AgentNotFound)
      else
        var target := world.profiles[agentUuid];
        if !permitted then Err(Forbidden)
        else if !IsAgentAssignable(target, Remaining(world, rows, target)) then Err(NotAssignable)
        else Ok(Request.Assign(property, target.userUuid, Name(target), actor, draws))
    case ReassignTo(property, fromUuid, agentUuid, actor, permitted, draws) =>
      if !permitted then Err(Forbidden)
      else if agentUuid !in world.profiles then Err(AgentNotFound)
      else
        var target := world.profiles[agentUuid];
        if !IsAgentAssignable(target, Remaining(world, rows, target)) then Err(NotAssignable)
        else if fromUuid.Some? && fromUuid.value != "" && fromUuid.value !in world.profiles then Err(AgentNotFound)
        else
          var from := if fromUuid.Some?
              && fromUuid.value != "" then Some(world.profiles[fromUuid.value].userUuid) else None;
          Ok(Request.Reassign(property, from, target.userUuid, Name(target), actor, draws))
    case UnassignFrom(property, agentUuid, actor, permitted, draws) =>
      if !permitted then Err(Forbidden)
      else if agentUuid !in world.profiles then Err(AgentNotFound)
      else Ok(Request.Unassign(property, world.profiles[agentUuid].userUuid, actor, draws))
  }

  ghost function Serve(world: World, db: Db, op: Operation): (Db, Result<Row, ServiceError>) {
    match Gate(world, db.rows, op)
    case Err(x) => (db, Err(x))
    case Ok(req) =>
      match Reply(Outcome(db, req))
      case Ok(row) => (Run(db, req), Ok(row))
      case Err(x) => (Run(db, req), Err(Refused(x)))
  }

  class Service {
    const world: World
    const assignments: Adapter

    constructor (world: World, assignments: Adapter)
      ensures this.world == world && this.assignments == assignments
    {
      this.world := world;
      this.assignments := assignments;
    }

    /** The three assignment endpoints: gate, then the adapter's transaction. */
    method Perform(op: Operation) returns (reply: Result<Row, ServiceError>)
      modifies assignments
      ensures (assignments.Contents(), reply) == Serve(world, old(assignments.Contents()), op)
    {
      var gate := Gate(world, assignments.rows, op);
      if gate.Err? {
        return Err(gate.error);
      }
      var answer;
      match gate.value {
        case Assign(property, agent, name, actor, draws) =>
          answer := assignments.Assign(property, agent, name, actor, draws);
        case Unassign(property, agent, actor, draws) =>
          answer := assignments.Unassign(property, agent, actor, draws);
        case Reassign(property, from, agent, name, actor, draws) =>
          answer := assignments.Reassign(property, from, agent, name, actor, draws);
      }
      reply := match answer case Ok(row) => Ok(row) case Err(x) => Err(Refused(x));
    }
  }

  // ----- Over whole runs

  ghost function ServeAll(world: World, db: Db, ops: seq<Operation>): Db {
    if ops == [] then db else Serve(world, ServeAll(world, db, ops[..|ops| - 1]), ops[|ops| - 1]).0
  }

  ghost predicate UniqueUsers(world: World) {
    forall p, q | p in world.profiles && q in world.profiles && p != q ::
      world.profiles[p].userUuid != world.profiles[q].userUuid
  }

  ghost predicate WithinCapacity(world: World, rows: map<Key, Row>, agentUuid: string)
    requires agentUuid in world.profiles
  {
    Load(world, rows, world.profiles[agentUuid].userUuid) <= world.profiles[agentUuid].maxActiveAssignments
  }

  /** An operation that succeeds opens one assignment of its target, and the gate left room for it. */
  lemma TargetStaysWithinCapacity(world: World, db: Db, op: Operation)
    requires Serve(world, db, op).1.Ok? && !op.UnassignFrom?
    ensures WithinCapacity(world, Serve(world, db, op).0.rows, op.agentUuid)
    ensures var user := world.profiles[op.agentUuid].userUuid;
            CountCurrent(Serve(world, db, op).0.rows, user) == CountCurrent(db.rows, user) + 1
  {
    var req := Gate(world, db.rows, op).value;
    BodyCounts(db, db.properties[req.propertyUuid], req, req.agent);
  }

  lemma CapacityStep(world: World, db: Db, op: Operation, agentUuid: string)
    requires UniqueUsers(world) && agentUuid in world.profiles
    ensures var user := world.profiles[agentUuid].userUuid;
            || CountCurrent(Serve(world, db, op).0.rows, user) <= CountCurrent(db.rows, user)
            || WithinCapacity(world, Serve(world, db, op).0.rows, agentUuid)
  {
    var user := world.profiles[agentUuid].userUuid;
    if Serve(world, db, op).1.Ok? {
      var req := Gate(world, db.rows, op).value;
      BodyCounts(db, db.properties[req.propertyUuid], req, user);
      if !op.UnassignFrom? {
        TargetStaysWithinCapacity(world, db, op);
      }
    } else if Gate(world, db.rows, op).Ok? {
      var req := Gate(world, db.rows, op).value;
      assert Run(db, req) == db;
    }
  }

  /**
   Over any sequential run no agent is pushed above the limit: whoever ends up above it started
   above it and has at most as many assignments as then.
   */
  lemma {:induction false} CapacityOverRuns(world: World, db: Db, ops: seq<Operation>, agentUuid: string)
    requires UniqueUsers(world) && agentUuid in world.profiles
    ensures var user := world.profiles[agentUuid].userUuid;
            || WithinCapacity(world, ServeAll(world, db, ops).rows, agentUuid)
            || CountCurrent(ServeAll(world, db, ops).rows, user) <= CountCurrent(db.rows, user)
  {
    if ops != [] {
      CapacityOverRuns(world, db, ops[..|ops| - 1], agentUuid);
      CapacityStep(world, ServeAll(world, db, ops[..|ops| - 1]), ops[|ops| - 1], agentUuid);
    }
  }

  function AllActive(rows: map<Key, Row>): set<Key> {
    set k | k in rows && Active(rows, k)
  }

  lemma {:induction false} AllActiveAfter(db: Db, req: Request)
    requires Outcome(db, req).Ok? && req.Reassign?
    ensures var prop := db.properties[req.propertyUuid];
            AllActive(Run(db, req).rows) ==
            AllActive(db.rows) - (if MovesFrom(req) then {Source(prop, req)} else {}) + {Target(prop, req)}
    ensures !Active(db.rows, Target(db.properties[req.propertyUuid], req))
  {
    var prop := db.properties[req.propertyUuid];
    var expected := AllActive(db.rows) - (if MovesFrom(req) then {Source(prop, req)} else {}) + {Target(prop, req)};
    forall k ensures k in AllActive(Run(db, req).rows) <==> k in expected {
      RunMeaning(db, req, k);
      assert k in AllActive(db.rows) <==> Active(db.rows, k);
    }
  }

  lemma SizeAfterMove<T>(before: set<T>, source: set<T>, target: T)
    requires target !in before && |source| <= 1 && target !in source
    ensures |before - source + {target}| == |before| <==> source <= before && source != {}
  {
    if source <= before {
      assert before == (before - source) + source;
    } else {
      var x :| x in source && x !in before;
      assert source == {x} by {
        assert |source - {x}| == 0;
      }
      assert before - source == before;
    }
  }

  /**
   A successful reassignment closes exactly its source, when that is active and another agent,
   and opens exactly its target; so it conserves the number of active assignments if and only if
   there was such a source to take from.
   */
  lemma {:induction false} ReassignConserves(world: World, db: Db, op: Operation)
    requires op.ReassignTo? && Serve(world, db, op).1.Ok?
    ensures var req := Gate(world, db.rows, op).value;
            var prop := db.properties[req.propertyUuid];
            var after := AllActive(Serve(world, db, op).0.rows);
            && after == AllActive(db.rows) - (if MovesFrom(req) then {Source(prop, req)} else {}) + {Target(prop, req)}
            && (|after| == |AllActive(db.rows)| <==> MovesFrom(req) && Active(db.rows, Source(prop, req)))
  {
    var req := Gate(world, db.rows, op).value;
    var prop := db.properties[req.propertyUuid];
    AllActiveAfter(db, req);
    SizeAfterMove(AllActive(db.rows), if MovesFrom(req) then {Source(prop, req)} else {}, Target(prop, req));
  }
}
