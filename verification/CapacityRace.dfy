/**
 Concurrent assignments past the capacity gate.

 The gate reads the load before the adapter's transaction starts, and other operations may pass
 it or commit in between.  A transaction is one step here, because its locked part is serializable.
 */
module CapacityRace {
  import opened Wrappers
  import opened AssignmentTable
  import opened AgentCapacity

  /** `pending` holds the requests that passed the gate and whose transactions have not ended. */
  datatype Race = Race(db: Db, pending: map<nat, Request>)

  datatype Move = Check(id: nat, op: Operation) | Finish(id: nat) | Drop(id: nat)

  ghost function Next(world: World, r: Race, move: Move): Race {
    match move
    case Check(id, op) =>
      if id in r.pending || Gate(world, r.db.rows, op).Err? then r
      else r.(pending := r.pending[id := Gate(world, r.db.rows, op).value])
    case Finish(id) =>
      if id in r.pending then Race(Run(r.db, r.pending[id]), r.pending - {id}) else r
    case Drop(id) => r.(pending := r.pending - {id})
  }

  ghost function After(world: World, db: Db, moves: seq<Move>): Race {
    if moves == [] then Race(db, map[]) else Next(world, After(world, db, moves[..|moves| - 1]), moves[|moves| - 1])
  }

  /** The operations past the gate that are about to open an assignment of the user. */
  function InFlight(pending: map<nat, Request>, user: string): set<nat> {
    set id | id in pending && !pending[id].Unassign? && pending[id].agent == user
  }

  ghost predicate AtMost(world: World, db: Db, moves: seq<Move>, user: string, k: nat) {
    && |InFlight(After(world, db, moves).pending, user)| <= k
    && (moves != [] ==> AtMost(world, db, moves[..|moves| - 1], user, k))
  }

  lemma InFlightLess(pending: map<nat, Request>, id: nat, user: string)
    ensures InFlight(pending - {id}, user) == InFlight(pending, user) - {id}
    ensures |InFlight(pending - {id}, user)| ==
            |InFlight(pending, user)| - if id in InFlight(pending, user) then 1 else 0
  {
    assert InFlight(pending - {id}, user) == InFlight(pending, user) - {id};
  }

  /** A transaction that ends turns at most the operation in flight into an assignment. */
  lemma FinishShifts(db: Db, req: Request, user: string)
    ensures CountCurrent(Run(db, req).rows, user) <=
            CountCurrent(db.rows, user) + if !req.Unassign? && req.agent == user then 1 else 0
  {
    if Outcome(db, req).Ok? {
      BodyCounts(db, db.properties[req.propertyUuid], req, user);
    }
  }

  ghost predicate Within(world: World, r: Race, agentUuid: string, bound: int)
    requires agentUuid in world.profiles
  {
    var user := world.profiles[agentUuid].userUuid;
    Load(world, r.db.rows, user) + |InFlight(r.pending, user)| <= bound
  }

  /** An operation that passes the gate for the user found room for one more. */
  lemma GateLeavesRoom(world: World, rows: map<Key, Row>, op: Operation, agentUuid: string)
    requires UniqueUsers(world) && agentUuid in world.profiles && Gate(world, rows, op).Ok?
    requires var req := Gate(world, rows, op).value;
             !req.Unassign? && req.agent == world.profiles[agentUuid].userUuid
    ensures Load(world, rows, world.profiles[agentUuid].userUuid) < world.profiles[agentUuid].maxActiveAssignments
  {
  }

  lemma {:induction false} LoadAndFlight(world: World, db: Db, moves: seq<Move>, agentUuid: string, k: nat)
    requires UniqueUsers(world) && agentUuid in world.profiles && k > 0
    requires AtMost(world, db, moves, world.profiles[agentUuid].userUuid, k)
    ensures var agent := world.profiles[agentUuid];
            Within(world, After(world, db, moves), agentUuid,
                   Max(agent.maxActiveAssignments + k - 1, Load(world, db.rows, agent.userUuid)))
  {
    var user := world.profiles[agentUuid].userUuid;
    if moves == [] {
      assert InFlight(map[], user) == {};
    } else {
      var before := After(world, db, moves[..|moves| - 1]);
      LoadAndFlight(world, db, moves[..|moves| - 1], agentUuid, k);
      match moves[|moves| - 1] {
        case Check(id, op) =>
          if id !in before.pending && Gate(world, before.db.rows, op).Ok? {
            var req := Gate(world, before.db.rows, op).value;
            if !req.Unassign? && req.agent == user {
              GateLeavesRoom(world, before.db.rows, op, agentUuid);
            } else {
              assert InFlight(before.pending[id := req], user) == InFlight(before.pending, user);
            }
          }
        case Finish(id) =>
          InFlightLess(before.pending, id, user);
          if id in before.pending {
            FinishShifts(before.db, before.pending[id], user);
          }
        case Drop(id) => InFlightLess(before.pending, id, user);
      }
    }
  }

  function Max(a: int, b: int): int {
    if a < b then b else a
  }

  /**
   With at most k operations for an agent between gate and commit, its load never exceeds the
   limit by more than k - 1, unless it did before and has not grown.
   */
  lemma OvershootBound(world: World, db: Db, moves: seq<Move>, agentUuid: string, k: nat)
    requires UniqueUsers(world) && agentUuid in world.profiles && k > 0
    requires AtMost(world, db, moves, world.profiles[agentUuid].userUuid, k)
    ensures var agent := world.profiles[agentUuid];
            Load(world, After(world, db, moves).db.rows, agent.userUuid) <=
            Max(agent.maxActiveAssignments + k - 1, Load(world, db.rows, agent.userUuid))
  {
    LoadAndFlight(world, db, moves, agentUuid, k);
  }

  // ----- A run that reaches the bound

  /** An agent whose other work leaves room for one assignment. */
  function OneLeft(limit: nat): World
    requires limit > 0
  {
    World(map["agent" := Profile("user", None, "ACTIVE", limit, "ACTIVE", Some(User("active", true, false)), true)],
          map["user" := Workload(limit - 1, 0, 0)])
  }

  /** Property names told apart by their length. */
  function PropertyName(i: nat): string {
    seq(i, _ => 'p')
  }

  function FreshProperties(k: nat): map<string, Property> {
    map name | name in set i: nat | i < k :: PropertyName(i) :: Property(|name|, name, false)
  }

  function Assigning(i: nat, draws: Draws): Operation {
    AssignTo(PropertyName(i), "agent", "actor", true, draws)
  }

  function Requested(i: nat, draws: Draws): Request {
    Request.Assign(PropertyName(i), "user", "user", "actor", draws)
  }

  function Requests(from: nat, to: nat, draws: Draws): map<nat, Request> {
    map i: nat | from <= i < to :: Requested(i, draws)
  }

  lemma AfterMore(world: World, db: Db, moves: seq<Move>, move: Move, user: string, k: nat)
    ensures After(world, db, moves + [move]) == Next(world, After(world, db, moves), move)
    ensures AtMost(world, db, moves, user, k) && |InFlight(After(world, db, moves + [move]).pending, user)| <= k ==>
              AtMost(world, db, moves + [move], user, k)
  {
    assert (moves + [move])[..|moves|] == moves;
  }

  lemma {:induction false} FewInFlight(pending: map<nat, Request>, user: string, k: nat)
    requires forall id :: id in pending ==> id < k
    ensures |InFlight(pending, user)| <= k
  {
    if k > 0 {
      FewInFlight(pending - {k - 1}, user, k - 1);
      InFlightLess(pending, k - 1, user);
    }
  }

  lemma GateOpens(limit: nat, i: nat, draws: Draws)
    requires limit > 0
    ensures Gate(OneLeft(limit), map[], Assigning(i, draws)) == Ok(Requested(i, draws))
  {
    var world := OneLeft(limit);
    assert ActiveKeys(map[], "user") == {};
    assert Remaining(world, map[], world.profiles["agent"]) == 1;
  }

  lemma CheckAdds(limit: nat, k: nat, i: nat, draws: Draws)
    requires limit > 0
    ensures var db := Db(FreshProperties(k), map[], []);
            Next(OneLeft(limit), Race(db, Requests(0, i, draws)), Check(i, Assigning(i, draws))) ==
            Race(db, Requests(0, i + 1, draws))
  {
    GateOpens(limit, i, draws);
    assert Requests(0, i, draws)[i := Requested(i, draws)] == Requests(0, i + 1, draws);
  }

  lemma AllCheck(limit: nat, k: nat, draws: Draws) returns (moves: seq<Move>)
    requires limit > 0
    ensures var db := Db(FreshProperties(k), map[], []);
            && After(OneLeft(limit), db, moves) == Race(db, Requests(0, k, draws))
            && AtMost(OneLeft(limit), db, moves, "user", k)
  {
    var world, db := OneLeft(limit), Db(FreshProperties(k), map[], []);
    moves := [];
    FewInFlight(map[], "user", k);
    for i := 0 to k
      invariant After(world, db, moves) == Race(db, Requests(0, i, draws))
      invariant AtMost(world, db, moves, "user", k)
    {
      CheckAdds(limit, k, i, draws);
      AfterMore(world, db, moves, Check(i, Assigning(i, draws)), "user", k);
      moves := moves + [Check(i, Assigning(i, draws))];
      FewInFlight(Requests(0, i + 1, draws), "user", k);
    }
  }

  /** One of the pending transactions commits: its property is fresh. */
  lemma OneCommits(db: Db, k: nat, i: nat, draws: Draws)
    requires db.properties == FreshProperties(k) && i < k
    requires forall key :: key in db.rows ==> key.propertyId < i
    ensures var after := Run(db, Requested(i, draws));
            && after.properties == FreshProperties(k)
            && (forall key :: key in after.rows ==> key.propertyId < i + 1)
            && CountCurrent(after.rows, "user") == CountCurrent(db.rows, "user") + 1
  {
    var req := Requested(i, draws);
    assert |PropertyName(i)| == i;
    assert db.properties[PropertyName(i)] == Property(i, PropertyName(i), false);
    BodyCounts(db, db.properties[req.propertyUuid], req, "user");
  }

  /** The first i transactions have committed, the others are pending. */
  ghost predicate Committed(r: Race, i: nat, k: nat, draws: Draws) {
    && r.pending == Requests(i, k, draws)
    && r.db.properties == FreshProperties(k)
    && (forall key :: key in r.db.rows ==> key.propertyId < i)
    && CountCurrent(r.db.rows, "user") == i
  }

  lemma CommitNext(world: World, r: Race, i: nat, k: nat, draws: Draws)
    requires Committed(r, i, k, draws) && i < k
    ensures Committed(Next(world, r, Finish(i)), i + 1, k, draws)
    ensures |InFlight(Next(world, r, Finish(i)).pending, "user")| <= k
  {
    OneCommits(r.db, k, i, draws);
    assert r.pending - {i} == Requests(i + 1, k, draws);
    FewInFlight(Requests(i + 1, k, draws), "user", k);
  }

  /** For every limit and every k, k assignments that all pass the gate first end k - 1 above the limit. */
  lemma OvershootReached(limit: nat, k: nat, draws: Draws) returns (db: Db, moves: seq<Move>)
    requires limit > 0
    ensures UniqueUsers(OneLeft(limit)) && AtMost(OneLeft(limit), db, moves, "user", k)
    ensures Load(OneLeft(limit), db.rows, "user") == limit - 1
    ensures Load(OneLeft(limit), After(OneLeft(limit), db, moves).db.rows, "user") == limit + k - 1
  {
    var world := OneLeft(limit);
    db := Db(FreshProperties(k), map[], []);
    assert ActiveKeys(map[], "user") == {};
    moves := AllCheck(limit, k, draws);
    for i := 0 to k
      invariant AtMost(world, db, moves, "user", k) && Committed(After(world, db, moves), i, k, draws)
    {
      CommitNext(world, After(world, db, moves), i, k, draws);
      AfterMore(world, db, moves, Finish(i), "user", k);
      moves := moves + [Finish(i)];
    }
  }
}
