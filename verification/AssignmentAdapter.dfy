/**
 The adapter as an object over its tables: each method works step by step, as one
 database transaction that nobody else interrupts, and puts the tables back when it throws.
 */
module AssignmentAdapter {
  import opened Wrappers
  import opened AssignmentTable

  class Adapter {
    var properties: map<string, Property>
    var rows: map<Key, Row>
    var history: seq<Entry>

    ghost function Contents(): Db
      reads this
    {
      Db(properties, rows, history)
    }

    constructor (properties: map<string, Property>)
      ensures Contents() == Db(properties, map[], [])
    {
      this.properties := properties;
      rows := map[];
      history := [];
    }

    method Assign(propertyUuid: string, agent: string, displayName: string, actor: string, draws: Draws)
      returns (reply: Result<Row, Error>)
      modifies this`rows, this`history
      ensures var req := Request.Assign(propertyUuid, agent, displayName, actor, draws);
              && Contents() == Run(old(Contents()), req)
              && reply == Reply(Outcome(old(Contents()), req))
    {
      if propertyUuid !in properties || properties[propertyUuid].deleted {
        return Err(PropertyNotFound);
      }
      var property := properties[propertyUuid];
      var k := Key(property.id, agent);
      var assignment;
      if k in rows {
        var current := rows[k];
        if current.unassignedAt.None? {
          return Err(AlreadyAssigned);
        }
        assignment := current.(
          displayName := displayName, assignedAt := draws.now, unassignedAt := None,
          createdBy := if current.createdBy.Some? then current.createdBy else Some(actor),
          updatedBy := Some(actor), isPrimary := true);
      } else {
        assignment := Row(draws.rowUuid, displayName, true, draws.now, None, Some(actor), None);
      }
      rows := rows[k := assignment];
      history := history + [Entry(draws.entryUuid, property.id, property.uuid, agent, actor, ASSIGN)];
      ghost var req := Request.Assign(propertyUuid, agent, displayName, actor, draws);
      AppliesTo(old(rows), old(history), property, req);
      return Ok(assignment);
    }

    method Unassign(propertyUuid: string, agent: string, actor: string, draws: Draws)
      returns (reply: Result<Row, Error>)
      modifies this`rows, this`history
      ensures var req := Request.Unassign(propertyUuid, agent, actor, draws);
              && Contents() == Run(old(Contents()), req)
              && reply == Reply(Outcome(old(Contents()), req))
    {
      if propertyUuid !in properties || properties[propertyUuid].deleted {
        return Err(PropertyNotFound);
      }
      var property := properties[propertyUuid];
      var k := Key(property.id, agent);
      if k !in rows || rows[k].unassignedAt.Some? {
        return Err(NoActiveAssignment);
      }
      var assignment := rows[k].(unassignedAt := Some(draws.now), updatedBy := Some(actor), isPrimary := false);
      rows := rows[k := assignment];
      history := history + [Entry(draws.entryUuid, property.id, property.uuid, agent, actor, UNASSIGN)];
      ghost var req := Request.Unassign(propertyUuid, agent, actor, draws);
      AppliesTo(old(rows), old(history), property, req);
      return Ok(assignment);
    }

    method Reassign(propertyUuid: string, from: Option<string>, agent: string, displayName: string,
                    actor: string, draws: Draws)
      returns (reply: Result<Row, Error>)
      modifies this`rows, this`history
      ensures var req := Request.Reassign(propertyUuid, from, agent, displayName, actor, draws);
              && Contents() == Run(old(Contents()), req)
              && reply == Reply(Outcome(old(Contents()), req))
    {
      if propertyUuid !in properties || properties[propertyUuid].deleted {
        return Err(PropertyNotFound);
      }
      var property := properties[propertyUuid];
      var savedRows, savedHistory := rows, history;

      if from.Some? && from.value != "" && from.value != agent {
        var source := Key(property.id, from.value);
        if source in rows && rows[source].unassignedAt.None? {
          rows := rows[source := rows[source].(
            unassignedAt := Some(draws.fromNow), isPrimary := false, updatedBy := Some(actor))];
          history := history + [Entry(draws.fromEntryUuid, property.id, property.uuid, from.value, actor, UNASSIGN)];
        }
      }

      var k := Key(property.id, agent);
      var assignment;
      if k in rows {
        if rows[k].unassignedAt.None? {
          rows, history := savedRows, savedHistory;  // the transaction rolls back
          return Err(TargetAlreadyAssigned);
        }
        assignment := rows[k].(
          displayName := displayName, assignedAt := draws.now, unassignedAt := None,
          isPrimary := true, updatedBy := Some(actor));
      } else {
        assignment := Row(draws.rowUuid, displayName, true, draws.now, None, Some(actor), None);
      }
      rows := rows[k := assignment];
      history := history + [Entry(draws.entryUuid, property.id, property.uuid, agent, actor, REASSIGN)];
      ghost var req := Request.Reassign(propertyUuid, from, agent, displayName, actor, draws);
      AppliesTo(old(rows), old(history), property, req);
      return Ok(assignment);
    }
  }

  /** The effects of a successful body, spelled as successive table updates. */
  lemma AppliesTo(rows: map<Key, Row>, history: seq<Entry>, prop: Property, req: Request)
    requires Body(rows, prop, req).Ok?
    ensures var e := Body(rows, prop, req).value;
            var moved := MovesFrom(req) && Active(rows, Source(prop, req));
            && rows + e.writes ==
               (if moved then rows[Source(prop, req) := Closed(rows[Source(prop, req)], req.draws.fromNow, req.actor)]
                else rows)[Target(prop, req) := e.row]
            && history + e.logs ==
               (if moved then history + [SourceEntry(prop, req)] else history) + [TargetEntry(prop, req)]
  {
  }
}
