/**
 Marking all of a user's notifications as read, a page at a time, with nobody else writing.
 */
module Notifications {

  datatype Status = Unread | Read | Other

  datatype Notification = Notification(uuid: string, user: string, status: Status)

  const PAGE: nat := 100
  const MAX_PAGES: nat := 100

  /** The unread notifications of a user, newest first like the table given. */
  function UnreadOf(rows: seq<Notification>, user: string): seq<string> {
    if rows == [] then []
    else
      (if rows[0].user == user && rows[0].status.Unread? then [rows[0].uuid] else []) + UnreadOf(rows[1..], user)
  }

  function Take(uuids: seq<string>, count: nat): seq<string> {
    if |uuids| <= count then uuids else uuids[..count]
  }

  predicate Is(n: Notification, uuid: string, user: string) {
    n.uuid == uuid && n.user == user
  }

  function FindRow(rows: seq<Notification>, uuid: string, user: string): (at: nat)
    ensures at <= |rows|
    ensures at < |rows| ==> Is(rows[at], uuid, user)
    ensures forall i :: 0 <= i < at ==> !Is(rows[i], uuid, user)
  {
    if rows == [] || (rows[0].uuid == uuid && rows[0].user == user) then 0 else 1 + FindRow(rows[1..], uuid, user)
  }

  ghost predicate DistinctUuids(rows: seq<Notification>) {
    forall i, j :: 0 <= i < j < |rows| ==> rows[i].uuid != rows[j].uuid
  }

  /** Nothing but the user's own unread notifications changes, and those only to read. */
  ghost predicate OnlyRead(before: seq<Notification>, after: seq<Notification>, user: string) {
    && |after| == |before|
    && forall i :: 0 <= i < |before| ==>
         after[i] == before[i] || (before[i].user == user && before[i].status.Unread?
                                   && after[i] == before[i].(status := Read))
  }

  /** The user's notification with this uuid is read if it was unread; every other row is as it was. */
  ghost predicate ReadsJust(before: seq<Notification>, after: seq<Notification>, uuid: string, user: string) {
    && |after| == |before|
    && forall i :: 0 <= i < |before| ==>
         after[i] == if Is(before[i], uuid, user)
             && before[i].status.Unread? then before[i].(status := Read) else before[i]
  }

  class Store {
    /** Newest first. */
    var rows: seq<Notification>

    constructor (rows: seq<Notification>)
      ensures this.rows == rows
    {
      this.rows := rows;
    }

    /** The first page of unread notifications. */
    method ListUnread(user: string, limit: nat) returns (uuids: seq<string>)
      ensures uuids <= UnreadOf(rows, user)
      ensures |uuids| == if |UnreadOf(rows, user)| <= limit then |UnreadOf(rows, user)| else limit
    {
      uuids := Take(UnreadOf(rows, user), limit);
    }

    /** The user's own notification, if unread, is read afterwards; found is false when there is none. */
    method MarkRead(uuid: string, user: string) returns (found: bool)
      requires DistinctUuids(rows)
      modifies this
      ensures found <==> exists i :: 0 <= i < |old(rows)| && Is(old(rows)[i], uuid, user)
      ensures ReadsJust(old(rows), rows, uuid, user)
      ensures DistinctUuids(rows) && OnlyRead(old(rows), rows, user)
      ensures forall i :: 0 <= i < |rows| && Is(rows[i], uuid, user) ==> !rows[i].status.Unread?
    {
      var i := FindRow(rows, uuid, user);
      if i == |rows| {
        return false;
      }
      if !rows[i].status.Read? {
        if rows[i].status.Unread? {
          rows := rows[i := rows[i].(status := Read)];
        }
      }
      return true;
    }

    /** At most 100 pages of 100: the first min(n, 10000) unread notifications become read. */
    method MarkAllRead(user: string) returns (updated: nat)
      requires DistinctUuids(rows)
      modifies this
      ensures var n := |old(UnreadOf(rows, user))|;
              updated == if n < PAGE * MAX_PAGES then n else PAGE * MAX_PAGES
      ensures UnreadOf(rows, user) == old(UnreadOf(rows, user))[updated..]
      ensures OnlyRead(old(rows), rows, user)
    {
      updated := 0;
      ghost var all := UnreadOf(rows, user);
      for iteration := 0 to MAX_PAGES
        invariant DistinctUuids(rows) && OnlyRead(old(rows), rows, user)
        invariant updated == PAGE * iteration <= |all|
        invariant UnreadOf(rows, user) == all[updated..]
      {
        var items := ListUnread(user, PAGE);
        if |items| == 0 {
          break;
        }
        ghost var start := updated;
        for i := 0 to |items|
          invariant DistinctUuids(rows) && OnlyRead(old(rows), rows, user)
          invariant updated == start + i <= |all|
          invariant UnreadOf(rows, user) == all[updated..]
        {
          assert items[i] == all[updated];
          assert all[updated..][1..] == all[updated + 1..];
          ghost var before := rows;
          var found := MarkRead(items[i], user);
          MarkFirst(before, rows, user);
          if found {
            updated := updated + 1;
          }
        }
        if |items| < PAGE {
          break;
        }
      }
    }
  }

  lemma {:induction false} UnreadMember(rows: seq<Notification>, user: string)
    requires UnreadOf(rows, user) != []
    ensures exists i :: 0 <= i < |rows| && rows[i].uuid == UnreadOf(rows, user)[0]
                        && rows[i].user == user && rows[i].status.Unread?
  {
    if !(rows[0].user == user && rows[0].status.Unread?) {
      UnreadMember(rows[1..], user);
      var i :| 0 <= i < |rows[1..]| && rows[1..][i].uuid == UnreadOf(rows[1..], user)[0]
               && rows[1..][i].user == user && rows[1..][i].status.Unread?;
      assert rows[i + 1] == rows[1..][i];
    }
  }

  lemma FirstRowIsAnother(rows: seq<Notification>, user: string)
    requires DistinctUuids(rows) && UnreadOf(rows, user) != [] && !(rows[0].user == user && rows[0].status.Unread?)
    ensures rows[0].uuid != UnreadOf(rows, user)[0]
  {
    UnreadMember(rows[1..], user);
    var i :| 0 <= i < |rows[1..]| && rows[1..][i].uuid == UnreadOf(rows[1..], user)[0]
             && rows[1..][i].user == user && rows[1..][i].status.Unread?;
    assert rows[i + 1] == rows[1..][i];
  }

  /** Marking the first unread notification takes exactly it from the unread ones. */
  lemma {:induction false} MarkFirst(before: seq<Notification>, after: seq<Notification>, user: string)
    requires DistinctUuids(before) && UnreadOf(before, user) != []
    requires ReadsJust(before, after, UnreadOf(before, user)[0], user)
    ensures exists i :: 0 <= i < |before| && Is(before[i], UnreadOf(before, user)[0], user)
    ensures UnreadOf(after, user) == UnreadOf(before, user)[1..]
  {
    if before[0].user == user && before[0].status.Unread? {
      assert after[1..] == before[1..];
      assert Is(before[0], UnreadOf(before, user)[0], user);
    } else {
      FirstRowIsAnother(before, user);
      MarkFirst(before[1..], after[1..], user);
      var i :| 0 <= i < |before[1..]| && Is(before[1..][i], UnreadOf(before[1..], user)[0], user);
      assert before[i + 1] == before[1..][i];
    }
  }

  /** The unread notifications of a list are those of its parts, each row by itself. */
  lemma {:induction false} UnreadJoin(rows: seq<Notification>, more: seq<Notification>, row: Notification, user: string)
    ensures UnreadOf(rows + more, user) == UnreadOf(rows, user) + UnreadOf(more, user)
    ensures UnreadOf([row], user) == if row.user == user && row.status == Unread then [row.uuid] else []
  {
    assert [row][1..] == [];
    if rows == [] {
      assert rows + more == more;
    } else {
      assert (rows + more)[0] == rows[0] && (rows + more)[1..] == rows[1..] + more;
      UnreadJoin(rows[1..], more, row, user);
    }
  }
}
