/** The notification store's handlers: the per-user listing and mark-read of
    `notificationController.js`, and the administrator's test notification
    of `routes/admin.js`. */
module Inbox {
  import opened Wrappers
  import opened Tables
  import Seqs
  import Sweep

  function CreatedAt(n: Notification): int { n.createdAt }

  function ForUser(userId: int): Notification -> bool { (n: Notification) => n.userId == userId }

  /** `SELECT * FROM notifications WHERE user_id = ? ORDER BY created_at DESC`. */
  function UserNotifications(rows: seq<Notification>, userId: int): (r: seq<Notification>)
    ensures forall n :: n in r <==> n in rows && n.userId == userId
    ensures forall i, j :: 0 <= i < j < |r| ==> r[i].createdAt >= r[j].createdAt
    ensures |r| <= |rows|
    ensures forall n :: multiset(r)[n] == if n.userId == userId then multiset(rows)[n] else 0
  {
    var mine := Seqs.Filter(rows, ForUser(userId));
    var r := Seqs.SortDesc(mine, CreatedAt);
    Seqs.SameElements(r, mine);
    Seqs.FilterMultiset(rows, ForUser(userId));
    r
  }

  /** `UPDATE notifications SET is_read = 1 WHERE id = ?`. */
  function MarkAsRead(t: NotificationTable, id: int): (r: NotificationTable)
    ensures r.nextId == t.nextId && |r.rows| == |t.rows|
    ensures forall i :: 0 <= i < |t.rows| ==>
              r.rows[i] == if t.rows[i].id == id then t.rows[i].(isRead := true) else t.rows[i]
  {
    t.(rows := MarkRows(t.rows, id))
  }

  function MarkRows(rows: seq<Notification>, id: int): (r: seq<Notification>)
    ensures |r| == |rows|
    ensures forall i :: 0 <= i < |rows| ==> r[i] == if rows[i].id == id then rows[i].(isRead := true) else rows[i]
  {
    if rows == [] then []
    else
      var n := rows[0];
      [if n.id == id then n.(isRead := true) else n] + MarkRows(rows[1..], id)
  }

  /** Marking the same notification twice is the same as marking it once. */
  lemma MarkAsReadIdempotent(t: NotificationTable, id: int)
    ensures MarkAsRead(MarkAsRead(t, id), id) == MarkAsRead(t, id)
  {
    var once := MarkAsRead(t, id);
    var twice := MarkAsRead(once, id);
    forall i | 0 <= i < |t.rows|
      ensures twice.rows[i] == once.rows[i]
    {
      assert once.rows[i].id == t.rows[i].id;
    }
  }

  /** Marking an id no notification has reports success and changes nothing. */
  lemma MarkUnknownIsNoop(t: NotificationTable, id: int)
    requires forall n :: n in t.rows ==> n.id != id
    ensures MarkAsRead(t, id) == t
  {
    var r := MarkAsRead(t, id);
    forall i | 0 <= i < |t.rows|
      ensures r.rows[i] == t.rows[i]
    {
      assert t.rows[i] in t.rows;
    }
  }

  /** Marking keeps the table keyed and the sweep's (borrow, kind) guard intact:
      every notice the sweep looks for is still there, and no other appears. */
  lemma MarkAsReadKeepsInvariants(t: NotificationTable, id: int)
    ensures t.Valid() ==> MarkAsRead(t, id).Valid()
    ensures Sweep.UniqueNotices(t.rows) ==> Sweep.UniqueNotices(MarkAsRead(t, id).rows)
    ensures forall b: nat, k :: Sweep.HasNotice(MarkAsRead(t, id).rows, b, k) <==> Sweep.HasNotice(t.rows, b, k)
  {
    var r := MarkAsRead(t, id);
    assert NotificationIds(r.rows) == NotificationIds(t.rows);
    assert forall i :: 0 <= i < |t.rows| ==> r.rows[i].borrowId == t.rows[i].borrowId && r.rows[i].kind == t.rows[i].kind;
  }

  /** `message || "This is a test notification"`. */
  function TestMessage(message: Option<string>): (r: string)
    ensures message.None? || message == Some("") ==> r == "This is a test notification"
    ensures message.Some? && message.value != "" ==> r == message.value
    ensures r != ""
  {
    if message.Some? && message.value != "" then message.value else "This is a test notification"
  }

  /** `INSERT INTO notifications (user_id, type, message, is_read) VALUES
      (?, 'test', ?, 0)`, answering the fresh id. */
  function SendTest(t: NotificationTable, userId: int, message: Option<string>, now: int): (r: (NotificationTable, nat))
    ensures r.1 == t.nextId && r.0.nextId == t.nextId + 1
    ensures r.0.rows == t.rows + [Notification(t.nextId, userId, None, Test, TestMessage(message), false, now)]
  {
    var n := Notification(t.nextId, userId, None, Test, TestMessage(message), false, now);
    (NotificationTable(t.rows + [n], t.nextId + 1), t.nextId)
  }

  /** The test notification keeps the table keyed, can be found under the
      answered id, and never collides with the sweep's guard: it has no loan,
      so the notices the sweep looks for are exactly those that were there. */
  lemma SendTestEffect(t: NotificationTable, userId: int, message: Option<string>, now: int)
    requires t.Valid()
    ensures var (t2, id) := SendTest(t, userId, message, now);
            && t2.Valid()
            && (forall n :: n in t2.rows && n.id == id <==> n == t2.rows[|t.rows|])
            && (Sweep.UniqueNotices(t.rows) ==> Sweep.UniqueNotices(t2.rows))
            && (forall b: nat, k :: Sweep.HasNotice(t2.rows, b, k) <==> Sweep.HasNotice(t.rows, b, k))
  {
    var (t2, id) := SendTest(t, userId, message, now);
    var n := t2.rows[|t.rows|];
    assert t2.rows == t.rows + [n];
    assert NotificationIds(t2.rows) == NotificationIds(t.rows) + [t.nextId];
    AppendKeepsIdsValid(NotificationIds(t.rows), t.nextId);
    OnlyNewRowHasNextId(t.rows, n, t.nextId);
    LoanlessKeepsNotices(t.rows, n);
  }

  /** In a keyed table, the row appended under the next id is the only one
      carrying it. */
  lemma OnlyNewRowHasNextId(rows: seq<Notification>, n: Notification, nextId: nat)
    requires IdsValid(NotificationIds(rows), nextId) && n.id == nextId
    ensures forall m :: m in rows + [n] && m.id == nextId <==> m == n
  {
    forall m | m in rows
      ensures m.id < nextId
    {
      var i :| 0 <= i < |rows| && rows[i] == m;
      assert NotificationIds(rows)[i] == m.id;
    }
  }

  /** Appending a notice that has no loan changes nothing the sweep looks for. */
  lemma LoanlessKeepsNotices(rows: seq<Notification>, n: Notification)
    requires n.borrowId.None?
    ensures Sweep.UniqueNotices(rows) ==> Sweep.UniqueNotices(rows + [n])
    ensures forall b: nat, k :: Sweep.HasNotice(rows + [n], b, k) <==> Sweep.HasNotice(rows, b, k)
  {
    var r := rows + [n];
    forall b: nat, k
      ensures Sweep.HasNotice(r, b, k) <==> Sweep.HasNotice(rows, b, k)
    {
      if Sweep.HasNotice(rows, b, k) {
        var i :| 0 <= i < |rows| && rows[i].borrowId == Some(b) && rows[i].kind == k;
        assert r[i] == rows[i];
      }
    }
  }

  /** The handlers. */
  method MarkNotificationRead(db: Db, id: int)
    requires db.Valid()
    modifies db`notifications
    ensures db.notifications == MarkAsRead(old(db.notifications), id)
    ensures db.Valid()
  {
    MarkAsReadKeepsInvariants(db.notifications, id);
    db.notifications := db.notifications.(rows := MarkRows(db.notifications.rows, id));
  }

  method SendTestNotification(db: Db, userId: int, message: Option<string>, now: int) returns (id: nat)
    requires db.Valid()
    modifies db`notifications
    ensures (db.notifications, id) == SendTest(old(db.notifications), userId, message, now)
    ensures db.Valid()
  {
    SendTestEffect(db.notifications, userId, message, now);
    var text := TestMessage(message);
    id := db.notifications.nextId;
    var n := Notification(id, userId, None, Test, text, false, now);
    db.notifications := NotificationTable(db.notifications.rows + [n], db.notifications.nextId + 1);
  }
}
