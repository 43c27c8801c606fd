/** One tick of the overdue sweep of `notificationJob.js`: every open loan
    whose book exists is classified by whole elapsed days, and a reminder or
    an overdue notice is inserted unless that loan already has one of that
    kind. Time is milliseconds since the epoch, injected as `now`. */
module Sweep {
  import opened Wrappers
  import opened Tables
  import Seqs
  import Text

  /** `1000 * 60 * 60 * 24`. */
  const DayMs: int := 86_400_000

  /** `Math.floor((now - borrowDate) / DayMs)`: Dafny's division by a positive
      divisor already rounds toward negative infinity. */
  function ElapsedDays(now: int, borrowDate: int): (r: int)
    ensures r * DayMs <= now - borrowDate < r * DayMs + DayMs
  {
    (now - borrowDate) / DayMs
  }

  /** The bucket of a loan that has been out for `days` whole days. */
  function Classify(days: int): (r: Option<NotificationKind>)
    ensures r.None? <==> days < 3
    ensures r == Some(Reminder) <==> 3 <= days < 5
    ensures r == Some(Overdue) <==> days >= 5
  {
    if days >= 3 && days < 5 then Some(Reminder)
    else if days >= 5 then Some(Overdue)
    else None
  }

  /** The day buckets in milliseconds: a reminder from exactly three days after
      the borrow, an overdue notice from exactly five; a borrow date in the
      future gives nothing. */
  lemma ClassifyInMilliseconds(now: int, borrowDate: int)
    ensures Classify(ElapsedDays(now, borrowDate)).None? <==> now - borrowDate < 3 * DayMs
    ensures Classify(ElapsedDays(now, borrowDate)) == Some(Overdue) <==> now - borrowDate >= 5 * DayMs
    ensures Classify(ElapsedDays(now, borrowDate)) == Some(Reminder) <==> 3 * DayMs <= now - borrowDate < 5 * DayMs
  {
    var d := ElapsedDays(now, borrowDate);
    if d >= 3 {
      assert 3 * DayMs <= d * DayMs;
    } else {
      assert d * DayMs + DayMs <= 3 * DayMs;
    }
    if d >= 5 {
      assert 5 * DayMs <= d * DayMs;
    } else {
      assert d * DayMs + DayMs <= 5 * DayMs;
    }
  }

  /** The message text each kind carries, naming the book. */
  function Message(kind: NotificationKind, title: string): string
    requires kind != Test
  {
    if kind == Reminder then "Reminder: Please return \"" + title + "\" before the 5-day limit."
    else "Overdue: You failed to return \"" + title + "\". A fine may apply."
  }

  lemma MessageNamesTitle(kind: NotificationKind, title: string)
    requires kind != Test
    ensures Text.Includes(Message(kind, title), title)
  {
    if kind == Reminder {
      Text.IncludesMiddle("Reminder: Please return \"", title, "\" before the 5-day limit.");
    } else {
      Text.IncludesMiddle("Overdue: You failed to return \"", title, "\". A fine may apply.");
    }
  }

  /** A row of the tick's query: an open loan joined with its book. */
  datatype DueRow = DueRow(borrowId: nat, userId: int, title: string, borrowDate: int)

  function DueJoin(books: seq<Book>, rec: BorrowRecord): (r: Option<DueRow>)
    ensures r.Some? <==> rec.status == Borrowed && FindBook(books, rec.bookId).Some?
    ensures r.Some? ==> r.value == DueRow(rec.id, rec.userId, FindBook(books, rec.bookId).value.title, rec.borrowDate)
  {
    if rec.status != Borrowed then None
    else match FindBook(books, rec.bookId)
      case None => None
      case Some(b) => Some(DueRow(rec.id, rec.userId, b.title, rec.borrowDate))
  }

  /** The tick's `SELECT ... JOIN books ... WHERE status = 'borrowed'`: only
      open loans whose book still exists. */
  function DueJoinOf(books: seq<Book>): BorrowRecord -> Option<DueRow> {
    (rec: BorrowRecord) => DueJoin(books, rec)
  }

  /** The records the tick looks at: open loans whose book exists. */
  function IsDue(books: seq<Book>): BorrowRecord -> bool {
    (rec: BorrowRecord) => rec.status == Borrowed && FindBook(books, rec.bookId).Some?
  }

  /** The tick's `SELECT ... JOIN books ... WHERE status = 'borrowed'`: only
      open loans whose book still exists, one row per such loan, in the
      records' order. */
  function DueRows(books: seq<Book>, records: seq<BorrowRecord>): (r: seq<DueRow>)
    ensures forall row :: row in r <==> exists rec :: rec in records && DueJoin(books, rec) == Some(row)
    ensures |r| == |Seqs.Filter(records, IsDue(books))|
    ensures forall row :: multiset(r)[row] == |Seqs.Filter(records, Seqs.MapsTo(DueJoinOf(books), row))|
  {
    Seqs.FilterMapCount(records, DueJoinOf(books));
    Seqs.FilterCongruent(records, Seqs.HasImage(DueJoinOf(books)), IsDue(books));
    Seqs.FilterMap(records, DueJoinOf(books))
  }

  /** `SELECT 1 FROM notifications WHERE borrow_id = ? AND type = ?` finds a row. */
  function HasNotice(rows: seq<Notification>, borrowId: nat, kind: NotificationKind): (r: bool)
    ensures r <==> exists i :: 0 <= i < |rows| && rows[i].borrowId == Some(borrowId) && rows[i].kind == kind
  {
    if rows == [] then false
    else
      var rest := HasNotice(rows[1..], borrowId, kind);
      assert forall i :: 1 <= i < |rows| ==> rows[i] == rows[1..][i - 1];
      (rows[0].borrowId == Some(borrowId) && rows[0].kind == kind) || rest
  }

  /** At most one notification per (borrow, kind). */
  ghost predicate UniqueNotices(rows: seq<Notification>) {
    forall i, j :: 0 <= i < j < |rows| && rows[i].borrowId.Some? ==>
      !(rows[j].borrowId == rows[i].borrowId && rows[j].kind == rows[i].kind)
  }

  /** The notification the tick would insert for a row of the given kind. */
  function Notice(id: nat, row: DueRow, kind: NotificationKind, now: int): Notification
    requires kind != Test
  {
    Notification(id, row.userId, Some(row.borrowId), kind, Message(kind, row.title), false, now)
  }

  /** The tick's work for one row: classify it, and insert its notice when
      that loan has none of that kind yet. */
  function SweepRow(t: NotificationTable, row: DueRow, now: int): (r: NotificationTable)
    ensures match Classify(ElapsedDays(now, row.borrowDate))
            case None => r == t
            case Some(kind) =>
              if HasNotice(t.rows, row.borrowId, kind) then r == t
              else r == NotificationTable(t.rows + [Notice(t.nextId, row, kind, now)], t.nextId + 1)
  {
    match Classify(ElapsedDays(now, row.borrowDate))
    case None => t
    case Some(kind) =>
      if HasNotice(t.rows, row.borrowId, kind) then t
      else NotificationTable(t.rows + [Notice(t.nextId, row, kind, now)], t.nextId + 1)
  }

  /** The whole tick: the rows in query order. */
  function Sweep(t: NotificationTable, rows: seq<DueRow>, now: int): NotificationTable
    decreases |rows|
  {
    if rows == [] then t
    else SweepRow(Sweep(t, rows[..|rows| - 1], now), rows[|rows| - 1], now)
  }

  /** The tick only appends: earlier notifications stay where they were. */
  lemma {:induction false} SweepExtends(t: NotificationTable, rows: seq<DueRow>, now: int)
    ensures |Sweep(t, rows, now).rows| >= |t.rows|
    ensures Sweep(t, rows, now).rows[..|t.rows|] == t.rows
    ensures Sweep(t, rows, now).nextId - t.nextId == |Sweep(t, rows, now).rows| - |t.rows|
    decreases |rows|
  {
    if rows != [] {
      SweepExtends(t, rows[..|rows| - 1], now);
      var mid := Sweep(t, rows[..|rows| - 1], now);
      assert (mid.rows + [Notice(mid.nextId, rows[|rows| - 1], Reminder, now)])[..|t.rows|] == t.rows;
      assert (mid.rows + [Notice(mid.nextId, rows[|rows| - 1], Overdue, now)])[..|t.rows|] == t.rows;
    }
  }

  /** A notice present before the tick is present after it. */
  lemma HasNoticeKept(t: NotificationTable, rows: seq<DueRow>, now: int, borrowId: nat, kind: NotificationKind)
    requires HasNotice(t.rows, borrowId, kind)
    ensures HasNotice(Sweep(t, rows, now).rows, borrowId, kind)
  {
    SweepExtends(t, rows, now);
    var i :| 0 <= i < |t.rows| && t.rows[i].borrowId == Some(borrowId) && t.rows[i].kind == kind;
    assert Sweep(t, rows, now).rows[i] == t.rows[i];
  }

  /** The key discipline survives one row. */
  lemma SweepRowKeepsIds(t: NotificationTable, row: DueRow, now: int)
    requires t.Valid()
    ensures SweepRow(t, row, now).Valid()
  {
    var r := SweepRow(t, row, now);
    if r != t {
      assert NotificationIds(r.rows) == NotificationIds(t.rows) + [t.nextId];
      AppendKeepsIdsValid(NotificationIds(t.rows), t.nextId);
    }
  }

  /** A tick keeps the notifications keyed. */
  lemma {:induction false} SweepKeepsIds(t: NotificationTable, rows: seq<DueRow>, now: int)
    requires t.Valid()
    ensures Sweep(t, rows, now).Valid()
    decreases |rows|
  {
    if rows != [] {
      SweepKeepsIds(t, rows[..|rows| - 1], now);
      SweepRowKeepsIds(Sweep(t, rows[..|rows| - 1], now), rows[|rows| - 1], now);
    }
  }

  /** The key discipline and the (borrow, kind) guard both survive one row. */
  lemma SweepRowKeepsInvariants(t: NotificationTable, row: DueRow, now: int)
    requires t.Valid() && UniqueNotices(t.rows)
    ensures SweepRow(t, row, now).Valid() && UniqueNotices(SweepRow(t, row, now).rows)
  {
    var r := SweepRow(t, row, now);
    if r != t {
      var kind := Classify(ElapsedDays(now, row.borrowDate)).value;
      assert NotificationIds(r.rows) == NotificationIds(t.rows) + [t.nextId];
      AppendKeepsIdsValid(NotificationIds(t.rows), t.nextId);
      forall i, j | 0 <= i < j < |r.rows| && r.rows[i].borrowId.Some?
        ensures !(r.rows[j].borrowId == r.rows[i].borrowId && r.rows[j].kind == r.rows[i].kind)
      {
        if j == |t.rows| {
          assert r.rows[i] == t.rows[i];
        } else {
          assert r.rows[i] == t.rows[i] && r.rows[j] == t.rows[j];
        }
      }
    }
  }

  /** A tick keeps the notifications keyed and at most one per (borrow, kind). */
  lemma {:induction false} SweepKeepsInvariants(t: NotificationTable, rows: seq<DueRow>, now: int)
    requires t.Valid() && UniqueNotices(t.rows)
    ensures Sweep(t, rows, now).Valid() && UniqueNotices(Sweep(t, rows, now).rows)
    decreases |rows|
  {
    if rows != [] {
      SweepKeepsInvariants(t, rows[..|rows| - 1], now);
      SweepRowKeepsInvariants(Sweep(t, rows[..|rows| - 1], now), rows[|rows| - 1], now);
    }
  }

  /** After a tick, every classified row has its notice. */
  lemma {:induction false} SweepCovers(t: NotificationTable, rows: seq<DueRow>, now: int, k: int)
    requires 0 <= k < |rows| && Classify(ElapsedDays(now, rows[k].borrowDate)).Some?
    ensures HasNotice(Sweep(t, rows, now).rows, rows[k].borrowId, Classify(ElapsedDays(now, rows[k].borrowDate)).value)
    decreases |rows|
  {
    var kind := Classify(ElapsedDays(now, rows[k].borrowDate)).value;
    var init := rows[..|rows| - 1];
    var mid := Sweep(t, init, now);
    var last := rows[|rows| - 1];
    if k < |rows| - 1 {
      assert init[k] == rows[k];
      SweepCovers(t, init, now, k);
      HasNoticeKept(mid, [last], now, rows[k].borrowId, kind);
      assert [last][..0] == [];
      assert Sweep(mid, [last], now) == SweepRow(mid, last, now);
    } else {
      var r := SweepRow(mid, last, now);
      if !HasNotice(mid.rows, last.borrowId, kind) {
        assert r.rows[|mid.rows|].borrowId == Some(last.borrowId);
      }
    }
  }

  /** A tick over rows that already all have their notices changes nothing. */
  lemma {:induction false} SweepCoveredIsIdentity(t: NotificationTable, rows: seq<DueRow>, now: int)
    requires forall k :: 0 <= k < |rows| && Classify(ElapsedDays(now, rows[k].borrowDate)).Some? ==>
               HasNotice(t.rows, rows[k].borrowId, Classify(ElapsedDays(now, rows[k].borrowDate)).value)
    ensures Sweep(t, rows, now) == t
    decreases |rows|
  {
    if rows != [] {
      var init := rows[..|rows| - 1];
      forall k | 0 <= k < |init| && Classify(ElapsedDays(now, init[k].borrowDate)).Some?
        ensures HasNotice(t.rows, init[k].borrowId, Classify(ElapsedDays(now, init[k].borrowDate)).value)
      {
        assert init[k] == rows[k];
      }
      SweepCoveredIsIdentity(t, init, now);
    }
  }

  /** Running the tick twice with the same `now` and rows changes nothing the
      second time. */
  lemma SweepIdempotent(t: NotificationTable, rows: seq<DueRow>, now: int)
    ensures Sweep(Sweep(t, rows, now), rows, now) == Sweep(t, rows, now)
  {
    var once := Sweep(t, rows, now);
    forall k | 0 <= k < |rows| && Classify(ElapsedDays(now, rows[k].borrowDate)).Some?
      ensures HasNotice(once.rows, rows[k].borrowId, Classify(ElapsedDays(now, rows[k].borrowDate)).value)
    {
      SweepCovers(t, rows, now, k);
    }
    SweepCoveredIsIdentity(once, rows, now);
  }

  /** A loan seen once in the reminder bucket and later in the overdue bucket
      ends up with both a reminder and an overdue notice. */
  lemma ReminderThenOverdue(t: NotificationTable, rows1: seq<DueRow>, now1: int,
                            rows2: seq<DueRow>, now2: int, k1: int, k2: int)
    requires 0 <= k1 < |rows1| && 0 <= k2 < |rows2| && rows1[k1].borrowId == rows2[k2].borrowId
    requires 3 <= ElapsedDays(now1, rows1[k1].borrowDate) < 5
    requires ElapsedDays(now2, rows2[k2].borrowDate) >= 5
    ensures var after := Sweep(Sweep(t, rows1, now1), rows2, now2);
            HasNotice(after.rows, rows1[k1].borrowId, Reminder) && HasNotice(after.rows, rows1[k1].borrowId, Overdue)
  {
    SweepCovers(t, rows1, now1, k1);
    HasNoticeKept(Sweep(t, rows1, now1), rows2, now2, rows1[k1].borrowId, Reminder);
    SweepCovers(Sweep(t, rows1, now1), rows2, now2, k2);
  }

  /** Every notification a tick adds is the notice of one of its rows, in the
      row's bucket, for the row's user and loan, with a message naming the
      book; the first one added takes the next id. */
  ghost predicate AddedBy(n: Notification, rows: seq<DueRow>, now: int) {
    exists k :: 0 <= k < |rows| && Classify(ElapsedDays(now, rows[k].borrowDate)).Some? &&
      n == Notice(n.id, rows[k], Classify(ElapsedDays(now, rows[k].borrowDate)).value, now)
  }

  lemma {:induction false} SweepAddsOnlyNotices(t: NotificationTable, rows: seq<DueRow>, now: int)
    ensures forall i :: |t.rows| <= i < |Sweep(t, rows, now).rows| ==> AddedBy(Sweep(t, rows, now).rows[i], rows, now)
    decreases |rows|
  {
    if rows != [] {
      var init := rows[..|rows| - 1];
      var last := rows[|rows| - 1];
      SweepAddsOnlyNotices(t, init, now);
      SweepExtends(t, init, now);
      var mid := Sweep(t, init, now);
      var r := SweepRow(mid, last, now);
      forall i | |t.rows| <= i < |r.rows|
        ensures AddedBy(r.rows[i], rows, now)
      {
        if i < |mid.rows| {
          assert r.rows[i] == mid.rows[i];
          var k :| 0 <= k < |init| && Classify(ElapsedDays(now, init[k].borrowDate)).Some? &&
            mid.rows[i] == Notice(mid.rows[i].id, init[k], Classify(ElapsedDays(now, init[k].borrowDate)).value, now);
          assert init[k] == rows[k];
        } else {
          assert r.rows[i] == Notice(mid.nextId, last, Classify(ElapsedDays(now, last.borrowDate)).value, now);
        }
      }
    }
  }

  /** A loan first seen at five days or more gets only an overdue notice: when
      the tick's rows for that loan are all in the overdue bucket and no
      reminder exists yet, none is added. */
  lemma OverdueFirstGetsNoReminder(t: NotificationTable, rows: seq<DueRow>, now: int, borrowId: nat)
    requires !HasNotice(t.rows, borrowId, Reminder)
    requires forall k :: 0 <= k < |rows| && rows[k].borrowId == borrowId ==> ElapsedDays(now, rows[k].borrowDate) >= 5
    ensures !HasNotice(Sweep(t, rows, now).rows, borrowId, Reminder)
  {
    var after := Sweep(t, rows, now);
    SweepExtends(t, rows, now);
    SweepAddsOnlyNotices(t, rows, now);
    forall i | 0 <= i < |after.rows|
      ensures !(after.rows[i].borrowId == Some(borrowId) && after.rows[i].kind == Reminder)
    {
      if i < |t.rows| {
        assert after.rows[i] == t.rows[i];
      } else {
        assert AddedBy(after.rows[i], rows, now);
      }
    }
  }

  /** The scheduled callback's body: the query, then one guarded insert per row. */
  method RunTick(db: Db, now: int)
    requires db.Valid()
    modifies db`notifications
    ensures db.notifications == Sweep(old(db.notifications), DueRows(db.books.rows, db.records.rows), now)
    ensures db.Valid()
  {
    var rows := DueRows(db.books.rows, db.records.rows);
    var i := 0;
    while i < |rows|
      invariant 0 <= i <= |rows|
      invariant db.notifications == Sweep(old(db.notifications), rows[..i], now)
    {
      var row := rows[i];
      var diffDays := (now - row.borrowDate) / DayMs;
      var kind: Option<NotificationKind> := None;
      if diffDays >= 3 && diffDays < 5 {
        kind := Some(Reminder);
      } else if diffDays >= 5 {
        kind := Some(Overdue);
      }
      if kind.Some? {
        var message := Message(kind.value, row.title);
        if !HasNotice(db.notifications.rows, row.borrowId, kind.value) {
          var n := Notification(db.notifications.nextId, row.userId, Some(row.borrowId), kind.value, message, false, now);
          db.notifications := NotificationTable(db.notifications.rows + [n], db.notifications.nextId + 1);
        }
      }
      assert rows[..i + 1][..i] == rows[..i];
      i := i + 1;
    }
    SweepKeepsIds(old(db.notifications), rows, now);
    assert rows[..i] == rows;
  }
}
