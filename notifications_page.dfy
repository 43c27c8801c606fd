/** The user's notification list `NotificationsPage.jsx`: the local update
    after a mark-read, the pagination and which controls are shown. */
module NotificationsPage {
  import opened Tables
  import Seqs
  import Paging
  import Inbox

  const NotificationsPerPage: nat := 10

  /** `n.id === id ? { ...n, is_read: true } : n`. */
  function Marked(id: int): Notification -> Notification {
    (n: Notification) => if n.id == id then n.(isRead := true) else n
  }

  /** `prev.map(...)`: the page's own copy of the list after marking `id` read. */
  function MarkRead(ns: seq<Notification>, id: int): (r: seq<Notification>)
    ensures |r| == |ns|
    ensures forall i :: 0 <= i < |ns| ==> r[i].isRead == (ns[i].isRead || ns[i].id == id)
    ensures forall i :: 0 <= i < |ns| ==> r[i] == ns[i].(isRead := r[i].isRead)
  {
    Seqs.Map(Marked(id), ns)
  }

  /** The page updates its copy exactly as the server updates its table. */
  lemma MarkReadIsServerMark(ns: seq<Notification>, id: int)
    ensures MarkRead(ns, id) == Inbox.MarkRows(ns, id)
  {
  }

  /** Marking the same notification twice is marking it once. */
  lemma MarkReadIdempotent(ns: seq<Notification>, id: int)
    ensures MarkRead(MarkRead(ns, id), id) == MarkRead(ns, id)
  {
  }

  /** After the server marks a notification read, the page's updated copy of
      the user's list is what fetching the list again would answer. */
  lemma MarkReadMatchesRefetch(t: NotificationTable, userId: int, id: int)
    ensures MarkRead(Inbox.UserNotifications(t.rows, userId), id)
            == Inbox.UserNotifications(Inbox.MarkAsRead(t, id).rows, userId)
  {
    var f := Marked(id);
    var mine := Seqs.Filter(t.rows, Inbox.ForUser(userId));
    assert Inbox.MarkAsRead(t, id).rows == Seqs.Map(f, t.rows);
    Seqs.FilterMapCommute(t.rows, f, Inbox.ForUser(userId));
    Seqs.SortMapCommute(mine, f, Inbox.CreatedAt);
  }

  /** `currentPage`'s slice of the list. */
  function CurrentNotifications(ns: seq<Notification>, page: int): seq<Notification> {
    Paging.PageOf(ns, page, NotificationsPerPage)
  }

  /** `Math.ceil(notifications.length / notificationsPerPage)`. */
  function TotalPages(ns: seq<Notification>): nat {
    Paging.CeilDiv(|ns|, NotificationsPerPage)
  }

  /** `totalPages > 1 && <pager>`. */
  predicate ShowsPager(ns: seq<Notification>) {
    TotalPages(ns) > 1
  }

  /** A page holds at most ten notifications, the numbered pages together
      hold the whole list, and the pager appears exactly when the list does
      not fit on one page. */
  lemma PagesShowAll(ns: seq<Notification>, page: int)
    requires page >= 1
    ensures |CurrentNotifications(ns, page)| <= NotificationsPerPage
    ensures Paging.Pages(ns, NotificationsPerPage, TotalPages(ns)) == ns
    ensures ShowsPager(ns) <==> |ns| > NotificationsPerPage
  {
    Paging.PageContents(ns, page, NotificationsPerPage);
    Paging.PagesCoverAll(ns, NotificationsPerPage, TotalPages(ns));
  }

  /** `!n.is_read && <button onClick={() => markRead(n.id)}>`. */
  predicate OffersMarkRead(n: Notification) {
    !n.isRead
  }

  /** Once a notification is marked, no entry with its id offers the action
      any more, and every other entry offers it exactly as before. */
  lemma MarkReadRemovesAction(ns: seq<Notification>, id: int)
    ensures forall i :: 0 <= i < |ns| ==>
              (OffersMarkRead(MarkRead(ns, id)[i]) <==> OffersMarkRead(ns[i]) && ns[i].id != id)
  {
  }
}
