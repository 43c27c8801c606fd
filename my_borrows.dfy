/** A user's loan list `MyBorrows.jsx`: its pagination and the rule for
    offering the return action. */
module MyBorrows {
  import opened Wrappers
  import opened Tables
  import Lending
  import Paging

  type Row = Lending.UserBorrowRow

  const BorrowsPerPage: nat := 10

  /** `borrows.slice(indexOfFirstBorrow, indexOfLastBorrow)`. */
  function CurrentBorrows(borrows: seq<Row>, page: int): seq<Row> {
    Paging.PageOf(borrows, page, BorrowsPerPage)
  }

  /** `Math.ceil(borrows.length / borrowsPerPage)`. */
  function TotalPages(borrows: seq<Row>): nat {
    Paging.CeilDiv(|borrows|, BorrowsPerPage)
  }

  /** A page holds at most ten loans, and the numbered pages together hold
      every loan, in order. */
  lemma PagesShowAll(borrows: seq<Row>, page: int)
    requires page >= 1
    ensures |CurrentBorrows(borrows, page)| <= BorrowsPerPage
    ensures Paging.Pages(borrows, BorrowsPerPage, TotalPages(borrows)) == borrows
  {
    Paging.PageContents(borrows, page, BorrowsPerPage);
    Paging.PagesCoverAll(borrows, BorrowsPerPage, TotalPages(borrows));
  }

  /** `b.status === "borrowed" && <button onClick={() => handleReturn(b.book_id)}>`:
      the book a row's Return button sends back, if the row offers one. */
  function ReturnAction(row: Row): (r: Option<nat>)
    ensures r.Some? <==> row.status == Borrowed
    ensures r.Some? ==> r.value == row.bookId
  {
    if row.status == Borrowed then Some(row.bookId) else None
  }

  /** A Return button offered on a row of the user's own listing names a book
      the user has an open loan of, so the return handler accepts it. */
  lemma OfferedReturnIsAccepted(l: Lending.Ledger, userId: int, row: Row, now: int)
    requires row in Lending.UserBorrows(l.books.rows, l.records.rows, userId)
    requires ReturnAction(row).Some?
    ensures Lending.HasOpenLoan(l.records.rows, userId, ReturnAction(row).value)
    ensures Lending.Return(l, userId, ReturnAction(row).value, now).response == Lending.Ok
  {
    var rec :| rec in l.records.rows && Lending.UserBorrowJoin(l.books.rows, userId, rec) == Some(row);
    var i :| 0 <= i < |l.records.rows| && l.records.rows[i] == rec;
    assert Lending.IsOpenLoan(l.records.rows[i], userId, row.bookId);
  }
}
