/** The lending ledger of `borrowController.js`: borrowing and returning a
    physical book over the `books` and `borrow_records` tables, and the two
    borrow listings. */
module Lending {
  import opened Wrappers
  import opened Tables
  import Seqs

  /** The handler's answer: success, or which check failed. */
  datatype LendResponse =
    | Ok
    | BookNotFound        // 404 "Book not found"
    | EbookNotBorrowable  // 400 "eBooks cannot be borrowed"
    | NoCopiesAvailable   // 400 "No copies available"
    | AlreadyBorrowed     // 400 "You already borrowed this book"
    | NotBorrowed         // 400 "You haven't borrowed this book"

  /** The two tables the lending handlers touch. */
  datatype Ledger = Ledger(books: BookTable, records: RecordTable)

  /** A handler's answer together with the tables it leaves behind. */
  datatype Lent = Lent(response: LendResponse, ledger: Ledger)

  /** `user_id = ? AND book_id = ? AND status = 'borrowed'`. */
  predicate IsOpenLoan(r: BorrowRecord, userId: int, bookId: int) {
    r.userId == userId && r.bookId == bookId && r.status == Borrowed
  }

  /** Whether the open-loan query returns at least one row. */
  function HasOpenLoan(rows: seq<BorrowRecord>, userId: int, bookId: int): (r: bool)
    ensures r <==> exists i :: 0 <= i < |rows| && IsOpenLoan(rows[i], userId, bookId)
  {
    if rows == [] then false
    else
      var rest := HasOpenLoan(rows[1..], userId, bookId);
      assert forall i :: 1 <= i < |rows| ==> rows[i] == rows[1..][i - 1];
      IsOpenLoan(rows[0], userId, bookId) || rest
  }

  /** No (user, book) pair has two open loans. */
  ghost predicate SingleOpenLoan(rows: seq<BorrowRecord>) {
    forall i, j :: 0 <= i < j < |rows| && rows[i].status == Borrowed ==>
      !IsOpenLoan(rows[j], rows[i].userId, rows[i].bookId)
  }

  /** No book has a negative number of copies on the shelf. */
  ghost predicate CopiesNonNegative(books: seq<Book>) {
    forall i :: 0 <= i < |books| ==> books[i].copies >= 0
  }

  /** What the lending handlers keep true between requests. */
  ghost predicate LedgerInvariant(l: Ledger) {
    && l.books.Valid()
    && l.records.Valid()
    && CopiesNonNegative(l.books.rows)
    && SingleOpenLoan(l.records.rows)
  }

  /** `after` is `before` with `delta` added to the copies of every row whose
      id is `bookId`, and nothing else changed. */
  ghost predicate CopiesShifted(before: seq<Book>, after: seq<Book>, bookId: int, delta: int) {
    && |after| == |before|
    && forall i :: 0 <= i < |before| ==>
         after[i] == if before[i].id == bookId then before[i].(copies := before[i].copies + delta) else before[i]
  }

  /** `after` is `before` with every open loan of the pair marked returned at
      `now`, and nothing else changed. */
  ghost predicate LoansClosed(before: seq<BorrowRecord>, after: seq<BorrowRecord>, userId: int, bookId: int, now: int) {
    && |after| == |before|
    && forall i :: 0 <= i < |before| ==>
         after[i] == if IsOpenLoan(before[i], userId, bookId)
                     then before[i].(returnDate := Some(now), status := Returned)
                     else before[i]
  }

  /** `UPDATE books SET copies = copies + delta WHERE id = ?`. */
  function AddCopies(books: seq<Book>, bookId: int, delta: int): (r: seq<Book>)
    ensures CopiesShifted(books, r, bookId, delta)
  {
    if books == [] then []
    else
      var b := books[0];
      [if b.id == bookId then b.(copies := b.copies + delta) else b] + AddCopies(books[1..], bookId, delta)
  }

  /** `UPDATE borrow_records SET return_date = NOW(), status = 'returned'
      WHERE user_id = ? AND book_id = ? AND status = 'borrowed'`. */
  function CloseLoans(rows: seq<BorrowRecord>, userId: int, bookId: int, now: int): (r: seq<BorrowRecord>)
    ensures LoansClosed(rows, r, userId, bookId, now)
    ensures !HasOpenLoan(r, userId, bookId)
  {
    if rows == [] then []
    else
      var x := rows[0];
      [if IsOpenLoan(x, userId, bookId) then x.(returnDate := Some(now), status := Returned) else x]
        + CloseLoans(rows[1..], userId, bookId, now)
  }

  /** `INSERT INTO borrow_records (user_id, book_id, borrow_date, status)
      VALUES (?, ?, NOW(), 'borrowed')`. */
  function OpenLoan(t: RecordTable, userId: int, bookId: int, now: int): (r: RecordTable)
    ensures r.nextId == t.nextId + 1 && |r.rows| == |t.rows| + 1 && r.rows[..|t.rows|] == t.rows
    ensures r.rows[|t.rows|] == BorrowRecord(t.nextId, userId, bookId, now, None, Borrowed)
  {
    RecordTable(t.rows + [BorrowRecord(t.nextId, userId, bookId, now, None, Borrowed)], t.nextId + 1)
  }

  /** `POST /api/borrow/borrow/:id` as a transition: the four checks in order, then the
      insert and the decrement. */
  function Borrow(l: Ledger, userId: int, bookId: int, now: int): (r: Lent)
    ensures r.response in {Ok, BookNotFound, EbookNotBorrowable, NoCopiesAvailable, AlreadyBorrowed}
    ensures r.response == BookNotFound <==> FindBook(l.books.rows, bookId).None?
    ensures r.response == EbookNotBorrowable <==>
              FindBook(l.books.rows, bookId).Some? && FindBook(l.books.rows, bookId).value.isEbook
    ensures r.response == NoCopiesAvailable <==>
              && FindBook(l.books.rows, bookId).Some?
              && !FindBook(l.books.rows, bookId).value.isEbook
              && FindBook(l.books.rows, bookId).value.copies <= 0
    ensures r.response == AlreadyBorrowed <==>
              && FindBook(l.books.rows, bookId).Some?
              && !FindBook(l.books.rows, bookId).value.isEbook
              && FindBook(l.books.rows, bookId).value.copies > 0
              && HasOpenLoan(l.records.rows, userId, bookId)
    ensures r.response != Ok ==> r.ledger == l
    ensures r.response == Ok ==>
              && r.ledger.records == OpenLoan(l.records, userId, bookId, now)
              && CopiesShifted(l.books.rows, r.ledger.books.rows, bookId, -1)
              && r.ledger.books.nextId == l.books.nextId
  {
    match FindBook(l.books.rows, bookId)
    case None => Lent(BookNotFound, l)
    case Some(book) =>
      if book.isEbook then Lent(EbookNotBorrowable, l)
      else if book.copies <= 0 then Lent(NoCopiesAvailable, l)
      else if HasOpenLoan(l.records.rows, userId, bookId) then Lent(AlreadyBorrowed, l)
      else
        var records := OpenLoan(l.records, userId, bookId, now);
        var books := l.books.(rows := AddCopies(l.books.rows, bookId, -1));
        Lent(Ok, Ledger(books, records))
  }

  /** `POST /api/borrow/return/:id` as a transition: only an open loan can be returned;
      the book itself is not looked up. */
  function Return(l: Ledger, userId: int, bookId: int, now: int): (r: Lent)
    ensures r.response == Ok || r.response == NotBorrowed
    ensures r.response == NotBorrowed <==> !HasOpenLoan(l.records.rows, userId, bookId)
    ensures r.response == NotBorrowed ==> r.ledger == l
    ensures r.response == Ok ==>
              && LoansClosed(l.records.rows, r.ledger.records.rows, userId, bookId, now)
              && r.ledger.records.nextId == l.records.nextId
              && CopiesShifted(l.books.rows, r.ledger.books.rows, bookId, 1)
              && r.ledger.books.nextId == l.books.nextId
    ensures !HasOpenLoan(r.ledger.records.rows, userId, bookId)
  {
    if !HasOpenLoan(l.records.rows, userId, bookId) then Lent(NotBorrowed, l)
    else
      var records := l.records.(rows := CloseLoans(l.records.rows, userId, bookId, now));
      var books := l.books.(rows := AddCopies(l.books.rows, bookId, 1));
      Lent(Ok, Ledger(books, records))
  }

  lemma CopiesShiftedKeepsIds(before: seq<Book>, after: seq<Book>, bookId: int, delta: int, nextId: nat)
    requires CopiesShifted(before, after, bookId, delta)
    requires IdsValid(BookIds(before), nextId)
    ensures IdsValid(BookIds(after), nextId)
  {
    assert BookIds(after) == BookIds(before);
  }

  /** A successful borrow keeps every shelf count non-negative, because the
      `copies <= 0` check comes before the decrement. */
  lemma BorrowKeepsCopiesNonNegative(l: Ledger, userId: int, bookId: int, now: int)
    requires l.books.Valid() && CopiesNonNegative(l.books.rows)
    ensures CopiesNonNegative(Borrow(l, userId, bookId, now).ledger.books.rows)
  {
    var r := Borrow(l, userId, bookId, now);
    if r.response == Ok {
      var rows := l.books.rows;
      var found := FindBook(rows, bookId).value;
      forall i | 0 <= i < |rows| && rows[i].id == bookId
        ensures rows[i].copies > 0
      {
        FindBookUnique(l.books, rows[i]);
      }
    }
  }

  /** A successful borrow adds an open loan only for a pair that had none. */
  lemma BorrowKeepsSingleOpenLoan(l: Ledger, userId: int, bookId: int, now: int)
    requires SingleOpenLoan(l.records.rows)
    ensures SingleOpenLoan(Borrow(l, userId, bookId, now).ledger.records.rows)
  {
    var r := Borrow(l, userId, bookId, now);
    if r.response == Ok {
      var before := l.records.rows;
      var after := r.ledger.records.rows;
      forall i, j | 0 <= i < j < |after| && after[i].status == Borrowed
        ensures !IsOpenLoan(after[j], after[i].userId, after[i].bookId)
      {
        if j == |before| {
          assert !IsOpenLoan(before[i], userId, bookId);
        } else {
          assert after[i] == before[i] && after[j] == before[j];
        }
      }
    }
  }

  /** A return only closes loans, so it opens no second loan for any pair. */
  lemma ReturnKeepsSingleOpenLoan(l: Ledger, userId: int, bookId: int, now: int)
    requires SingleOpenLoan(l.records.rows)
    ensures SingleOpenLoan(Return(l, userId, bookId, now).ledger.records.rows)
  {
    var r := Return(l, userId, bookId, now);
    var before := l.records.rows;
    var after := r.ledger.records.rows;
    if r.response == Ok {
      forall i, j | 0 <= i < j < |after| && after[i].status == Borrowed
        ensures !IsOpenLoan(after[j], after[i].userId, after[i].bookId)
      {
        assert after[i] == before[i];
        assert after[j] == before[j] || after[j].status == Returned;
      }
    }
  }

  /** Inserting a loan under the next id keeps the records keyed. */
  lemma OpenLoanKeepsIds(t: RecordTable, userId: int, bookId: int, now: int)
    requires t.Valid()
    ensures OpenLoan(t, userId, bookId, now).Valid()
  {
    assert RecordIds(OpenLoan(t, userId, bookId, now).rows) == RecordIds(t.rows) + [t.nextId];
    AppendKeepsIdsValid(RecordIds(t.rows), t.nextId);
  }

  /** A borrow keeps both tables keyed. */
  lemma BorrowKeepsIds(l: Ledger, userId: int, bookId: int, now: int)
    requires l.books.Valid() && l.records.Valid()
    ensures Borrow(l, userId, bookId, now).ledger.books.Valid()
    ensures Borrow(l, userId, bookId, now).ledger.records.Valid()
  {
    var r := Borrow(l, userId, bookId, now);
    if r.response == Ok {
      CopiesShiftedKeepsIds(l.books.rows, r.ledger.books.rows, bookId, -1, l.books.nextId);
      OpenLoanKeepsIds(l.records, userId, bookId, now);
    }
  }

  /** A return keeps both tables keyed. */
  lemma ReturnKeepsIds(l: Ledger, userId: int, bookId: int, now: int)
    requires l.books.Valid() && l.records.Valid()
    ensures Return(l, userId, bookId, now).ledger.books.Valid()
    ensures Return(l, userId, bookId, now).ledger.records.Valid()
  {
    var r := Return(l, userId, bookId, now);
    if r.response == Ok {
      CopiesShiftedKeepsIds(l.books.rows, r.ledger.books.rows, bookId, 1, l.books.nextId);
      assert RecordIds(r.ledger.records.rows) == RecordIds(l.records.rows);
    }
  }

  /** Both transitions keep the ledger invariant. */
  lemma BorrowPreservesInvariant(l: Ledger, userId: int, bookId: int, now: int)
    requires LedgerInvariant(l)
    ensures LedgerInvariant(Borrow(l, userId, bookId, now).ledger)
  {
    BorrowKeepsIds(l, userId, bookId, now);
    BorrowKeepsCopiesNonNegative(l, userId, bookId, now);
    BorrowKeepsSingleOpenLoan(l, userId, bookId, now);
  }

  /** A return only ever adds copies, so the shelf counts stay non-negative. */
  lemma ReturnKeepsCopiesNonNegative(l: Ledger, userId: int, bookId: int, now: int)
    requires CopiesNonNegative(l.books.rows)
    ensures CopiesNonNegative(Return(l, userId, bookId, now).ledger.books.rows)
  {
  }

  lemma ReturnPreservesInvariant(l: Ledger, userId: int, bookId: int, now: int)
    requires LedgerInvariant(l)
    ensures LedgerInvariant(Return(l, userId, bookId, now).ledger)
  {
    ReturnKeepsIds(l, userId, bookId, now);
    ReturnKeepsCopiesNonNegative(l, userId, bookId, now);
    ReturnKeepsSingleOpenLoan(l, userId, bookId, now);
  }

  /** Adding and then removing the same number of copies restores the table. */
  lemma AddCopiesInverse(books: seq<Book>, bookId: int, delta: int)
    ensures AddCopies(AddCopies(books, bookId, delta), bookId, -delta) == books
  {
    var once := AddCopies(books, bookId, delta);
    var twice := AddCopies(once, bookId, -delta);
    forall i | 0 <= i < |books|
      ensures twice[i] == books[i]
    {
      assert once[i].id == books[i].id;
    }
  }

  /** Closing a pair's loans when only the newest record is open for it
      closes exactly that record. */
  lemma CloseOnlyNewest(rows: seq<BorrowRecord>, x: BorrowRecord, userId: int, bookId: int, now: int)
    requires !HasOpenLoan(rows, userId, bookId) && IsOpenLoan(x, userId, bookId)
    ensures CloseLoans(rows + [x], userId, bookId, now) == rows + [x.(returnDate := Some(now), status := Returned)]
  {
    var after := CloseLoans(rows + [x], userId, bookId, now);
    forall i | 0 <= i < |rows|
      ensures after[i] == rows[i]
    {
      assert (rows + [x])[i] == rows[i];
    }
  }

  /** Borrowing and then returning the same book restores the books table,
      leaves the pair without an open loan, and only adds the closed record. */
  lemma BorrowThenReturn(l: Ledger, userId: int, bookId: int, t1: int, t2: int)
    requires Borrow(l, userId, bookId, t1).response == Ok
    ensures var r := Return(Borrow(l, userId, bookId, t1).ledger, userId, bookId, t2);
            && r.response == Ok
            && r.ledger.books == l.books
            && !HasOpenLoan(r.ledger.records.rows, userId, bookId)
            && r.ledger.records == RecordTable(
                 l.records.rows + [BorrowRecord(l.records.nextId, userId, bookId, t1, Some(t2), Returned)],
                 l.records.nextId + 1)
  {
    var x := BorrowRecord(l.records.nextId, userId, bookId, t1, None, Borrowed);
    BorrowOkLedger(l, userId, bookId, t1);
    ReturnNewestLoan(l.books, l.records.rows, x, l.records.nextId + 1, userId, bookId, t2);
    AddCopiesInverse(l.books.rows, bookId, -1);
  }

  /** The tables a successful borrow leaves behind. */
  lemma BorrowOkLedger(l: Ledger, userId: int, bookId: int, now: int)
    requires Borrow(l, userId, bookId, now).response == Ok
    ensures !HasOpenLoan(l.records.rows, userId, bookId)
    ensures Borrow(l, userId, bookId, now).ledger
            == Ledger(l.books.(rows := AddCopies(l.books.rows, bookId, -1)),
                      RecordTable(l.records.rows + [BorrowRecord(l.records.nextId, userId, bookId, now, None, Borrowed)],
                                  l.records.nextId + 1))
  {
  }

  /** Returning a book whose only open loan is the newest record closes that
      record and puts one copy back. */
  lemma ReturnNewestLoan(books: BookTable, rows: seq<BorrowRecord>, x: BorrowRecord, nextId: nat,
                         userId: int, bookId: int, now: int)
    requires !HasOpenLoan(rows, userId, bookId) && IsOpenLoan(x, userId, bookId)
    ensures Return(Ledger(books.(rows := AddCopies(books.rows, bookId, -1)), RecordTable(rows + [x], nextId)),
                   userId, bookId, now)
            == Lent(Ok, Ledger(books.(rows := AddCopies(AddCopies(books.rows, bookId, -1), bookId, 1)),
                               RecordTable(rows + [x.(returnDate := Some(now), status := Returned)], nextId)))
  {
    assert IsOpenLoan((rows + [x])[|rows|], userId, bookId);
    CloseOnlyNewest(rows, x, userId, bookId, now);
  }

  /** The handler: the same statements against the database object. */
  method BorrowBook(db: Db, userId: int, bookId: int, now: int) returns (response: LendResponse)
    requires db.Valid()
    modifies db`books, db`records
    ensures Lent(response, Ledger(db.books, db.records))
            == Borrow(Ledger(old(db.books), old(db.records)), userId, bookId, now)
    ensures db.Valid()
  {
    BorrowKeepsIds(Ledger(db.books, db.records), userId, bookId, now);
    var found := FindBook(db.books.rows, bookId);
    if found.None? {
      return BookNotFound;
    }
    var book := found.value;
    if book.isEbook {
      return EbookNotBorrowable;
    }
    if book.copies <= 0 {
      return NoCopiesAvailable;
    }
    if HasOpenLoan(db.records.rows, userId, bookId) {
      return AlreadyBorrowed;
    }
    db.records := OpenLoan(db.records, userId, bookId, now);
    db.books := db.books.(rows := AddCopies(db.books.rows, bookId, -1));
    response := Ok;
  }

  method ReturnBook(db: Db, userId: int, bookId: int, now: int) returns (response: LendResponse)
    requires db.Valid()
    modifies db`books, db`records
    ensures Lent(response, Ledger(db.books, db.records))
            == Return(Ledger(old(db.books), old(db.records)), userId, bookId, now)
    ensures db.Valid()
  {
    ReturnKeepsIds(Ledger(db.books, db.records), userId, bookId, now);
    if !HasOpenLoan(db.records.rows, userId, bookId) {
      return NotBorrowed;
    }
    db.records := db.records.(rows := CloseLoans(db.records.rows, userId, bookId, now));
    db.books := db.books.(rows := AddCopies(db.books.rows, bookId, 1));
    response := Ok;
  }

  /** A row of `GET /api/borrow/:userId`. */
  datatype UserBorrowRow = UserBorrowRow(
    borrowId: nat,
    bookId: nat,
    title: string,
    author: string,
    isEbook: bool,
    pdfPath: Option<string>,
    copies: int,
    borrowDate: int,
    returnDate: Option<int>,
    status: LoanStatus)

  /** One record of the user joined with its book, if the record is the
      user's and the book exists. */
  function UserBorrowJoin(books: seq<Book>, userId: int, rec: BorrowRecord): (r: Option<UserBorrowRow>)
    ensures r.Some? <==> rec.userId == userId && FindBook(books, rec.bookId).Some?
    ensures r.Some? ==>
              && r.value.borrowId == rec.id && r.value.bookId == rec.bookId
              && r.value.borrowDate == rec.borrowDate && r.value.returnDate == rec.returnDate
              && r.value.status == rec.status
              && r.value.title == FindBook(books, rec.bookId).value.title
              && r.value.author == FindBook(books, rec.bookId).value.author
              && r.value.isEbook == FindBook(books, rec.bookId).value.isEbook
              && r.value.pdfPath == FindBook(books, rec.bookId).value.pdfPath
              && r.value.copies == FindBook(books, rec.bookId).value.copies
  {
    if rec.userId != userId then None
    else match FindBook(books, rec.bookId)
      case None => None
      case Some(b) =>
        Some(UserBorrowRow(rec.id, b.id, b.title, b.author, b.isEbook, b.pdfPath, b.copies,
                           rec.borrowDate, rec.returnDate, rec.status))
  }

  function UserBorrowDate(row: UserBorrowRow): int { row.borrowDate }

  function UserJoin(books: seq<Book>, userId: int): BorrowRecord -> Option<UserBorrowRow> {
    (rec: BorrowRecord) => UserBorrowJoin(books, userId, rec)
  }

  /** The records `getUserBorrows` reports: the user's, with an existing book. */
  function IsUserLoan(books: seq<Book>, userId: int): BorrowRecord -> bool {
    (rec: BorrowRecord) => rec.userId == userId && FindBook(books, rec.bookId).Some?
  }

  /** `getUserBorrows`: that user's records joined with their books, newest
      borrow first; one row per such record, and each row as often as records
      join to it. */
  function UserBorrows(books: seq<Book>, records: seq<BorrowRecord>, userId: int): (r: seq<UserBorrowRow>)
    ensures forall row :: row in r <==> exists rec :: rec in records && UserBorrowJoin(books, userId, rec) == Some(row)
    ensures forall i, j :: 0 <= i < j < |r| ==> r[i].borrowDate >= r[j].borrowDate
    ensures |r| == |Seqs.Filter(records, IsUserLoan(books, userId))|
    ensures forall row :: multiset(r)[row] == |Seqs.Filter(records, Seqs.MapsTo(UserJoin(books, userId), row))|
  {
    var joined := Seqs.FilterMap(records, UserJoin(books, userId));
    var r := Seqs.SortDesc(joined, UserBorrowDate);
    Seqs.SameElements(r, joined);
    Seqs.FilterMapCount(records, UserJoin(books, userId));
    Seqs.FilterCongruent(records, Seqs.HasImage(UserJoin(books, userId)), IsUserLoan(books, userId));
    r
  }

  /** A row of `GET /api/borrow/`. */
  datatype AllBorrowRow = AllBorrowRow(
    borrowId: nat,
    userId: nat,
    userName: string,
    userEmail: string,
    bookId: nat,
    bookTitle: string,
    borrowDate: int,
    returnDate: Option<int>,
    status: LoanStatus)

  /** One record joined with its user and its book, if both exist. */
  function AllBorrowJoin(users: seq<User>, books: seq<Book>, rec: BorrowRecord): (r: Option<AllBorrowRow>)
    ensures r.Some? <==> FindUser(users, rec.userId).Some? && FindBook(books, rec.bookId).Some?
    ensures r.Some? ==>
              && r.value.borrowId == rec.id && r.value.userId == rec.userId && r.value.bookId == rec.bookId
              && r.value.borrowDate == rec.borrowDate && r.value.returnDate == rec.returnDate
              && r.value.status == rec.status
              && r.value.userName == FindUser(users, rec.userId).value.name
              && r.value.userEmail == FindUser(users, rec.userId).value.email
              && r.value.bookTitle == FindBook(books, rec.bookId).value.title
  {
    match (FindUser(users, rec.userId), FindBook(books, rec.bookId))
    case (Some(u), Some(b)) =>
      Some(AllBorrowRow(rec.id, u.id, u.name, u.email, b.id, b.title, rec.borrowDate, rec.returnDate, rec.status))
    case _ => None
  }

  function AllBorrowDate(row: AllBorrowRow): int { row.borrowDate }

  function AllJoin(users: seq<User>, books: seq<Book>): BorrowRecord -> Option<AllBorrowRow> {
    (rec: BorrowRecord) => AllBorrowJoin(users, books, rec)
  }

  /** The records `getAllBorrows` reports: those whose user and book exist. */
  function IsListedLoan(users: seq<User>, books: seq<Book>): BorrowRecord -> bool {
    (rec: BorrowRecord) => FindUser(users, rec.userId).Some? && FindBook(books, rec.bookId).Some?
  }

  /** `getAllBorrows`: every record whose user and book exist, joined with
      both, newest borrow first; one row per such record, and each row as
      often as records join to it. */
  function AllBorrows(users: seq<User>, books: seq<Book>, records: seq<BorrowRecord>): (r: seq<AllBorrowRow>)
    ensures forall row :: row in r <==> exists rec :: rec in records && AllBorrowJoin(users, books, rec) == Some(row)
    ensures forall i, j :: 0 <= i < j < |r| ==> r[i].borrowDate >= r[j].borrowDate
    ensures |r| == |Seqs.Filter(records, IsListedLoan(users, books))|
    ensures forall row :: multiset(r)[row] == |Seqs.Filter(records, Seqs.MapsTo(AllJoin(users, books), row))|
  {
    var joined := Seqs.FilterMap(records, AllJoin(users, books));
    var r := Seqs.SortDesc(joined, AllBorrowDate);
    Seqs.SameElements(r, joined);
    Seqs.FilterMapCount(records, AllJoin(users, books));
    Seqs.FilterCongruent(records, Seqs.HasImage(AllJoin(users, books)), IsListedLoan(users, books));
    r
  }
}
