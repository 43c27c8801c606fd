/** The catalogue page `Home.jsx`: its filtered and paginated book list, the
    availability badge and the decision its Borrow button takes. */
module Home {
  import opened Wrappers
  import opened Tables
  import Catalog
  import Lending
  import BookSearch
  import Paging

  const BooksPerPage: nat := 8

  /** `filteredBooks.slice(indexOfFirstBook, indexOfLastBook)` on page `page`. */
  function CurrentBooks(filtered: seq<Catalog.ListedBook>, page: int): seq<Catalog.ListedBook> {
    Paging.PageOf(filtered, page, BooksPerPage)
  }

  /** `Math.max(1, Math.ceil(filteredBooks.length / booksPerPage))`. */
  function TotalPages(filtered: seq<Catalog.ListedBook>): nat {
    Paging.ClampedPageCount(|filtered|, BooksPerPage)
  }

  /** The home page always has a page to show; each page shows at most eight
      books, and the numbered pages together show every filtered book, in order. */
  lemma PagesShowFiltered(filtered: seq<Catalog.ListedBook>, page: int)
    requires page >= 1
    ensures TotalPages(filtered) >= 1
    ensures |filtered| == 0 ==> TotalPages(filtered) == 1
    ensures |CurrentBooks(filtered, page)| <= BooksPerPage
    ensures Paging.Pages(filtered, BooksPerPage, TotalPages(filtered)) == filtered
  {
    Paging.PageContents(filtered, page, BooksPerPage);
    Paging.PagesCoverAll(filtered, BooksPerPage, TotalPages(filtered));
  }

  /** `book.copies > 0 ? "Available" : "Unavailable"`: copies decide alone,
      eBook or not. */
  predicate ShownAvailable(b: Book) {
    b.copies > 0
  }

  /** JavaScript truthiness of `user?.id`: missing or zero means logged out. */
  predicate LoggedIn(userId: Option<int>) {
    userId.Some? && userId.value != 0
  }

  /** JavaScript truthiness of `book.pdf_path`: NULL and "" are both absent. */
  predicate HasPdf(pdfPath: Option<string>) {
    pdfPath.Some? && pdfPath.value != ""
  }

  /** What `handleBorrow` does. */
  datatype BorrowAction =
    | AskToLogIn                              // "Please log in to borrow"
    | NoPdf                                   // "No PDF uploaded for this eBook"
    | OpenPdf(bookId: nat)                    // navigate to /view-pdf/:id
    | RequestBorrow(bookId: nat, userId: int) // POST /api/borrow/borrow/:id with { user_id }

  /** `handleBorrow(book)`: a logged-out user is asked to log in; an eBook is
      opened in the reader, or refused when it has no PDF; only a physical
      book sends a borrow request, for that book and the logged-in user. */
  function HandleBorrow(userId: Option<int>, book: Book): (r: BorrowAction)
    ensures r.AskToLogIn? <==> !LoggedIn(userId)
    ensures r.RequestBorrow? <==> LoggedIn(userId) && !book.isEbook
    ensures r.RequestBorrow? ==> r == RequestBorrow(book.id, userId.value)
    ensures r.OpenPdf? <==> LoggedIn(userId) && book.isEbook && HasPdf(book.pdfPath)
    ensures r.OpenPdf? ==> r.bookId == book.id
    ensures r.NoPdf? <==> LoggedIn(userId) && book.isEbook && !HasPdf(book.pdfPath)
  {
    if !LoggedIn(userId) then AskToLogIn
    else if book.isEbook then (if HasPdf(book.pdfPath) then OpenPdf(book.id) else NoPdf)
    else RequestBorrow(book.id, userId.value)
  }

  /** A borrow request the page sends for a book it shows as available, by a
      user with no open loan of it, is granted by the lending handler. */
  lemma AvailableRequestIsGranted(l: Lending.Ledger, userId: Option<int>, b: Book, now: int)
    requires FindBook(l.books.rows, b.id) == Some(b)
    requires HandleBorrow(userId, b).RequestBorrow? && ShownAvailable(b)
    requires !Lending.HasOpenLoan(l.records.rows, userId.value, b.id)
    ensures Lending.Borrow(l, HandleBorrow(userId, b).userId, HandleBorrow(userId, b).bookId, now).response == Lending.Ok
  {
  }

  /** A physical book the page shows as unavailable is refused for lack of copies. */
  lemma UnavailableRequestIsRefused(l: Lending.Ledger, userId: Option<int>, b: Book, now: int)
    requires FindBook(l.books.rows, b.id) == Some(b)
    requires HandleBorrow(userId, b).RequestBorrow? && !ShownAvailable(b)
    ensures Lending.Borrow(l, HandleBorrow(userId, b).userId, HandleBorrow(userId, b).bookId, now).response
            == Lending.NoCopiesAvailable
  {
  }
}
