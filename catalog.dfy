/** The catalog handlers of `booksController.js`: the book listing, create,
    update and delete with their field coercions, and the older borrow and
    return that only move the `copies` counter. */
module Catalog {
  import opened Wrappers
  import opened Tables
  import Seqs
  import Lending

  /** The multipart form a create or update submits. `isEbook` is the raw
      form value, `pdfPath` the `pdf_path` text field (update only). */
  datatype BookForm = BookForm(
    title: string,
    author: string,
    description: string,
    categoryId: Option<int>,
    isEbook: Option<string>,
    pdfPath: Option<string>,
    copies: int)

  /** `is_ebook === "true" ? 1 : 0`: only the exact string "true" sets the flag. */
  function EbookFlag(submitted: Option<string>): (r: bool)
    ensures r <==> submitted == Some("true")
  {
    match submitted
    case Some(v) => v == "true"
    case None => false
  }

  /** The stored `pdf_path` on update: the uploaded file's name, else the
      submitted `pdf_path` when it is a non-empty string, else NULL. */
  function UpdatedPdfPath(upload: Option<string>, submitted: Option<string>): (r: Option<string>)
    ensures upload.Some? ==> r == upload
    ensures upload.None? && submitted.Some? && submitted.value != "" ==> r == submitted
    ensures upload.None? && (submitted.None? || submitted == Some("")) ==> r.None?
  {
    if upload.Some? then upload
    else if submitted.Some? && submitted.value != "" then submitted
    else None
  }

  /** The row a form describes, under the given id and `pdf_path`. */
  function FormRow(id: nat, form: BookForm, pdfPath: Option<string>): (r: Book)
    ensures r.id == id && r.pdfPath == pdfPath
    ensures r.isEbook <==> form.isEbook == Some("true")
    ensures r.title == form.title && r.author == form.author && r.description == form.description
    ensures r.categoryId == form.categoryId && r.copies == form.copies
  {
    Book(id, form.title, form.author, form.description, form.categoryId, EbookFlag(form.isEbook), pdfPath, form.copies)
  }

  /** `createBook`: insert the form under the next id, with the uploaded
      file's name (or NULL) as `pdf_path`, and read the row back. */
  function Create(t: BookTable, form: BookForm, upload: Option<string>): (r: (BookTable, Book))
    ensures r.0.rows == t.rows + [r.1] && r.0.nextId == t.nextId + 1
    ensures r.1 == FormRow(t.nextId, form, upload)
  {
    var row := FormRow(t.nextId, form, upload);
    (BookTable(t.rows + [row], t.nextId + 1), row)
  }

  /** A created book can be looked up under its id, and the table stays keyed. */
  lemma CreateThenFind(t: BookTable, form: BookForm, upload: Option<string>)
    requires t.Valid()
    ensures Create(t, form, upload).0.Valid()
    ensures FindBook(Create(t, form, upload).0.rows, Create(t, form, upload).1.id) == Some(Create(t, form, upload).1)
  {
    var (t2, row) := Create(t, form, upload);
    assert BookIds(t2.rows) == BookIds(t.rows) + [t.nextId];
    AppendKeepsIdsValid(BookIds(t.rows), t.nextId);
    FindBookUnique(t2, row);
  }

  /** `UPDATE books SET <all seven fields> WHERE id = ?`. */
  function OverwriteRows(rows: seq<Book>, id: int, form: BookForm, pdfPath: Option<string>): (r: seq<Book>)
    ensures |r| == |rows|
    ensures forall i :: 0 <= i < |rows| ==>
              r[i] == if rows[i].id == id then FormRow(rows[i].id, form, pdfPath) else rows[i]
  {
    if rows == [] then []
    else
      var b := rows[0];
      [if b.id == id then FormRow(b.id, form, pdfPath) else b] + OverwriteRows(rows[1..], id, form, pdfPath)
  }

  /** `updateBook`: overwrite the row with that id, then read it back (absent
      when no row has the id; the handler still reports success). */
  function Update(t: BookTable, id: int, form: BookForm, upload: Option<string>): (r: (BookTable, Option<Book>))
    ensures r.0.nextId == t.nextId
    ensures r.0.rows == OverwriteRows(t.rows, id, form, UpdatedPdfPath(upload, form.pdfPath))
    ensures r.1 == FindBook(r.0.rows, id)
  {
    var rows := OverwriteRows(t.rows, id, form, UpdatedPdfPath(upload, form.pdfPath));
    (t.(rows := rows), FindBook(rows, id))
  }

  /** Overwriting keeps every row's id. */
  lemma OverwriteKeepsIds(rows: seq<Book>, id: int, form: BookForm, pdfPath: Option<string>)
    ensures BookIds(OverwriteRows(rows, id, form, pdfPath)) == BookIds(rows)
  {
    var r := OverwriteRows(rows, id, form, pdfPath);
    forall i | 0 <= i < |rows|
      ensures r[i].id == rows[i].id
    {
    }
  }

  /** An update keeps the table keyed. */
  lemma UpdateKeepsKeys(t: BookTable, id: int, form: BookForm, upload: Option<string>)
    requires t.Valid()
    ensures Update(t, id, form, upload).0.Valid()
  {
    OverwriteKeepsIds(t.rows, id, form, UpdatedPdfPath(upload, form.pdfPath));
  }

  /** After updating an existing book, the row read back is the form's. */
  lemma UpdateReadsBack(t: BookTable, id: int, form: BookForm, upload: Option<string>)
    requires t.Valid() && FindBook(t.rows, id).Some?
    ensures Update(t, id, form, upload).1 == Some(FormRow(id as nat, form, UpdatedPdfPath(upload, form.pdfPath)))
  {
    var pdfPath := UpdatedPdfPath(upload, form.pdfPath);
    var t2 := Update(t, id, form, upload).0;
    UpdateKeepsKeys(t, id, form, upload);
    var before := FindBook(t.rows, id).value;
    var i :| 0 <= i < |t.rows| && t.rows[i] == before;
    assert t2.rows[i] == FormRow(id as nat, form, pdfPath);
    FindBookUnique(t2, t2.rows[i]);
  }

  /** Updating an id no book has changes nothing and reads back nothing. */
  lemma UpdateUnknownId(t: BookTable, id: int, form: BookForm, upload: Option<string>)
    requires FindBook(t.rows, id).None?
    ensures Update(t, id, form, upload) == (t, None)
  {
    var t2 := Update(t, id, form, upload).0;
    assert t2.rows == t.rows;
  }

  /** `DELETE FROM books WHERE id = ?`. */
  function RemoveRows(rows: seq<Book>, id: int): (r: seq<Book>)
    ensures |r| <= |rows|
    ensures forall b :: b in r <==> b in rows && b.id != id
  {
    if rows == [] then []
    else (if rows[0].id == id then [] else [rows[0]]) + RemoveRows(rows[1..], id)
  }

  lemma {:induction false} RemoveRowsKeepsIds(rows: seq<Book>, id: int, nextId: nat)
    requires IdsValid(BookIds(rows), nextId)
    ensures IdsValid(BookIds(RemoveRows(rows, id)), nextId)
  {
    if rows != [] {
      var rest := rows[1..];
      var ids := BookIds(rows);
      assert IdsValid(BookIds(rest), nextId) by {
        assert BookIds(rest) == ids[1..];
      }
      RemoveRowsKeepsIds(rest, id, nextId);
      var kept := RemoveRows(rest, id);
      if rows[0].id != id {
        forall k | 0 <= k < |kept|
          ensures rows[0].id < BookIds(kept)[k]
        {
          assert kept[k] in rest;
          var j :| 0 <= j < |rest| && rest[j] == kept[k];
          assert ids[j + 1] == kept[k].id;
        }
        PrependKeepsIdsValid(rows[0].id, BookIds(kept), nextId);
        assert RemoveRows(rows, id) == [rows[0]] + kept;
        assert BookIds([rows[0]] + kept) == [rows[0].id] + BookIds(kept);
      } else {
        assert RemoveRows(rows, id) == kept;
      }
    }
  }

  /** `deleteBook`: only the rows with that id disappear. */
  function Delete(t: BookTable, id: int): (r: BookTable)
    ensures r.nextId == t.nextId
    ensures forall b :: b in r.rows <==> b in t.rows && b.id != id
    ensures FindBook(r.rows, id).None?
    ensures t.Valid() ==> r.Valid()
  {
    var r := t.(rows := RemoveRows(t.rows, id));
    assert t.Valid() ==> r.Valid() by {
      if t.Valid() {
        RemoveRowsKeepsIds(t.rows, id, t.nextId);
      }
    }
    r
  }

  /** A row of `GET /api/books`: the book and its category's name (`LEFT JOIN`, so
      NULL when the book has no category or the category is gone). */
  datatype ListedBook = ListedBook(book: Book, categoryName: Option<string>)

  function CategoryNameOf(categories: seq<Category>, b: Book): (r: Option<string>)
    ensures r.Some? <==> b.categoryId.Some? && FindCategory(categories, b.categoryId.value).Some?
    ensures r.Some? ==> r.value == FindCategory(categories, b.categoryId.value).value.name
  {
    match b.categoryId
    case None => None
    case Some(c) =>
      match FindCategory(categories, c)
      case None => None
      case Some(cat) => Some(cat.name)
  }

  /** The `LEFT JOIN` before ordering: one listed row per book, in table order. */
  function JoinCategories(categories: seq<Category>, books: seq<Book>): (r: seq<ListedBook>)
    ensures |r| == |books|
    ensures forall i :: 0 <= i < |books| ==> r[i] == ListedBook(books[i], CategoryNameOf(categories, books[i]))
  {
    if books == [] then []
    else [ListedBook(books[0], CategoryNameOf(categories, books[0]))] + JoinCategories(categories, books[1..])
  }

  function ListedId(row: ListedBook): int { row.book.id }

  /** `getAllBooks`: every book once, with its category name, highest id first. */
  function AllBooks(categories: seq<Category>, books: seq<Book>): (r: seq<ListedBook>)
    ensures |r| == |books|
    ensures multiset(r) == multiset(JoinCategories(categories, books))
    ensures forall i, j :: 0 <= i < j < |r| ==> r[i].book.id >= r[j].book.id
  {
    Seqs.SortDesc(JoinCategories(categories, books), ListedId)
  }

  /** Every book of the table appears in the listing, with its category name. */
  lemma AllBooksListsEveryBook(categories: seq<Category>, books: seq<Book>, b: Book)
    ensures b in books <==> ListedBook(b, CategoryNameOf(categories, b)) in AllBooks(categories, books)
  {
    var joined := JoinCategories(categories, books);
    Seqs.SameElements(AllBooks(categories, books), joined);
    if b in books {
      var i :| 0 <= i < |books| && books[i] == b;
      assert joined[i] == ListedBook(b, CategoryNameOf(categories, b));
    }
    if ListedBook(b, CategoryNameOf(categories, b)) in joined {
      var i :| 0 <= i < |joined| && joined[i] == ListedBook(b, CategoryNameOf(categories, b));
      assert books[i] == b;
    }
  }

  /** The answer of the older borrow and return handlers. */
  datatype ShelfResponse =
    | Done
    | ShelfBookNotFound    // 404 "Book not found"
    | EbookNotBorrowable   // 400 "eBooks cannot be borrowed"
    | EbookNotReturnable   // 400 "eBooks cannot be returned"
    | NoCopiesAvailable    // 400 "No copies available"

  /** `UPDATE books SET copies = ? WHERE id = ?`. */
  function SetCopies(rows: seq<Book>, id: int, copies: int): (r: seq<Book>)
    ensures |r| == |rows|
    ensures forall i :: 0 <= i < |rows| ==>
              r[i] == if rows[i].id == id then rows[i].(copies := copies) else rows[i]
  {
    if rows == [] then []
    else
      var b := rows[0];
      [if b.id == id then b.(copies := copies) else b] + SetCopies(rows[1..], id, copies)
  }

  /** The guards of the older `borrowBook` on the row the lookup found, in
      order: missing, eBook, no copies on the shelf. */
  function ShelfBorrowCheck(found: Option<Book>): (r: ShelfResponse)
    ensures r == ShelfBookNotFound <==> found.None?
    ensures r == EbookNotBorrowable <==> found.Some? && found.value.isEbook
    ensures r == NoCopiesAvailable <==> found.Some? && !found.value.isEbook && found.value.copies <= 0
    ensures r == Done <==> found.Some? && !found.value.isEbook && found.value.copies > 0
  {
    match found
    case None => ShelfBookNotFound
    case Some(book) =>
      if book.isEbook then EbookNotBorrowable
      else if book.copies <= 0 then NoCopiesAvailable
      else Done
  }

  /** The older `borrowBook`: the first three checks of the ledger's borrow,
      then `copies` set to the value read minus one; no record is written. */
  function ShelfBorrow(t: BookTable, bookId: int): (r: (ShelfResponse, BookTable))
    ensures r.0 == ShelfBorrowCheck(FindBook(t.rows, bookId))
    ensures r.0 != Done ==> r.1 == t
    ensures r.0 == Done ==> r.1 == t.(rows := SetCopies(t.rows, bookId, FindBook(t.rows, bookId).value.copies - 1))
  {
    var response := ShelfBorrowCheck(FindBook(t.rows, bookId));
    if response != Done then (response, t)
    else (Done, t.(rows := SetCopies(t.rows, bookId, FindBook(t.rows, bookId).value.copies - 1)))
  }

  /** The older `returnBook`: rejects missing books and eBooks, otherwise sets
      `copies` to the value read plus one, with no upper bound. */
  function ShelfReturn(t: BookTable, bookId: int): (r: (ShelfResponse, BookTable))
    ensures r.0 in {Done, ShelfBookNotFound, EbookNotReturnable}
    ensures r.0 == ShelfBookNotFound <==> FindBook(t.rows, bookId).None?
    ensures r.0 == EbookNotReturnable <==> FindBook(t.rows, bookId).Some? && FindBook(t.rows, bookId).value.isEbook
    ensures r.0 != Done ==> r.1 == t
    ensures r.0 == Done ==> r.1 == t.(rows := SetCopies(t.rows, bookId, FindBook(t.rows, bookId).value.copies + 1))
  {
    match FindBook(t.rows, bookId)
    case None => (ShelfBookNotFound, t)
    case Some(book) =>
      if book.isEbook then (EbookNotReturnable, t)
      else (Done, t.(rows := SetCopies(t.rows, bookId, book.copies + 1)))
  }

  /** On a keyed table, writing back the value read plus `delta` is the same as
      the ledger's `copies = copies + delta`. */
  lemma SetCopiesIsShift(t: BookTable, bookId: int, delta: int)
    requires t.Valid() && FindBook(t.rows, bookId).Some?
    ensures Lending.CopiesShifted(t.rows, SetCopies(t.rows, bookId, FindBook(t.rows, bookId).value.copies + delta), bookId, delta)
  {
    var found := FindBook(t.rows, bookId).value;
    forall i | 0 <= i < |t.rows| && t.rows[i].id == bookId
      ensures t.rows[i] == found
    {
      FindBookUnique(t, t.rows[i]);
    }
  }

  /** The older borrow keeps shelf counts non-negative and, when it succeeds,
      moves exactly the ledger's one-copy step. */
  lemma ShelfBorrowSound(t: BookTable, bookId: int)
    requires t.Valid() && Lending.CopiesNonNegative(t.rows)
    ensures Lending.CopiesNonNegative(ShelfBorrow(t, bookId).1.rows)
    ensures ShelfBorrow(t, bookId).0 == Done ==> Lending.CopiesShifted(t.rows, ShelfBorrow(t, bookId).1.rows, bookId, -1)
  {
    if ShelfBorrow(t, bookId).0 == Done {
      SetCopiesIsShift(t, bookId, -1);
    }
  }

  /** The lookup after writing `copies` finds the same row, with the new count. */
  lemma {:induction false} FindAfterSetCopies(rows: seq<Book>, id: int, copies: int)
    requires FindBook(rows, id).Some?
    ensures FindBook(SetCopies(rows, id, copies), id) == Some(FindBook(rows, id).value.(copies := copies))
  {
    if rows[0].id != id {
      FindAfterSetCopies(rows[1..], id, copies);
      assert SetCopies(rows, id, copies)[1..] == SetCopies(rows[1..], id, copies);
    }
  }

  /** Writing `copies` changes no id. */
  lemma SetCopiesKeepsIds(rows: seq<Book>, id: int, copies: int)
    ensures BookIds(SetCopies(rows, id, copies)) == BookIds(rows)
  {
    var r := SetCopies(rows, id, copies);
    forall i | 0 <= i < |rows|
      ensures r[i].id == rows[i].id
    {
    }
  }

  /** Both older shelf handlers keep the table keyed. */
  lemma ShelfKeepsIds(t: BookTable, bookId: int)
    requires t.Valid()
    ensures ShelfBorrow(t, bookId).1.Valid() && ShelfReturn(t, bookId).1.Valid()
  {
    if FindBook(t.rows, bookId).Some? {
      var copies := FindBook(t.rows, bookId).value.copies;
      SetCopiesKeepsIds(t.rows, bookId, copies - 1);
      SetCopiesKeepsIds(t.rows, bookId, copies + 1);
    }
  }

  /** Writing back the count every row with that id already holds changes nothing. */
  lemma SetCopiesUnchanged(rows: seq<Book>, id: int, copies: int)
    requires forall i :: 0 <= i < |rows| && rows[i].id == id ==> rows[i].copies == copies
    ensures SetCopies(rows, id, copies) == rows
  {
    var r := SetCopies(rows, id, copies);
    forall i | 0 <= i < |rows|
      ensures r[i] == rows[i]
    {
    }
  }

  /** Only the last of two writes of `copies` to the same id counts. */
  lemma SetCopiesTwice(rows: seq<Book>, id: int, first: int, second: int)
    ensures SetCopies(SetCopies(rows, id, first), id, second) == SetCopies(rows, id, second)
  {
    var once := SetCopies(rows, id, first);
    forall i | 0 <= i < |rows|
      ensures once[i].id == rows[i].id
    {
    }
  }

  /** The older return undoes a successful older borrow. */
  lemma ShelfBorrowThenReturn(t: BookTable, bookId: int)
    requires t.Valid() && ShelfBorrow(t, bookId).0 == Done
    ensures ShelfReturn(ShelfBorrow(t, bookId).1, bookId) == (Done, t)
  {
    var found := FindBook(t.rows, bookId).value;
    var t1 := ShelfBorrow(t, bookId).1;
    assert t1.rows == SetCopies(t.rows, bookId, found.copies - 1);
    FindAfterSetCopies(t.rows, bookId, found.copies - 1);
    assert FindBook(t1.rows, bookId) == Some(found.(copies := found.copies - 1));
    SetCopiesTwice(t.rows, bookId, found.copies - 1, found.copies);
    forall i | 0 <= i < |t.rows| && t.rows[i].id == bookId
      ensures t.rows[i].copies == found.copies
    {
      FindBookUnique(t, t.rows[i]);
    }
    SetCopiesUnchanged(t.rows, bookId, found.copies);
    assert SetCopies(t1.rows, bookId, found.copies) == t.rows;
  }

  /** The older return keeps shelf counts non-negative. */
  lemma ShelfReturnKeepsCopiesNonNegative(t: BookTable, bookId: int)
    requires t.Valid() && Lending.CopiesNonNegative(t.rows)
    ensures Lending.CopiesNonNegative(ShelfReturn(t, bookId).1.rows)
  {
    if ShelfReturn(t, bookId).0 == Done {
      SetCopiesIsShift(t, bookId, 1);
    }
  }

  /** The handlers, as statements against the database object. */
  method CreateBook(db: Db, form: BookForm, upload: Option<string>) returns (created: Book)
    requires db.Valid()
    modifies db`books
    ensures (db.books, created) == Create(old(db.books), form, upload)
    ensures db.Valid()
  {
    CreateThenFind(db.books, form, upload);
    var row := FormRow(db.books.nextId, form, upload);
    db.books := BookTable(db.books.rows + [row], db.books.nextId + 1);
    created := row;
  }

  method UpdateBook(db: Db, id: int, form: BookForm, upload: Option<string>) returns (updated: Option<Book>)
    requires db.Valid()
    modifies db`books
    ensures (db.books, updated) == Update(old(db.books), id, form, upload)
    ensures db.Valid()
  {
    UpdateKeepsKeys(db.books, id, form, upload);
    var pdfPath := UpdatedPdfPath(upload, form.pdfPath);
    db.books := db.books.(rows := OverwriteRows(db.books.rows, id, form, pdfPath));
    updated := FindBook(db.books.rows, id);
  }

  method DeleteBook(db: Db, id: int)
    requires db.Valid()
    modifies db`books
    ensures db.books == Delete(old(db.books), id)
    ensures db.Valid()
  {
    db.books := db.books.(rows := RemoveRows(db.books.rows, id));
  }

  method ShelfBorrowBook(db: Db, bookId: int) returns (response: ShelfResponse)
    requires db.Valid()
    modifies db`books
    ensures (response, db.books) == ShelfBorrow(old(db.books), bookId)
    ensures db.Valid()
  {
    ghost var after := ShelfBorrow(db.books, bookId).1;
    ShelfKeepsIds(db.books, bookId);
    assert after.Valid();
    var found := FindBook(db.books.rows, bookId);
    response := ShelfBorrowCheck(found);
    if response == Done {
      var newCopies := found.value.copies - 1;
      db.books := db.books.(rows := SetCopies(db.books.rows, bookId, newCopies));
    }
  }

  method ShelfReturnBook(db: Db, bookId: int) returns (response: ShelfResponse)
    requires db.Valid()
    modifies db`books
    ensures (response, db.books) == ShelfReturn(old(db.books), bookId)
    ensures db.Valid()
  {
    ghost var after := ShelfReturn(db.books, bookId).1;
    ShelfKeepsIds(db.books, bookId);
    assert after.Valid();
    var found := FindBook(db.books.rows, bookId);
    if found.None? {
      return ShelfBookNotFound;
    }
    var book := found.value;
    if book.isEbook {
      return EbookNotReturnable;
    }
    var newCopies := book.copies + 1;
    db.books := db.books.(rows := SetCopies(db.books.rows, bookId, newCopies));
    response := Done;
  }
}
