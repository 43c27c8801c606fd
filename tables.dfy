/** The relational store behind the handlers: one datatype per row kind, one
    value per table (its rows in insertion order and the next AUTO_INCREMENT
    id), and the database object whose table fields the handlers reassign. */
module Tables {
  import opened Wrappers

  /** A row of `books`. `copies` is whatever the catalog last wrote; only the
      lending paths keep it from going negative. */
  datatype Book = Book(
    id: nat,
    title: string,
    author: string,
    description: string,
    categoryId: Option<int>,
    isEbook: bool,
    pdfPath: Option<string>,
    copies: int)

  /** A row of `categories`. */
  datatype Category = Category(id: nat, name: string)

  /** `borrow_records.status`. */
  datatype LoanStatus = Borrowed | Returned

  /** A row of `borrow_records`; times are milliseconds since the epoch. */
  datatype BorrowRecord = BorrowRecord(
    id: nat,
    userId: int,
    bookId: int,
    borrowDate: int,
    returnDate: Option<int>,
    status: LoanStatus)

  /** `notifications.type`. */
  datatype NotificationKind = Reminder | Overdue | Test

  /** A row of `notifications`; `borrowId` is NULL for an administrator's test message. */
  datatype Notification = Notification(
    id: nat,
    userId: int,
    borrowId: Option<nat>,
    kind: NotificationKind,
    message: string,
    isRead: bool,
    createdAt: int)

  /** A row of `users`; `passwordHash` is the hasher's output, never the password. */
  datatype User = User(
    id: nat,
    name: string,
    email: string,
    passwordHash: string,
    verificationToken: Option<string>,
    isVerified: bool,
    role: string)

  /** The primary-key discipline of an AUTO_INCREMENT table: ids strictly
      increase in insertion order and stay below the next id to hand out. */
  ghost predicate IdsValid(ids: seq<nat>, nextId: nat) {
    && (forall i :: 0 <= i < |ids| ==> ids[i] < nextId)
    && (forall i, j :: 0 <= i < j < |ids| ==> ids[i] < ids[j])
  }

  function BookIds(rows: seq<Book>): (r: seq<nat>)
    ensures |r| == |rows| && forall i :: 0 <= i < |rows| ==> r[i] == rows[i].id
  {
    if rows == [] then [] else [rows[0].id] + BookIds(rows[1..])
  }

  function CategoryIds(rows: seq<Category>): (r: seq<nat>)
    ensures |r| == |rows| && forall i :: 0 <= i < |rows| ==> r[i] == rows[i].id
  {
    if rows == [] then [] else [rows[0].id] + CategoryIds(rows[1..])
  }

  function RecordIds(rows: seq<BorrowRecord>): (r: seq<nat>)
    ensures |r| == |rows| && forall i :: 0 <= i < |rows| ==> r[i] == rows[i].id
  {
    if rows == [] then [] else [rows[0].id] + RecordIds(rows[1..])
  }

  function NotificationIds(rows: seq<Notification>): (r: seq<nat>)
    ensures |r| == |rows| && forall i :: 0 <= i < |rows| ==> r[i] == rows[i].id
  {
    if rows == [] then [] else [rows[0].id] + NotificationIds(rows[1..])
  }

  function UserIds(rows: seq<User>): (r: seq<nat>)
    ensures |r| == |rows| && forall i :: 0 <= i < |rows| ==> r[i] == rows[i].id
  {
    if rows == [] then [] else [rows[0].id] + UserIds(rows[1..])
  }

  datatype BookTable = BookTable(rows: seq<Book>, nextId: nat) {
    ghost predicate Valid() { IdsValid(BookIds(rows), nextId) }
  }

  datatype CategoryTable = CategoryTable(rows: seq<Category>, nextId: nat) {
    ghost predicate Valid() { IdsValid(CategoryIds(rows), nextId) }
  }

  datatype RecordTable = RecordTable(rows: seq<BorrowRecord>, nextId: nat) {
    ghost predicate Valid() { IdsValid(RecordIds(rows), nextId) }
  }

  datatype NotificationTable = NotificationTable(rows: seq<Notification>, nextId: nat) {
    ghost predicate Valid() { IdsValid(NotificationIds(rows), nextId) }
  }

  datatype UserTable = UserTable(rows: seq<User>, nextId: nat) {
    ghost predicate Valid() { IdsValid(UserIds(rows), nextId) }
  }

  /** Appending a row that carries the next id keeps the key discipline. */
  lemma AppendKeepsIdsValid(ids: seq<nat>, nextId: nat)
    requires IdsValid(ids, nextId)
    ensures IdsValid(ids + [nextId], nextId + 1)
  {
  }

  /** A row placed before rows with larger ids keeps the key discipline. */
  lemma PrependKeepsIdsValid(id: nat, ids: seq<nat>, nextId: nat)
    requires IdsValid(ids, nextId) && id < nextId
    requires forall k :: 0 <= k < |ids| ==> id < ids[k]
    ensures IdsValid([id] + ids, nextId)
  {
    var r := [id] + ids;
    forall i, j | 0 <= i < j < |r|
      ensures r[i] < r[j]
    {
      assert r[j] == ids[j - 1];
      if i > 0 {
        assert r[i] == ids[i - 1];
      }
    }
  }

  /** `SELECT * FROM books WHERE id = ?` and its first row. */
  function FindBook(rows: seq<Book>, id: int): (r: Option<Book>)
    ensures r.Some? ==> r.value in rows && r.value.id == id
    ensures r.None? <==> forall b :: b in rows ==> b.id != id
  {
    if rows == [] then None
    else if rows[0].id == id then Some(rows[0])
    else FindBook(rows[1..], id)
  }

  /** `SELECT * FROM categories WHERE id = ?` and its first row. */
  function FindCategory(rows: seq<Category>, id: int): (r: Option<Category>)
    ensures r.Some? ==> r.value in rows && r.value.id == id
    ensures r.None? <==> forall c :: c in rows ==> c.id != id
  {
    if rows == [] then None
    else if rows[0].id == id then Some(rows[0])
    else FindCategory(rows[1..], id)
  }

  /** `SELECT * FROM users WHERE id = ?` and its first row. */
  function FindUser(rows: seq<User>, id: int): (r: Option<User>)
    ensures r.Some? ==> r.value in rows && r.value.id == id
    ensures r.None? <==> forall u :: u in rows ==> u.id != id
  {
    if rows == [] then None
    else if rows[0].id == id then Some(rows[0])
    else FindUser(rows[1..], id)
  }

  /** With unique ids, the lookup finds the one row that has the id. */
  lemma FindBookUnique(t: BookTable, b: Book)
    requires t.Valid() && b in t.rows
    ensures FindBook(t.rows, b.id) == Some(b)
  {
    var ids := BookIds(t.rows);
    var found := FindBook(t.rows, b.id).value;
    var i :| 0 <= i < |t.rows| && t.rows[i] == b;
    var j :| 0 <= j < |t.rows| && t.rows[j] == found;
    assert ids[i] == ids[j];
  }

  /** The database object: the handlers read its tables and assign new
      table values to its fields, one SQL statement at a time. */
  class Db {
    var books: BookTable
    var categories: CategoryTable
    var records: RecordTable
    var notifications: NotificationTable
    var users: UserTable

    ghost predicate Valid()
      reads this
    {
      books.Valid() && categories.Valid() && records.Valid() && notifications.Valid() && users.Valid()
    }

    /** A fresh, empty database; AUTO_INCREMENT ids start at 1. */
    constructor ()
      ensures Valid()
      ensures books == BookTable([], 1) && categories == CategoryTable([], 1)
      ensures records == RecordTable([], 1) && notifications == NotificationTable([], 1)
      ensures users == UserTable([], 1)
    {
      books := BookTable([], 1);
      categories := CategoryTable([], 1);
      records := RecordTable([], 1);
      notifications := NotificationTable([], 1);
      users := UserTable([], 1);
    }
  }
}
