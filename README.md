# Library management system: a Dafny model

This project models the core of a small library-management application. The
application has an Express/MySQL backend and React pages. The model covers:

- **Borrowing and returning** (`borrowController.js`): the four checks before a
  loan, the loan record, the shelf count moved by one, the return of an open
  loan, and the per-user and administrator loan listings with their joins.
- **The catalogue** (`booksController.js`): listing books with their category
  name, creating, updating and deleting books, and the older borrow and return
  handlers that write the shelf count back as a value read first.
- **Categories** (`categoriesController.js`): listing, and find-or-create by name.
- **Accounts** (`authController.js`): registration with the compensating delete
  when the verification mail fails, e-mail verification by token, and login.
- **Notifications**: the periodic sweep (`notificationJob.js`) that files one
  reminder and one overdue notice per loan, the user's listing and mark-read
  (`notificationController.js`), and the administrator's test notification
  (`routes/admin.js`).
- **AI insights** (`adminController.js`): the administrator guard, the
  extraction of the model's text and the split of that text into
  SUMMARY / RECOMMENDATIONS / TOP_BOOKS / KPI sections.
- **The React pages**:
  - `Home.jsx`: search, category filter, pagination, availability badge and
    what the Borrow button does.
  - `AdminDashboard.jsx`: the same filter, its statistics and chart data, and
    the insights payload.
  - `BorrowRecords.jsx`: the administrator's searchable loan table.
  - `MyBorrows.jsx`: a user's loans and their Return buttons.
  - `NotificationsPage.jsx`: the local mark-read and the pager.

The database is one object, `Tables.Db`. Its fields are the five tables, each a
sequence of rows together with the next AUTO_INCREMENT id. Every backend handler
that writes to a table is modelled twice:

- as a pure function from the old tables to a response and the new tables,
  about which the lemmas are proved;
- as a `method` on the `Db` object that performs the same statements and whose
  `ensures` ties the new state to that function.

The read-only handlers (`getAllBooks`, `getCategories`, `getUserBorrows`,
`getAllBorrows`, `login` and `getUserNotifications`) are modelled as pure
functions of the tables only. So is `aiInsights`, whose handler method works
on the model's response and reads no table.

The pages are pure functions of the data they fetched.

Clocks, random tokens, password hashing, the mailer and the language model are
parameters:

- `now` is the time in milliseconds;
- `token` is the generated verification token;
- `hash` and `checkPassword` stand for `bcrypt.hash` and `bcrypt.compare`;
- `mailSent` is whether the mail went out;
- `response` is what the language model answered.

Modules:

- `Wrappers`: Option.
- `Seqs`: filter, map, filter-map, a descending insertion sort, and the lemmas
  about them.
- `Text`: ASCII case mapping, `includes`, `trim`, `join` and `split(/\r?\n/)`.
- `Paging`: slice and page counts.
- `Tables`: the rows, the keyed tables and the `Db` class.
- One module per controller: `Lending`, `Catalog`, `Categories`, `Accounts`,
  `Sweep`, `Inbox` and `Insights`.
- One module per page: `BookSearch`, `Home`, `AdminDashboard`, `BorrowRecords`,
  `MyBorrows` and `NotificationsPage`.

## Model

| member | source | states |
|---|---|---|
| Tables.Db.constructor | backend/controllers/borrowController.js:25-28 | A fresh database has five empty tables whose AUTO_INCREMENT ids start at 1, and it satisfies the key discipline: ids are distinct and below the next id. |
| Tables.FindBook | backend/controllers/borrowController.js:10-11 | `SELECT * FROM books WHERE id=?` and its first row: a found row is in the table and has that id; nothing is found exactly when no row has the id. |
| Tables.FindCategory | backend/controllers/booksController.js:6-11 | The category lookup behind the `LEFT JOIN`: a found row has the id; nothing is found exactly when no category has it. |
| Tables.FindUser | backend/controllers/borrowController.js:103 | The user lookup behind `JOIN users`: a found row has the id; nothing is found exactly when no user has it. |
| Tables.FindBookUnique | backend/controllers/borrowController.js:10-11 | In a keyed table the lookup of a row's id finds exactly that row. |
| Tables.AppendKeepsIdsValid | backend/controllers/borrowController.js:25-28 | Inserting a row under the next id keeps the ids distinct and below the new next id. |
| Tables.PrependKeepsIdsValid | backend/controllers/booksController.js:97 | A row placed before rows with larger ids keeps the key discipline; it underpins the proof that a delete keeps the table keyed. |
| Lending.HasOpenLoan | backend/controllers/borrowController.js:17-22 | The open-loan query returns a row exactly when some record has that user, that book and status `borrowed`. |
| Lending.AddCopies | backend/controllers/borrowController.js:31 | `UPDATE books SET copies = copies + delta WHERE id=?`: the rows with that id gain `delta` copies; every other row and field is unchanged. |
| Lending.CloseLoans | backend/controllers/borrowController.js:55-58 | Every open loan of the pair gets the return date and status `returned`; no other record changes; afterwards the pair has no open loan. |
| Lending.OpenLoan | backend/controllers/borrowController.js:25-28 | The insert appends one `borrowed` record under the next id with the borrow time and no return date, and keeps the earlier records. |
| Lending.Borrow | backend/controllers/borrowController.js:4-38 | The answer is decided in source order, each case an if-and-only-if: book not found, then eBook, then `copies <= 0`, then already borrowed. Every refusal leaves both tables as they were. Success inserts the loan and takes one copy off that book only. |
| Lending.Return | backend/controllers/borrowController.js:41-68 | The return is refused exactly when the pair has no open loan, and the refusal changes nothing. Success closes the pair's loans and puts one copy back. Either way, no loan of the pair is open afterwards. The book itself is never looked up. |
| Lending.CopiesShiftedKeepsIds | backend/controllers/borrowController.js:31 | Shifting a shelf count keeps the books table keyed. |
| Lending.BorrowKeepsCopiesNonNegative | backend/controllers/borrowController.js:14 | Because the `copies <= 0` check precedes the decrement, a borrow never makes a shelf count negative. |
| Lending.BorrowKeepsSingleOpenLoan | backend/controllers/borrowController.js:17-28 | With at most one open loan per (user, book) before a borrow, there is at most one after it. |
| Lending.ReturnKeepsSingleOpenLoan | backend/controllers/borrowController.js:55-58 | A return only closes loans, so it never creates a second open loan for a pair. |
| Lending.OpenLoanKeepsIds | backend/controllers/borrowController.js:25-28 | Inserting a loan keeps the borrow records keyed. |
| Lending.BorrowKeepsIds | backend/controllers/borrowController.js:4-38 | A borrow keeps both tables keyed. |
| Lending.ReturnKeepsIds | backend/controllers/borrowController.js:41-68 | A return keeps both tables keyed. |
| Lending.BorrowPreservesInvariant | backend/controllers/borrowController.js:4-38 | A borrow preserves the ledger invariant: both tables keyed, shelf counts non-negative, at most one open loan per pair. |
| Lending.ReturnKeepsCopiesNonNegative | backend/controllers/borrowController.js:61 | A return only adds copies, so shelf counts stay non-negative. |
| Lending.ReturnPreservesInvariant | backend/controllers/borrowController.js:41-68 | A return preserves the ledger invariant. |
| Lending.AddCopiesInverse | backend/controllers/borrowController.js:31 | Adding `delta` copies and then `-delta` restores the books table (lines 31 and 61 undo each other). |
| Lending.CloseOnlyNewest | backend/controllers/borrowController.js:55-58 | When only the newest record is open for the pair, closing the pair's loans closes exactly that record. |
| Lending.BorrowThenReturn | backend/controllers/borrowController.js:4-68 | A successful borrow followed by a return of the same book is accepted. It restores the books table and leaves the pair without an open loan. The only trace is one closed record under the next id, with both times. |
| Lending.BorrowOkLedger | backend/controllers/borrowController.js:24-31 | A successful borrow had no open loan for the pair. It leaves exactly one new `borrowed` record and the shelf count one lower. |
| Lending.ReturnNewestLoan | backend/controllers/borrowController.js:47-61 | Returning a book whose only open loan is the newest record closes that record and puts one copy back. |
| Lending.BorrowBook | backend/controllers/borrowController.js:4-38 | The handler changes the books and records of the database exactly as `Borrow` does, and answers the same response. It requires and keeps the key discipline of every table of the database. |
| Lending.ReturnBook | backend/controllers/borrowController.js:41-68 | The handler changes the database exactly as `Return` does, and answers the same response. It requires and keeps the key discipline of every table of the database. |
| Lending.UserBorrowJoin | backend/controllers/borrowController.js:74-81 | One record yields a row exactly when it is the user's and its book exists. The row carries the record's id, dates and status, and the book's id, title, author, eBook flag, PDF path and copies. |
| Lending.UserBorrows | backend/controllers/borrowController.js:71-87 | `getUserBorrows` lists exactly the joined rows of that user's records whose book exists, newest borrow date first. It has one row per such record, and each row occurs as often as records join to it. |
| Lending.AllBorrowJoin | backend/controllers/borrowController.js:91-106 | One record yields a row exactly when its user and its book exist. The row carries the record's id, dates and status, the user's id, name and e-mail, and the book's id and title. |
| Lending.AllBorrows | backend/controllers/borrowController.js:89-113 | `getAllBorrows` lists exactly the joined rows of the records whose user and book exist, newest borrow date first. It has one row per such record, and each row occurs as often as records join to it. |
| Catalog.EbookFlag | backend/controllers/booksController.js:50 | The stored flag is set exactly when the submitted `is_ebook` is the string "true". |
| Catalog.UpdatedPdfPath | backend/controllers/booksController.js:68 | On update the stored path is chosen in this order: the uploaded file's name, else a non-empty submitted `pdf_path`, else NULL. |
| Catalog.FormRow | backend/controllers/booksController.js:70-84 | The row a form describes has the given id and path, the form's seven fields, and the flag set exactly for "true". |
| Catalog.Create | backend/controllers/booksController.js:36-62 | `createBook` appends the form's row under the next id, with the uploaded name or NULL as its path, and answers that row. |
| Catalog.CreateThenFind | backend/controllers/booksController.js:56-57 | The created book is found under its id, and the table stays keyed. |
| Catalog.OverwriteRows | backend/controllers/booksController.js:70-84 | `UPDATE books SET ... WHERE id=?` replaces exactly the rows with that id by the form's row, keeping their id. |
| Catalog.Update | backend/controllers/booksController.js:65-92 | `updateBook` overwrites the row, keeps the next id, and answers the row read back under that id. |
| Catalog.OverwriteKeepsIds | backend/controllers/booksController.js:70-84 | Overwriting keeps every row's id. |
| Catalog.UpdateKeepsKeys | backend/controllers/booksController.js:65-92 | An update keeps the table keyed. |
| Catalog.UpdateReadsBack | backend/controllers/booksController.js:86-87 | After updating an existing book, the row read back is the form's row with the chosen path. |
| Catalog.UpdateUnknownId | backend/controllers/booksController.js:65-92 | Updating an id no book has changes nothing and reads back nothing, though the handler still answers success. |
| Catalog.RemoveRows | backend/controllers/booksController.js:97 | The rows left by `DELETE FROM books WHERE id=?` are exactly the rows with another id. |
| Catalog.RemoveRowsKeepsIds | backend/controllers/booksController.js:97 | Deleting keeps the table keyed. |
| Catalog.Delete | backend/controllers/booksController.js:95-102 | `deleteBook` removes exactly the books with that id, after which the id is not found. It keeps the next id and the table keyed. |
| Catalog.CategoryNameOf | backend/controllers/booksController.js:7-9 | The joined `category_name` is present exactly when the book has a category id that exists, and it is that category's name. |
| Catalog.JoinCategories | backend/controllers/booksController.js:6-9 | The `LEFT JOIN` gives one listed row per book, each book with its category name. |
| Catalog.AllBooks | backend/controllers/booksController.js:4-17 | `getAllBooks` lists the joined rows in some order (a permutation), highest id first. |
| Catalog.AllBooksListsEveryBook | backend/controllers/booksController.js:6-11 | A book is in the table exactly when it appears in the listing with its category name. |
| Catalog.SetCopies | backend/controllers/booksController.js:123 | `UPDATE books SET copies=? WHERE id=?` sets the count on exactly the rows with that id. |
| Catalog.ShelfBorrowCheck | backend/controllers/booksController.js:112-119 | The older borrow's checks, in order and each an if-and-only-if: not found, eBook, no copies on the shelf, else done. |
| Catalog.ShelfBorrow | backend/controllers/booksController.js:105-129 | The older `borrowBook` answers its checks. Only on success does it write back the value read minus one, and it writes no loan record. |
| Catalog.ShelfReturn | backend/controllers/booksController.js:132-153 | The older `returnBook` refuses a missing book and an eBook, each an if-and-only-if, and a refusal changes nothing. Otherwise it writes back the value read plus one, with no upper bound. |
| Catalog.SetCopiesIsShift | backend/controllers/booksController.js:121-123 | On a keyed table, writing back the value read plus `delta` equals the ledger's `copies = copies + delta`. |
| Catalog.ShelfBorrowSound | backend/controllers/booksController.js:118-123 | The older borrow keeps shelf counts non-negative, and a success takes exactly one copy off. |
| Catalog.FindAfterSetCopies | backend/controllers/booksController.js:123 | After the write, the lookup finds the same row with the new count. |
| Catalog.SetCopiesUnchanged | backend/controllers/booksController.js:123 | Writing back the count every matching row already holds changes nothing. |
| Catalog.SetCopiesTwice | backend/controllers/booksController.js:123 | Of two writes to the same id, only the last counts. |
| Catalog.SetCopiesKeepsIds | backend/controllers/booksController.js:123 | Writing `copies` changes no id. |
| Catalog.ShelfKeepsIds | backend/controllers/booksController.js:105-153 | Both older shelf handlers keep the books table keyed. |
| Catalog.ShelfBorrowThenReturn | backend/controllers/booksController.js:105-153 | On a keyed table, the older return undoes a successful older borrow. |
| Catalog.ShelfReturnKeepsCopiesNonNegative | backend/controllers/booksController.js:145-147 | The older return keeps shelf counts non-negative. |
| Catalog.CreateBook | backend/controllers/booksController.js:36-62 | The handler changes the books table exactly as `Create` does and answers the created row. It requires and keeps the key discipline of every table of the database. |
| Catalog.UpdateBook | backend/controllers/booksController.js:65-92 | The handler changes the books table exactly as `Update` does and answers the row read back. It requires and keeps the key discipline of every table of the database. |
| Catalog.DeleteBook | backend/controllers/booksController.js:95-102 | The handler changes the books table exactly as `Delete` does. It requires and keeps the key discipline of every table of the database. |
| Catalog.ShelfBorrowBook | backend/controllers/booksController.js:105-129 | The handler changes the books table exactly as `ShelfBorrow` does. It requires and keeps the key discipline of every table of the database. |
| Catalog.ShelfReturnBook | backend/controllers/booksController.js:132-153 | The handler changes the books table exactly as `ShelfReturn` does. It requires and keeps the key discipline of every table of the database. |
| Categories.AllCategories | backend/controllers/categoriesController.js:6 | `SELECT * FROM categories ORDER BY id DESC` is a permutation of the rows in descending id order. |
| Categories.FindByName | backend/controllers/categoriesController.js:21 | A found category is in the table and has the name; nothing is found exactly when no category has it. |
| Categories.CreateCategory | backend/controllers/categoriesController.js:15-33 | The answer, each case an if-and-only-if: a missing or empty name is refused; an existing name answers its first row without an insert; otherwise the name is inserted under the next id and the new row is answered. |
| Categories.CreateCategoryIdempotent | backend/controllers/categoriesController.js:21-22 | Creating the same name twice answers the same row the second time and inserts nothing more. |
| Categories.FindByNameAppend | backend/controllers/categoriesController.js:25-26 | After inserting a name no row had, looking the name up finds the new row. |
| Categories.CreateCategoryKeepsInvariants | backend/controllers/categoriesController.js:15-33 | Creates keep names unique and the table keyed. |
| Categories.CreateCategoryKeepsIds | backend/controllers/categoriesController.js:15-33 | A create keeps the table keyed. |
| Categories.CreateCategoryHandler | backend/controllers/categoriesController.js:15-33 | The handler changes the categories table exactly as `CreateCategory` does. It requires and keeps the key discipline of every table of the database. |
| Accounts.FindByEmail | backend/controllers/authController.js:15-18 | A found user is in the table and has the address; nothing is found exactly when no user has it. |
| Accounts.FindByToken | backend/controllers/authController.js:67-70 | A found user holds the token; nothing is found exactly when no user holds it. A NULL token matches nothing. |
| Accounts.RemoveUser | backend/controllers/authController.js:52 | `DELETE FROM users WHERE id = ?` keeps exactly the users with another id. |
| Accounts.RemoveAppended | backend/controllers/authController.js:52 | Deleting the id of the just-inserted user, which no earlier user has, gives back the earlier rows. |
| Accounts.Register | backend/controllers/authController.js:7-62 | The answers, each an if-and-only-if and checked in source order: missing fields, address taken, mail failed. The first two change nothing. Success appends the new unverified user, with the hashed password and the token, under the next id. A failed mail deletes the row again but the id counter has moved on. |
| Accounts.MailFailureRestoresRows | backend/controllers/authController.js:49-53 | On a keyed table, a failed mail leaves the user rows exactly as before and only advances the id counter. |
| Accounts.RegisterKeepsInvariants | backend/controllers/authController.js:7-62 | Registration keeps the table keyed, e-mail addresses unique, and tokens held only by unverified users. |
| Accounts.RegisterKeepsIds | backend/controllers/authController.js:7-62 | A registration, completed or undone after a failed mail, keeps the table keyed. |
| Accounts.MarkVerified | backend/controllers/authController.js:84-87 | The update sets the verified flag and clears the token on exactly the rows with that id. |
| Accounts.VerifyEmail | backend/controllers/authController.js:63-95 | Each answer is an if-and-only-if. "token erased" when no user holds the token, and "already verified" when the holder is verified; neither changes anything. Otherwise the holder is marked verified and loses the token. |
| Accounts.AlreadyVerifiedUnreachable | backend/controllers/authController.js:79-81 | While only unverified users hold tokens, "already verified" can never be answered. |
| Accounts.VerifyKeepsInvariants | backend/controllers/authController.js:63-95 | Verification keeps the table keyed, addresses unique, and tokens only on unverified users. |
| Accounts.VerifyKeepsIds | backend/controllers/authController.js:63-95 | Verification keeps the table keyed. |
| Accounts.MarkVerifiedKeeps | backend/controllers/authController.js:84-87 | The update changes no id and no address, and leaves no verified user with a token. |
| Accounts.VerifyTwiceFails | backend/controllers/authController.js:72-87 | When one user holds the token, the link works once; a second use answers "token erased". |
| Accounts.NoTokenAfterMark | backend/controllers/authController.js:84-87 | Marking the only holder of a token verified leaves nobody holding it. |
| Accounts.Login | backend/controllers/authController.js:98-140 | An unknown address is refused. An unverified account is refused whatever the password. A verified account is accepted exactly when the password checks against its hash, with claims (id, role) and the public fields (id, name, email, role). |
| Accounts.UnverifiedRefusedBeforePassword | backend/controllers/authController.js:112-117 | The unverified refusal does not depend on the password or on the password comparison. |
| Accounts.RegisterVerifyLogin | backend/controllers/authController.js:7-140 | On a fresh address and token, the user journey succeeds end to end: register, verify the mailed token, and log in with the password. |
| Accounts.RegisterFresh | backend/controllers/authController.js:11-33 | A complete registration with a free address, when the mail goes out, appends exactly the new user. |
| Accounts.LoginNewest | backend/controllers/authController.js:102-134 | Logging in to the newest, verified account, whose address no earlier account has, succeeds with its password. |
| Accounts.VerifyNewest | backend/controllers/authController.js:67-87 | Verifying the newest account's token, held by nobody else, verifies just that account. |
| Accounts.FindByTokenAppend | backend/controllers/authController.js:67-70 | A token only the appended user holds finds that user. |
| Accounts.FindByEmailAppend | backend/controllers/authController.js:102-105 | An address only the appended user has finds that user. |
| Accounts.RegisterUser | backend/controllers/authController.js:7-62 | The handler changes the users table exactly as `Register` does. It requires and keeps the key discipline of every table of the database. |
| Accounts.VerifyEmailHandler | backend/controllers/authController.js:63-95 | The handler changes the users table exactly as `VerifyEmail` does. It requires and keeps the key discipline of every table of the database. |
| Sweep.ElapsedDays | backend/services/notificationJob.js:22 | `Math.floor((now - borrowDate) / day)`: the whole number of days, rounding toward negative infinity. |
| Sweep.Classify | backend/services/notificationJob.js:26-33 | Each case is an if-and-only-if: fewer than 3 days gives nothing, 3 or 4 days a reminder, 5 days or more an overdue notice. |
| Sweep.ClassifyInMilliseconds | backend/services/notificationJob.js:22-33 | The same classification stated on the elapsed milliseconds. |
| Sweep.MessageNamesTitle | backend/services/notificationJob.js:28-32 | Both messages name the book's title. |
| Sweep.DueJoin | backend/services/notificationJob.js:11-16 | A record joins exactly when it is `borrowed` and its book exists, and carries the loan id, the user, the book's title and the borrow date. |
| Sweep.DueRows | backend/services/notificationJob.js:11-16 | The tick's query lists exactly the joined open loans whose book exists. It has one row per such record, and each row occurs as often as records join to it. |
| Sweep.HasNotice | backend/services/notificationJob.js:39-41 | The `NOT EXISTS` subquery finds a row exactly when some notification has that loan and that kind. |
| Sweep.SweepRow | backend/services/notificationJob.js:20-43 | One row: no kind, or a kind that loan already has, changes nothing. Otherwise the notice is appended under the next id. |
| Sweep.SweepExtends | backend/services/notificationJob.js:20-44 | The tick only appends: earlier notifications stay in place, and the id counter moves by the number appended. |
| Sweep.HasNoticeKept | backend/services/notificationJob.js:34-43 | A notice present before the tick is present after it. |
| Sweep.SweepRowKeepsInvariants | backend/services/notificationJob.js:34-43 | One row keeps the table keyed and at most one notice per (loan, kind). |
| Sweep.SweepKeepsInvariants | backend/services/notificationJob.js:20-44 | The whole tick keeps the table keyed and at most one notice per (loan, kind). |
| Sweep.SweepRowKeepsIds | backend/services/notificationJob.js:34-43 | One row keeps the notifications keyed. |
| Sweep.SweepKeepsIds | backend/services/notificationJob.js:20-44 | The whole tick keeps the notifications keyed. |
| Sweep.SweepCovers | backend/services/notificationJob.js:20-44 | After the tick, every classified row has its notice. |
| Sweep.SweepCoveredIsIdentity | backend/services/notificationJob.js:34-43 | A tick over rows that all already have their notices changes nothing. |
| Sweep.SweepIdempotent | backend/services/notificationJob.js:20-44 | A second tick with the same rows and time changes nothing. |
| Sweep.ReminderThenOverdue | backend/services/notificationJob.js:26-43 | A loan seen once at 3-4 days and later at 5 or more days ends up with both a reminder and an overdue notice. |
| Sweep.SweepAddsOnlyNotices | backend/services/notificationJob.js:20-44 | Every appended notification is the notice of some row of the tick, for the kind its age gives. |
| Sweep.OverdueFirstGetsNoReminder | backend/services/notificationJob.js:26-33 | A loan first seen at 5 days or more, with no reminder yet, never gets a reminder. |
| Sweep.RunTick | backend/services/notificationJob.js:11-44 | The scheduled callback changes the notifications exactly as the tick over the query's rows does. It requires and keeps the key discipline of every table of the database. |
| Inbox.UserNotifications | backend/controllers/notificationController.js:7-10 | The listing holds exactly that user's notifications, each as often as it is stored, newest `created_at` first. |
| Inbox.MarkAsRead | backend/controllers/notificationController.js:18-27 | `UPDATE notifications SET is_read=1 WHERE id=?` sets the flag on exactly the rows with that id and changes nothing else. |
| Inbox.MarkRows | backend/controllers/notificationController.js:21 | The same update, row by row. |
| Inbox.MarkAsReadIdempotent | backend/controllers/notificationController.js:21 | Marking twice is marking once. |
| Inbox.MarkUnknownIsNoop | backend/controllers/notificationController.js:21-22 | Marking an id no notification has changes nothing, though the handler answers success. |
| Inbox.MarkAsReadKeepsInvariants | backend/controllers/notificationController.js:21 | Marking keeps the table keyed and the sweep's guard intact: exactly the same (loan, kind) notices exist. |
| Inbox.TestMessage | backend/routes/admin.js:16 | The message is the submitted one when it is non-empty, else the default text; it is never empty. |
| Inbox.SendTest | backend/routes/admin.js:14-18 | The insert appends one unread `test` notification without a loan under the next id, and answers that id. |
| Inbox.SendTestEffect | backend/routes/admin.js:9-23 | The table stays keyed, and only the new row carries the answered id. The notices the sweep looks for are exactly those that were there, so the test notification never blocks a reminder. |
| Inbox.OnlyNewRowHasNextId | backend/routes/admin.js:18 | In a keyed table, the row appended under the next id is the only one with it. |
| Inbox.LoanlessKeepsNotices | backend/routes/admin.js:15 | Appending a notification without a loan changes nothing the sweep looks for. |
| Inbox.MarkNotificationRead | backend/controllers/notificationController.js:18-27 | The handler changes the notifications exactly as `MarkAsRead` does. It requires and keeps the key discipline of every table of the database. |
| Inbox.SendTestNotification | backend/routes/admin.js:9-23 | The handler changes the notifications exactly as `SendTest` does and answers the new id. It requires and keeps the key discipline of every table of the database. |
| Insights.Initial | backend/controllers/adminController.js:101 | Each of the four headings begins with its own letter, so no two can match at the same place. |
| Insights.FirstTruthy | backend/controllers/adminController.js:17-28 | The result is present exactly when some candidate is truthy, and it is the first truthy candidate. |
| Insights.FirstOfThree | backend/controllers/adminController.js:19-28 | The three candidate locations are tried in source order. |
| Insights.ExtractText | backend/controllers/adminController.js:15-31 | A null response gives null. Otherwise it gives the first truthy of `output_text`, `outputs[0].content.text[0].text` and `result.output_text`, falling back to the rendered response. |
| Insights.SpaceRun | backend/controllers/adminController.js:101 | The `\s*` of the expression measures a run that stays inside the line. |
| Insights.SpaceRunIsRun | backend/controllers/adminController.js:101 | The measured run is all white space and is maximal. |
| Insights.SpaceRunExact | backend/controllers/adminController.js:101 | Any maximal run of white space is the one measured. |
| Insights.StartsFoldUpper | backend/controllers/adminController.js:101 | Case-insensitive matching of a keyword is equality after upper-casing the covered stretch. |
| Insights.KeywordFrom | backend/controllers/adminController.js:101 | The keyword found, if any, is one the line continues with; none is found exactly when no keyword fits. |
| Insights.KeywordsExclusive | backend/controllers/adminController.js:101 | At most one keyword fits at any place. |
| Insights.MatchHeading | backend/controllers/adminController.js:101 | The match of `^\s*(SUMMARY\|RECOMMENDATIONS\|TOP_BOOKS\|KPI)\s*[:\-]?` (case-insensitive) never extends past the line. |
| Insights.HeadingAt | backend/controllers/adminController.js:101 | The match after the leading white space stays inside the line. |
| Insights.HeadingFor | backend/controllers/adminController.js:101 | The match given the keyword found stays inside the line. |
| Insights.SeparatorAfter | backend/controllers/adminController.js:101 | The `\s*[:\-]?` after the keyword ends inside the line. |
| Insights.SeparatorEnd | backend/controllers/adminController.js:101 | The optional `:` or `-` is at most one character. |
| Insights.HeadingWhen | backend/controllers/adminController.js:101-102 | A line is a heading exactly when, after its leading white space, it continues with one of the keywords in any case; the key reported is that keyword. |
| Insights.HeadingLine | backend/controllers/adminController.js:101 | How a heading line splits: white space, the keyword in any case, white space, an optional separator. The match ends after the separator. |
| Insights.KeywordHeading | backend/controllers/adminController.js:101 | White space followed by a keyword in any case is a match for that keyword. |
| Insights.KeywordHeadingAt | backend/controllers/adminController.js:101 | The match found after the leading white space is that keyword's. |
| Insights.MatchAfterSpaces | backend/controllers/adminController.js:101 | The match skips the leading white space. |
| Insights.SeparatorAfterSpaces | backend/controllers/adminController.js:101 | The separator is looked for where the white space after the keyword ends. |
| Insights.NotHeadingLine | backend/controllers/adminController.js:101-108 | A line whose first non-blank text is none of the keywords is not a heading. |
| Insights.HeadingAtFound | backend/controllers/adminController.js:101 | Once the keyword is found, the match is that keyword's and ends after its separator. |
| Insights.SeparatorAfterRun | backend/controllers/adminController.js:101 | The separator follows the measured white-space run. |
| Insights.InitialNotSpace | backend/controllers/adminController.js:101 | A keyword's first letter is not white space, so `\s*` cannot swallow it. |
| Insights.KeyListed | backend/controllers/adminController.js:101 | Every key is in the alternation. |
| Insights.KeywordFound | backend/controllers/adminController.js:101 | A keyword the line continues with is the one found. |
| Insights.Kept | backend/controllers/adminController.js:105-106 | A heading line keeps at most one entry: the trimmed remainder after the match, and only when it is not empty. |
| Insights.ReadLine | backend/controllers/adminController.js:101-109 | A line is read as a heading exactly when it matches, with its key and what it keeps; otherwise as the line itself. |
| Insights.ReadLines | backend/controllers/adminController.js:97-100 | Every line is read, in order. |
| Insights.ReadPlainLines | backend/controllers/adminController.js:107-108 | Lines none of which is a heading are read as plain lines. |
| Insights.Step | backend/controllers/adminController.js:100-110 | One iteration keeps the current bucket present. A heading switches to its bucket, emptied and holding what the line kept; a plain line is pushed onto the current bucket. |
| Insights.Parse | backend/controllers/adminController.js:96-110 | After any number of lines, the current bucket and `raw` are present. |
| Insights.ParseSnoc | backend/controllers/adminController.js:100-110 | One more line is one more iteration. |
| Insights.SectionsHaveHeadings | backend/controllers/adminController.js:103-104 | A section bucket exists only for a heading some line carried. |
| Insights.Extend | backend/controllers/adminController.js:108 | Appending lines to the current bucket changes no other bucket. |
| Insights.ExtendNothing | backend/controllers/adminController.js:108 | Appending nothing leaves the state as it is. |
| Insights.ExtendStep | backend/controllers/adminController.js:108 | A plain line extends the current bucket by one line. |
| Insights.PlainLinesAppend | backend/controllers/adminController.js:107-108 | Lines without a heading go, in order, to the end of the current bucket. |
| Insights.RawFrozen | backend/controllers/adminController.js:98-110 | Once a heading has been seen, `raw` never changes again. |
| Insights.PlainLinesGoToRaw | backend/controllers/adminController.js:98-108 | A text without headings goes entirely, in order, to `raw`. |
| Insights.ExtendRaw | backend/controllers/adminController.js:98-99 | Extending the empty `raw` bucket gives the lines. |
| Insights.RawStopsAtFirstHeading | backend/controllers/adminController.js:98-110 | `raw` holds exactly the lines before the first heading. |
| Insights.LastHeadingWins | backend/controllers/adminController.js:103-108 | A later heading for the same key empties its bucket. The bucket ends with what the last such heading kept, followed by the plain lines after it. |
| Insights.SectionText | backend/controllers/adminController.js:112-115 | `(byHeading[key] \|\| []).join("\n").trim() \|\| null`. A missing bucket gives null. A present value is the non-empty trimmed join. Null otherwise means the join was all white space. |
| Insights.AbsentHeadingIsNull | backend/controllers/adminController.js:112-115 | A section whose heading no line carried is null. |
| Insights.OneLineSection | backend/controllers/adminController.js:105-115 | A last heading that keeps the rest of its line gives that trimmed text as its section. |
| Insights.TrimIdempotent | backend/controllers/adminController.js:105 | Trimming trimmed text changes nothing. |
| Insights.ReadLinesSnoc | backend/controllers/adminController.js:100 | Reading one more line appends its reading. |
| Insights.BucketLines | backend/controllers/adminController.js:96-110 | The handler's loop over the lines builds exactly the buckets of `Parse`. |
| Insights.Sections | backend/controllers/adminController.js:93-116 | Every section is null or trimmed non-empty text, and `raw` is the extracted text. |
| Insights.AiInsights | backend/controllers/adminController.js:33-118 | A non-administrator is refused. An administrator gets "no output" exactly when the text is null or empty. Otherwise the insights carry the non-empty extracted text as `raw` and four clean sections. |
| Insights.GuardBeforeModelCall | backend/controllers/adminController.js:35-38 | A non-administrator's answer does not depend on the model's response. |
| Insights.NoHeadingsNoSections | backend/controllers/adminController.js:93-116 | A text without headings gives four null sections beside the whole text. |
| Insights.AiInsightsHandler | backend/controllers/adminController.js:33-118 | The handler answers what `AiInsights` does. |
| Seqs.Filter | frontend/src/pages/Home.jsx:71-77 | `filter` (and a `WHERE` clause) gives no more elements than it is given, and holds exactly the elements that pass. |
| Seqs.FilterMultiset | frontend/src/pages/Home.jsx:71-77 | A passing element occurs in the result as often as in the input, and a failing one not at all. |
| Seqs.FilterIsSubsequence | frontend/src/pages/Home.jsx:71-77 | `filter` keeps the input's order. |
| Seqs.Map | frontend/src/pages/NotificationsPage.jsx:44 | `map` keeps the length and puts the image of element `i` at index `i`. |
| Seqs.FilterMap | backend/controllers/borrowController.js:76-78 | A `JOIN` with a `WHERE` gives one row per record that joins, and holds exactly the images of those records. |
| Seqs.FilterMapCount | backend/controllers/borrowController.js:76-78 | The joined rows are as many as the records that join, and each row occurs as often as records join to it. |
| Seqs.InsertDesc | backend/controllers/categoriesController.js:6 | Inserting into a list sorted by descending key keeps it sorted, adds exactly that element and puts it or the old head first. |
| Seqs.SortDesc | backend/controllers/categoriesController.js:6 | `ORDER BY ... DESC` gives a list sorted by descending key that is a permutation of the rows. |
| Seqs.SortMapCommute | frontend/src/pages/NotificationsPage.jsx:37-45 | Sorting and then changing every element without changing its key is the same as changing and then sorting. |
| Seqs.FilterMapCommute | frontend/src/pages/NotificationsPage.jsx:37-45 | Filtering and then changing every element, with a change that does not affect the filter, is the same as changing and then filtering. |
| Text.ToLower | frontend/src/pages/Home.jsx:73-76 | `toLowerCase` keeps the length and lowers each ASCII letter. |
| Text.ToUpper | backend/controllers/adminController.js:103 | `toUpperCase` keeps the length and raises each ASCII letter. |
| Text.ToLowerIdempotent | frontend/src/pages/Home.jsx:73-76 | Lowering twice is lowering once. |
| Text.Includes | frontend/src/pages/Home.jsx:73-74 | `includes` holds exactly when the needle occurs at some index. |
| Text.IncludesFrom | frontend/src/pages/Home.jsx:73-74 | The search from an index holds exactly when the needle occurs at that index or later. |
| Text.IncludesEmpty | frontend/src/pages/Home.jsx:73-74 | Every string includes the empty search. |
| Text.IncludesMiddle | frontend/src/pages/Home.jsx:73-74 | A string includes every part it is built from. |
| Text.LeadingSpaces | backend/controllers/adminController.js:105 | The count of leading white-space characters: all of them are white space, and the character after them is not. |
| Text.TrailingStart | backend/controllers/adminController.js:105 | Where trailing white space begins: everything from there is white space, and the character before it is not. |
| Text.TrimStart | backend/controllers/adminController.js:105 | Dropping leading white space leaves a suffix that does not start with white space. |
| Text.TrimEnd | backend/controllers/adminController.js:105 | Dropping trailing white space leaves a prefix that does not end with white space. |
| Text.Trim | backend/controllers/adminController.js:105 | `trim` gives an infix, cut off only at white space, that neither starts nor ends with white space. |
| Text.TrimComposes | backend/controllers/adminController.js:105 | Cutting leading and then trailing white space leaves an infix with only white space around it and non-space ends. |
| Text.TrimEmpty | backend/controllers/adminController.js:112-115 | Only all-white-space text trims to nothing. |
| Text.SplitLines | backend/controllers/adminController.js:97 | `split(/\r?\n/)` gives at least one piece, and no piece holds a line feed. |
| Text.SplitLinesCRLF | backend/controllers/adminController.js:97 | A "\r\n" ends a line just as "\n" does: the piece before it is the line without the carriage return, and the rest splits on its own. |
| Text.SplitLinesJoin | backend/controllers/adminController.js:97 | For text without carriage returns, joining the pieces with "\n" gives the text back. |
| Text.JoinSnoc | backend/controllers/adminController.js:112-115 | Joining one more part puts the separator between the joined text and the new part. |
| Paging.CeilDiv | frontend/src/pages/MyBorrows.jsx:52 | `Math.ceil(n / size)` is the least page count whose pages hold `n` items. |
| Paging.ClampedPageCount | frontend/src/pages/Home.jsx:82 | `Math.max(1, Math.ceil(n / size))` is at least 1 and at least the ceiling. An empty list has one page. Otherwise the last page is non-empty. |
| Paging.SliceIndex | frontend/src/pages/Home.jsx:81 | `slice` clamps an index to the length. |
| Paging.Slice | frontend/src/pages/Home.jsx:81 | `xs.slice(start, end)` for non-negative bounds is the clamped stretch. |
| Paging.PageOf | frontend/src/pages/Home.jsx:79-81 | Page `p` shows the items from `(p-1)*size` to `p*size`, clamped. |
| Paging.PageContents | frontend/src/pages/Home.jsx:79-81 | A page holds at most `size` items, and its `k`-th item is item `(p-1)*size + k`. |
| Paging.Window | frontend/src/pages/Home.jsx:81 | A clamped stretch holds at most its width. |
| Paging.PageBeyondLast | frontend/src/pages/BorrowRecords.jsx:41-42 | A page past the last one is empty. |
| Paging.PagesPrefix | frontend/src/pages/Home.jsx:79-81 | Pages `1..count` together are the first `count*size` items. |
| Paging.PagesCoverAll | frontend/src/pages/Home.jsx:79-82 | Once the count reaches the ceiling, the pages together are exactly the list, each item once and in order. |
| Paging.ItemOnItsPage | frontend/src/pages/MyBorrows.jsx:49-52 | Item `i` is on page `i / size + 1`, which is one of the numbered pages. |
| BookSearch.FilterBooks | frontend/src/pages/Home.jsx:71-77 | The filter keeps, in listing order, exactly the books whose title or author contains the search ignoring case and whose category matches (or no category is selected), each as often as in the listing. |
| BookSearch.EmptySearchShowsAll | frontend/src/pages/Home.jsx:71-77 | An empty search with no category shows every book. |
| BookSearch.TitleFindsBook | frontend/src/pages/Home.jsx:73 | Searching a book's whole title, with no category, shows it. |
| BookSearch.FilterIgnoresCase | frontend/src/pages/Home.jsx:73-76 | Searches and selections that differ only in letter case show the same books. |
| BookSearch.CategoryNarrows | frontend/src/pages/Home.jsx:75-76 | Selecting a category only narrows what the search alone shows. |
| Home.PagesShowFiltered | frontend/src/pages/Home.jsx:79-82 | There is always at least one page, and exactly one when nothing passes the filter. A page shows at most eight books. The numbered pages together show every filtered book once, in order. |
| Home.HandleBorrow | frontend/src/pages/Home.jsx:49-69 | Each action is an if-and-only-if. A logged-out user is asked to log in. For eBooks, one with a PDF opens it and one without gets "No PDF uploaded". A physical book sends a borrow request with the book's id and the user's id. |
| Home.AvailableRequestIsGranted | frontend/src/pages/Home.jsx:58-62 | A request the page sends for a book it badges "Available", by a user without an open loan of it, is granted by the borrow endpoint. |
| Home.UnavailableRequestIsRefused | frontend/src/pages/Home.jsx:308-310 | A request for a physical book badged "Unavailable" is refused for lack of copies. |
| AdminDashboard.CurrentBooks | frontend/src/pages/AdminDashboard.jsx:137-138 | The slice from `page*3 - 3` to `page*3` is page `page` of three books. |
| AdminDashboard.PagesShowFiltered | frontend/src/pages/AdminDashboard.jsx:137-139 | There is always at least one page, and exactly one when nothing passes. A page holds at most three books. The numbered pages together show every filtered book. |
| AdminDashboard.BadgesDisagreeOnlyForEbooks | frontend/src/pages/AdminDashboard.jsx:290-292 | The dashboard's badge (`is_ebook \|\| copies > 0`) and the home page's badge differ exactly for eBooks without copies. |
| AdminDashboard.PhysicalCount | frontend/src/pages/AdminDashboard.jsx:147-148 | `books.length - ebookCount` is the number of books that are not eBooks; the eBook and physical counts add up to the number of books. |
| AdminDashboard.LowCopyBooks | frontend/src/pages/AdminDashboard.jsx:156 | The low-copy list has one entry per book with fewer than 3 copies, in the listing's order, and each entry is that book's (title, copies). |
| AdminDashboard.BooksPerCategory | frontend/src/pages/AdminDashboard.jsx:142-145 | One bar per category, in order, each with the category's name and the number of books whose `category_name` is that name. |
| AdminDashboard.BarsAddUp | frontend/src/pages/AdminDashboard.jsx:142-145 | With unique category names, the bars add up to the number of books that belong to a listed category. |
| AdminDashboard.CategoriesNeedingBooks | frontend/src/pages/AdminDashboard.jsx:157-160 | The needing-books list is the bars with fewer than 5 books, in order, and holds exactly those, each as often as among the bars. |
| AdminDashboard.InsightsPayload | frontend/src/pages/AdminDashboard.jsx:83-103 | The statistics count books, categories, loans, eBooks (as the eBook count) and physical books, which add up to all books, and low-copy books. The book entries keep each listed book's id, title, author, copies and eBook flag with checkouts 0; a present non-empty category name is kept and a missing or empty one reads "Uncategorized". The categories pass through, and only the first 500 loans (or all, if fewer) are sent. |
| BorrowRecords.Records | frontend/src/pages/BorrowRecords.jsx:26-34 | A non-administrator's page holds no records. An administrator's page holds the fetched list after a successful response. |
| BorrowRecords.Filtered | frontend/src/pages/BorrowRecords.jsx:36-39 | The search keeps, in order, exactly the records whose book title or user name contains it, ignoring case, each as often as in the fetched list. |
| BorrowRecords.EmptySearchKeepsAll | frontend/src/pages/BorrowRecords.jsx:36-39 | An empty search keeps every record. |
| BorrowRecords.PagesShowFiltered | frontend/src/pages/BorrowRecords.jsx:41-42 | A page holds at most ten records, and the numbered pages together hold every matching record. The page count is 0 exactly when nothing matches, since there is no clamp to 1. |
| BorrowRecords.Render | frontend/src/pages/BorrowRecords.jsx:36-44 | The page is "Unauthorized" exactly for non-administrators; otherwise it shows the current page of the filtered records. |
| MyBorrows.PagesShowAll | frontend/src/pages/MyBorrows.jsx:49-52 | A page holds at most ten loans, and the numbered pages together hold every loan. |
| MyBorrows.ReturnAction | frontend/src/pages/MyBorrows.jsx:130-132 | A Return button is offered exactly for `borrowed` rows, and it names the row's book. |
| MyBorrows.OfferedReturnIsAccepted | frontend/src/pages/MyBorrows.jsx:37-46 | A Return button on a row of the user's own listing names a book the user has an open loan of, so the return endpoint accepts it. |
| NotificationsPage.MarkRead | frontend/src/pages/NotificationsPage.jsx:43-45 | The local update keeps the list's length and order. It sets exactly the entries with that id as read, and changes no other field. |
| NotificationsPage.MarkReadIsServerMark | frontend/src/pages/NotificationsPage.jsx:37-45 | The page updates its copy exactly as the server updates its table. |
| NotificationsPage.MarkReadIdempotent | frontend/src/pages/NotificationsPage.jsx:43-45 | Marking twice is marking once. |
| NotificationsPage.MarkReadMatchesRefetch | frontend/src/pages/NotificationsPage.jsx:37-45 | After the server marks a notification read, the page's copy updated locally equals the list a fresh fetch would return, up to the order of notifications with equal `created_at`. |
| NotificationsPage.PagesShowAll | frontend/src/pages/NotificationsPage.jsx:55-58 | A page holds at most ten notifications, and the numbered pages together hold all of them. The pager (line 174) shows exactly when there are more than ten. |
| NotificationsPage.MarkReadRemovesAction | frontend/src/pages/NotificationsPage.jsx:141-143 | After marking, no entry with that id offers "Mark as read"; every other entry offers it as before. |

Helpers without a contract of their own are covered by the rows of the
members whose contracts mention them:

- `Sweep.Sweep` (backend/services/notificationJob.js:20-44), the tick as a fold
  of `SweepRow` over the rows, is what `Sweep.SweepExtends`,
  `Sweep.SweepCovers`, `Sweep.SweepIdempotent`, `Sweep.SweepAddsOnlyNotices`,
  `Sweep.SweepKeepsInvariants` and `Sweep.RunTick` speak about.
- `Sweep.Message` (notificationJob.js:28, 32) belongs to
  `Sweep.MessageNamesTitle`; `Sweep.Notice` (notificationJob.js:36-42) to
  `Sweep.SweepRow`; `Sweep.IsDue` and `Sweep.DueJoinOf` (notificationJob.js:11-16)
  to `Sweep.DueRows`.
- `Seqs.HasImage` and `Seqs.MapsTo` belong to `Seqs.FilterMapCount`; the other
  `Seqs` lemmas (`MapAppend`, `FilterKeepsAll`, `FilterKeepsNone`,
  `FilterPartition`, `FilterSnoc`, `FilterCongruent`, `FilterDisjointUnion`,
  `FilterMapSnoc`, the `InsertMap` and `Sorted` steps, `MapCons`, `MapTail`,
  `ConsMultiset`, `SameElements`) are list laws used in the proofs of the rows
  above.
- `Text.Join` (adminController.js:112-115) belongs to `Text.JoinSnoc` and
  `Text.SplitLinesJoin`; `Text.IsSpace` (adminController.js:105) to
  `Text.TrimStart`, `Text.TrimEnd` and `Text.Trim`.
- `Insights.ResultText` (adminController.js:28), `Insights.NestedText`
  (adminController.js:21-26) and `Insights.Truthy` (adminController.js:19, 28)
  belong to `Insights.ExtractText`; `Insights.IsAdmin`
  (adminController.js:36) to `Insights.AiInsights` and
  `Insights.GuardBeforeModelCall`.
- `Home.CurrentBooks` and `Home.TotalPages` (Home.jsx:79-82) belong to
  `Home.PagesShowFiltered`; `Home.ShownAvailable` (Home.jsx:308-310) to
  `Home.UnavailableRequestIsRefused` and
  `AdminDashboard.BadgesDisagreeOnlyForEbooks`; `Home.LoggedIn` (Home.jsx:50)
  and `Home.HasPdf` (Home.jsx:53) to `Home.HandleBorrow`.
- `AdminDashboard.TotalPages` (AdminDashboard.jsx:139) belongs to
  `AdminDashboard.PagesShowFiltered`; `AdminDashboard.ShownAvailable`
  (AdminDashboard.jsx:290-292) to `AdminDashboard.BadgesDisagreeOnlyForEbooks`;
  `AdminDashboard.EbookCount` (AdminDashboard.jsx:147) to
  `AdminDashboard.PhysicalCount` and `AdminDashboard.InsightsPayload`;
  `AdminDashboard.CategoryLabel` and `AdminDashboard.PayloadBookOf`
  (AdminDashboard.jsx:92-100) to `AdminDashboard.InsightsPayload`.
- `BookSearch.Shown` and `BookSearch.ContainsIgnoringCase` (Home.jsx:71-77)
  belong to `BookSearch.FilterBooks`; `BorrowRecords.Matches`
  (BorrowRecords.jsx:36-39) to `BorrowRecords.Filtered`;
  `BorrowRecords.IsAdmin` (BorrowRecords.jsx:27, 44) to `BorrowRecords.Records`
  and `BorrowRecords.Render`; `BorrowRecords.Paginated` and
  `BorrowRecords.TotalPages` (BorrowRecords.jsx:41-42) to
  `BorrowRecords.PagesShowFiltered` and `BorrowRecords.Render`, whose answer
  is the `BorrowRecords.View` datatype.
- `MyBorrows.CurrentBorrows` and `MyBorrows.TotalPages` (MyBorrows.jsx:51-52)
  belong to `MyBorrows.PagesShowAll`.
- `NotificationsPage.Marked` (NotificationsPage.jsx:44) belongs to
  `NotificationsPage.MarkRead`; `NotificationsPage.CurrentNotifications`,
  `NotificationsPage.TotalPages` and `NotificationsPage.ShowsPager`
  (NotificationsPage.jsx:57-58, 174) to `NotificationsPage.PagesShowAll`;
  `NotificationsPage.OffersMarkRead` (NotificationsPage.jsx:141) to
  `NotificationsPage.MarkReadRemovesAction`.
- `Accounts.Missing` (authController.js:11) and `Accounts.NewUser`
  (authController.js:30-33) belong to the `Accounts.Register` rows.
- `Lending.IsOpenLoan` (borrowController.js:17-22) belongs to `Lending.Borrow`
  and `Lending.Return`; `Lending.UserJoin`, `Lending.IsUserLoan` and
  `Lending.UserBorrowDate` (borrowController.js:74-81) to
  `Lending.UserBorrows`; `Lending.AllJoin`, `Lending.IsListedLoan` and
  `Lending.AllBorrowDate` (borrowController.js:92-105) to `Lending.AllBorrows`.
- `Inbox.ForUser` and `Inbox.CreatedAt` (notificationController.js:8) belong
  to `Inbox.UserNotifications`.

## Left out

- Password hashing, password comparison, token generation and the mailer are parameters: `hash`, `checkPassword`, `token` and `mailSent`. Their properties are not modelled; bcrypt salts the hash, so the model's `hash` is any function.
- JWT signing is left out; the model answers the claims (id, role) that would be signed.
- Accounts.Login: the 7-day expiry and the secret are not modelled.
- The language-model call, the prompt text built at `backend/controllers/adminController.js:42-66`, and the model name and temperature are left out. The model's response is a parameter. `JSON.stringify(response)` is a parameter `render`.
- No router in the repository mounts `aiInsights` of `adminController.js`. `/api/admin/ai-insights` is routed to `adminAIController.js`, which is not part of this model. The dashboard sends `books` while `aiInsights` reads `top_books`; the prompt is not modelled.
- `chatbot.js`, `adminAI.js`, `Chatbot.jsx` and the other files without logic of their own are not part of this model.
- The cron schedule of the notification job is left out. One tick is modelled, with the time as a parameter.
- Concurrency is left out: requests, the job and queries are modelled as taking effect one at a time. The read-then-write races of the older borrow and return are therefore not modelled.
- The `catch` branches that answer 500 on a database error are left out; the model assumes every query succeeds.
- MySQL details are not modelled:
  - the collation's case-insensitive comparison of `email = ?` and `name = ?` (the model compares strings exactly);
  - NULL and type coercion of request fields (a missing field is `None`);
  - column types, defaults other than the role, and the `created_at` default (taken from `now`).
- `toLowerCase` and `toUpperCase` map ASCII letters only.
- `ORDER BY ... DESC` leaves the order of ties to the database. The model sorts with a fixed insertion sort. The listing contracts state only that the result is sorted and holds each selected row as often as the query selects it, which is what SQL promises. `NotificationsPage.MarkReadMatchesRefetch` holds for the model's fixed order, so against a real database it holds up to the order of equal `created_at`.
- `getBook` (`backend/controllers/booksController.js:20-33`) is not modelled; it is one lookup with the same join as `getAllBooks`.
- Catalog.Create, Catalog.Update: the copies count a form submits is stored as given. It may be negative, so the non-negative shelf invariant is proved only for the borrow and return paths.
- Catalog.Create, Categories.CreateCategory: the read-back `SELECT` after an insert is modelled as answering the inserted row.
- Multer upload handling is left out. The uploaded file's name is a parameter.
- Inbox.SendTest: the `test` kind exists only for this handler. The sweep's messages are defined for the other two kinds.
- The React state, rendering, styling, navigation, `alert` calls and fetch plumbing are left out. Each page is a function of the data it fetched, the search and the current page.
- The fetch guards of `Home.jsx` and `MyBorrows.jsx` (fetch only when logged in) are left out.
- The admin redirect of `AdminDashboard.jsx` is left out.
- The dashboard's borrow list comes from `/api/admin/borrow-records`, which no router in the repository serves. It is a parameter.
- AdminDashboard.InsightsPayload: `checkouts` is always 0, because no listed book carries a `checkouts` field.
- `Notifications.jsx`, `BookForm.jsx`, `Login.jsx`, `Register.jsx`, `VerifyEmail.jsx`, `PdfViewer.jsx` and the admin `Dashboard.jsx` only forward form fields to the endpoints modelled above and show their answers; they are not part of this model.
