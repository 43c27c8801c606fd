/** The administrator's loan list `BorrowRecords.jsx`: the fetched records,
    their search and their pagination. */
module BorrowRecords {
  import opened Wrappers
  import Text
  import Seqs
  import Lending
  import Paging
  import BookSearch

  type Row = Lending.AllBorrowRow

  const RecordsPerPage: nat := 10

  /** `user?.role === "admin"`. */
  predicate IsAdmin(role: Option<string>) {
    role == Some("admin")
  }

  /** The records the page holds: the list of a successful `GET /api/borrow/`
      response, fetched only for an administrator, and otherwise the initial
      empty list. */
  function Records(role: Option<string>, response: Option<seq<Row>>): (r: seq<Row>)
    ensures !IsAdmin(role) ==> r == []
    ensures IsAdmin(role) && response.Some? ==> r == response.value
  {
    if IsAdmin(role) && response.Some? then response.value else []
  }

  function Matches(search: string): Row -> bool {
    (r: Row) => BookSearch.ContainsIgnoringCase(r.bookTitle, search) || BookSearch.ContainsIgnoringCase(r.userName, search)
  }

  /** `records.filter(...)`: the records whose book title or user name
      contains the search, ignoring case, in the fetched order. */
  function Filtered(records: seq<Row>, search: string): (r: seq<Row>)
    ensures Seqs.SubsequenceOf(r, records)
    ensures forall x :: x in r <==> x in records && Matches(search)(x)
    ensures forall x :: multiset(r)[x] == if Matches(search)(x) then multiset(records)[x] else 0
  {
    Seqs.FilterIsSubsequence(records, Matches(search));
    Seqs.FilterMultiset(records, Matches(search));
    Seqs.Filter(records, Matches(search))
  }

  /** An empty search keeps every record. */
  lemma EmptySearchKeepsAll(records: seq<Row>)
    ensures Filtered(records, "") == records
  {
    forall x | x in records
      ensures Matches("")(x)
    {
      Text.IncludesEmpty(Text.ToLower(x.bookTitle));
    }
    Seqs.FilterKeepsAll(records, Matches(""));
  }

  /** `filtered.slice((page - 1) * limit, page * limit)`. */
  function Paginated(filtered: seq<Row>, page: int): seq<Row> {
    Paging.PageOf(filtered, page, RecordsPerPage)
  }

  /** `Math.ceil(filtered.length / limit)`, with no lower clamp. */
  function TotalPages(filtered: seq<Row>): nat {
    Paging.CeilDiv(|filtered|, RecordsPerPage)
  }

  /** A page holds at most ten records; the numbered pages together hold
      every filtered record, in order; and there are no pages at all exactly
      when nothing matches. */
  lemma PagesShowFiltered(filtered: seq<Row>, page: int)
    requires page >= 1
    ensures |Paginated(filtered, page)| <= RecordsPerPage
    ensures Paging.Pages(filtered, RecordsPerPage, TotalPages(filtered)) == filtered
    ensures TotalPages(filtered) == 0 <==> filtered == []
  {
    Paging.PageContents(filtered, page, RecordsPerPage);
    Paging.PagesCoverAll(filtered, RecordsPerPage, TotalPages(filtered));
  }

  /** What the page renders. */
  datatype View = Unauthorized | Table(rows: seq<Row>, totalPages: nat)

  /** The page: "Unauthorized" for anyone but an administrator, otherwise the
      current page of the filtered records and the page count. */
  function Render(role: Option<string>, records: seq<Row>, search: string, page: int): (r: View)
    ensures r.Unauthorized? <==> !IsAdmin(role)
    ensures r.Table? ==> r.rows == Paginated(Filtered(records, search), page)
  {
    if !IsAdmin(role) then Unauthorized
    else
      var filtered := Filtered(records, search);
      Table(Paginated(filtered, page), TotalPages(filtered))
  }
}
