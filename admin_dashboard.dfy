/** The administrator's page `AdminDashboard.jsx`: the filtered and paginated
    book table, the chart and warning lists derived from the books and
    categories, and the statistics sent with an insights request. */
module AdminDashboard {
  import opened Wrappers
  import opened Tables
  import Seqs
  import Catalog
  import Categories
  import Lending
  import BookSearch
  import Paging
  import Home

  type ListedBook = Catalog.ListedBook

  const BooksPerPage: nat := 3

  /** `filteredBooks.slice(indexOfLast - booksPerPage, indexOfLast)` with
      `indexOfLast = currentPage * booksPerPage`: the same window as page
      `page` of three. */
  function CurrentBooks(filtered: seq<ListedBook>, page: int): (r: seq<ListedBook>)
    ensures r == Paging.PageOf(filtered, page, BooksPerPage)
  {
    var last := page * BooksPerPage;
    assert last - BooksPerPage == (page - 1) * BooksPerPage;
    Paging.Slice(filtered, last - BooksPerPage, last)
  }

  /** `Math.max(1, Math.ceil(filteredBooks.length / booksPerPage))`. */
  function TotalPages(filtered: seq<ListedBook>): nat {
    Paging.ClampedPageCount(|filtered|, BooksPerPage)
  }

  /** The dashboard always has a page to show; each page shows at most three
      books, and the numbered pages together show every filtered book, in order. */
  lemma PagesShowFiltered(filtered: seq<ListedBook>, page: int)
    requires page >= 1
    ensures TotalPages(filtered) >= 1
    ensures |filtered| == 0 ==> TotalPages(filtered) == 1
    ensures |CurrentBooks(filtered, page)| <= BooksPerPage
    ensures Paging.Pages(filtered, BooksPerPage, TotalPages(filtered)) == filtered
  {
    Paging.PageContents(filtered, page, BooksPerPage);
    Paging.PagesCoverAll(filtered, BooksPerPage, TotalPages(filtered));
  }

  /** `b.is_ebook || b.copies > 0 ? "Available" : "Not Available"`. */
  predicate ShownAvailable(b: Book) {
    b.isEbook || b.copies > 0
  }

  /** The dashboard and the home page disagree on a book's badge exactly for
      an eBook without copies, which the dashboard calls available. */
  lemma BadgesDisagreeOnlyForEbooks(b: Book)
    ensures ShownAvailable(b) != Home.ShownAvailable(b) <==> b.isEbook && b.copies <= 0
  {
  }

  function IsEbook(): ListedBook -> bool { (b: ListedBook) => b.book.isEbook }
  function IsPhysical(): ListedBook -> bool { (b: ListedBook) => !b.book.isEbook }
  function IsLowOnCopies(): ListedBook -> bool { (b: ListedBook) => b.book.copies < 3 }

  /** `books.filter((b) => b.is_ebook).length`. */
  function EbookCount(books: seq<ListedBook>): nat {
    |Seqs.Filter(books, IsEbook())|
  }

  /** `books.length - ebookCount`: the number of books that are not eBooks,
      which is what the insights request counts as `physical_count`. */
  function PhysicalCount(books: seq<ListedBook>): (r: nat)
    ensures r == |Seqs.Filter(books, IsPhysical())|
    ensures EbookCount(books) + r == |books|
  {
    Seqs.FilterPartition(books, IsEbook(), IsPhysical());
    |books| - EbookCount(books)
  }

  /** An entry of `lowCopyBooks`. */
  datatype LowCopy = LowCopy(title: string, copies: int)

  function LowCopyOf(b: ListedBook): LowCopy { LowCopy(b.book.title, b.book.copies) }

  /** `books.filter(b => b.copies < 3).map(b => ({ title, copies }))`: the
      title and copies of exactly the books with fewer than three copies. */
  function LowCopyBooks(books: seq<ListedBook>): (r: seq<LowCopy>)
    ensures |r| == |Seqs.Filter(books, IsLowOnCopies())|
    ensures forall i :: 0 <= i < |r| ==> r[i] == LowCopyOf(Seqs.Filter(books, IsLowOnCopies())[i])
    ensures Seqs.SubsequenceOf(Seqs.Filter(books, IsLowOnCopies()), books)
    ensures forall b :: b in books && b.book.copies < 3 ==> LowCopyOf(b) in r
    ensures forall e :: e in r ==> e.copies < 3 && exists b :: b in books && e == LowCopyOf(b)
  {
    var low := Seqs.Filter(books, IsLowOnCopies());
    var r := Seqs.Map(LowCopyOf, low);
    Seqs.FilterIsSubsequence(books, IsLowOnCopies());
    assert forall b :: b in low ==> LowCopyOf(b) in r by {
      forall b | b in low ensures LowCopyOf(b) in r {
        var i :| 0 <= i < |low| && low[i] == b;
        assert r[i] == LowCopyOf(b);
      }
    }
    assert forall e :: e in r ==> exists b :: b in low && e == LowCopyOf(b) by {
      forall e | e in r ensures exists b :: b in low && e == LowCopyOf(b) {
        var i :| 0 <= i < |r| && r[i] == e;
        assert low[i] in low;
      }
    }
    r
  }

  /** A bar of `booksPerCategory`, or an entry of `categoriesNeedingBooks`. */
  datatype CategoryCount = CategoryCount(name: string, count: nat)

  function HasCategoryName(name: string): ListedBook -> bool { (b: ListedBook) => b.categoryName == Some(name) }

  /** `books.filter((b) => b.category_name === cat.name).length`: an exact,
      case-sensitive comparison, which a book without a category never passes. */
  function NamedCount(books: seq<ListedBook>, name: string): nat {
    |Seqs.Filter(books, HasCategoryName(name))|
  }

  function CountFor(books: seq<ListedBook>): Category -> CategoryCount {
    (c: Category) => CategoryCount(c.name, NamedCount(books, c.name))
  }

  /** `categories.map((cat) => ({ name: cat.name, count }))`: one bar per
      category, in the categories' order. */
  function BooksPerCategory(categories: seq<Category>, books: seq<ListedBook>): (r: seq<CategoryCount>)
    ensures |r| == |categories|
    ensures forall i :: 0 <= i < |r| ==> r[i].name == categories[i].name && r[i].count == NamedCount(books, categories[i].name)
  {
    Seqs.Map(CountFor(books), categories)
  }

  /** The sum of the counts of a list of bars. */
  function Total(counts: seq<CategoryCount>): nat {
    if counts == [] then 0 else counts[0].count + Total(counts[1..])
  }

  /** Whether some category of the list has the given name. */
  predicate Listed(name: string, categories: seq<Category>) {
    exists i :: 0 <= i < |categories| && categories[i].name == name
  }

  function InSomeCategory(categories: seq<Category>): ListedBook -> bool {
    (b: ListedBook) => b.categoryName.Some? && Listed(b.categoryName.value, categories)
  }

  /** When category names are unique, the bars add up to the number of books
      whose category name is one of them: no book is counted twice. */
  lemma {:induction false} BarsAddUp(categories: seq<Category>, books: seq<ListedBook>)
    requires Categories.UniqueNames(categories)
    ensures Total(BooksPerCategory(categories, books)) == |Seqs.Filter(books, InSomeCategory(categories))|
  {
    if categories == [] {
      Seqs.FilterKeepsNone(books, InSomeCategory(categories));
    } else {
      var rest := categories[1..];
      var name := categories[0].name;
      assert BooksPerCategory(categories, books)[1..] == BooksPerCategory(rest, books);
      BarsAddUp(rest, books);
      forall n
        ensures Listed(n, categories) <==> n == name || Listed(n, rest)
      {
        if Listed(n, categories) {
          var i :| 0 <= i < |categories| && categories[i].name == n;
          if i > 0 {
            assert rest[i - 1].name == n;
          }
        }
        if Listed(n, rest) {
          var i :| 0 <= i < |rest| && rest[i].name == n;
          assert categories[i + 1].name == n;
        }
      }
      assert !Listed(name, rest) by {
        forall i | 0 <= i < |rest|
          ensures rest[i].name != name
        {
          assert categories[i + 1] == rest[i];
        }
      }
      Seqs.FilterDisjointUnion(books, HasCategoryName(name), InSomeCategory(rest), InSomeCategory(categories));
    }
  }

  function NeedsBooks(): CategoryCount -> bool { (c: CategoryCount) => c.count < 5 }

  /** `booksPerCategory`'s bars, kept when the count is below five. */
  function CategoriesNeedingBooks(categories: seq<Category>, books: seq<ListedBook>): (r: seq<CategoryCount>)
    ensures Seqs.SubsequenceOf(r, BooksPerCategory(categories, books))
    ensures forall e :: e in r <==>
              e.count < 5 && exists c :: c in categories && e == CategoryCount(c.name, NamedCount(books, c.name))
    ensures forall e :: multiset(r)[e] ==
              if e.count < 5 then multiset(BooksPerCategory(categories, books))[e] else 0
  {
    var bars := BooksPerCategory(categories, books);
    Seqs.FilterIsSubsequence(bars, NeedsBooks());
    Seqs.FilterMultiset(bars, NeedsBooks());
    forall e
      ensures e in bars <==> exists c :: c in categories && e == CategoryCount(c.name, NamedCount(books, c.name))
    {
      if e in bars {
        var i :| 0 <= i < |bars| && bars[i] == e;
        assert categories[i] in categories;
      }
      if exists c :: c in categories && e == CategoryCount(c.name, NamedCount(books, c.name)) {
        var c :| c in categories && e == CategoryCount(c.name, NamedCount(books, c.name));
        var i :| 0 <= i < |categories| && categories[i] == c;
        assert bars[i] == e;
      }
    }
    Seqs.Filter(bars, NeedsBooks())
  }

  /** The `stats` of an insights request. */
  datatype Stats = Stats(
    totalBooks: nat,
    totalCategories: nat,
    totalBorrowRecords: nat,
    ebookCount: nat,
    physicalCount: nat,
    lowCopyBooksCount: nat)

  /** A book of an insights request. */
  datatype PayloadBook = PayloadBook(
    id: nat,
    title: string,
    author: string,
    categoryName: string,
    copies: int,
    isEbook: bool,
    checkouts: nat)

  /** The body of `POST /api/admin/ai-insights`. */
  datatype Payload = Payload(
    stats: Stats,
    books: seq<PayloadBook>,
    categories: seq<Category>,
    borrows: seq<Lending.AllBorrowRow>)

  /** `b.category_name || "Uncategorized"`: NULL and "" both read as uncategorised. */
  function CategoryLabel(name: Option<string>): string {
    if name.Some? && name.value != "" then name.value else "Uncategorized"
  }

  /** A listed book carries no checkout count, so `b.checkouts || 0` is 0. */
  function PayloadBookOf(b: ListedBook): PayloadBook {
    PayloadBook(b.book.id, b.book.title, b.book.author, CategoryLabel(b.categoryName),
                b.book.copies, b.book.isEbook, 0)
  }

  /** `requestAIInsights`'s payload. */
  function InsightsPayload(books: seq<ListedBook>, categories: seq<Category>,
                           borrows: seq<Lending.AllBorrowRow>): (r: Payload)
    ensures r.stats.ebookCount + r.stats.physicalCount == r.stats.totalBooks == |books|
    ensures r.stats.physicalCount == PhysicalCount(books)
    ensures r.stats.lowCopyBooksCount == |LowCopyBooks(books)| == |Seqs.Filter(books, IsLowOnCopies())|
    ensures |r.borrows| == if |borrows| < 500 then |borrows| else 500
    ensures r.borrows == borrows[..|r.borrows|]
    ensures |r.books| == |books|
    ensures r.stats.totalCategories == |categories| && r.stats.totalBorrowRecords == |borrows|
    ensures r.stats.ebookCount == EbookCount(books)
    ensures r.categories == categories
    ensures forall i :: 0 <= i < |books| ==>
              var b := books[i].book;
              var p := r.books[i];
              p.id == b.id && p.title == b.title && p.author == b.author &&
              p.copies == b.copies && p.isEbook == b.isEbook && p.checkouts == 0
    ensures forall i :: 0 <= i < |books| ==>
              r.books[i].categoryName != "" &&
              (books[i].categoryName.Some? && books[i].categoryName.value != "" ==>
                 r.books[i].categoryName == books[i].categoryName.value) &&
              (books[i].categoryName == None || books[i].categoryName == Some("") ==>
                 r.books[i].categoryName == "Uncategorized")
  {
    var physical := |Seqs.Filter(books, IsPhysical())|;
    assert physical == PhysicalCount(books);
    var stats := Stats(|books|, |categories|, |borrows|, EbookCount(books),
                       physical, |Seqs.Filter(books, IsLowOnCopies())|);
    Payload(stats, Seqs.Map(PayloadBookOf, books), categories, Paging.Slice(borrows, 0, 500))
  }
}
