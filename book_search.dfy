/** The book filter shared by the home page and the administrator's dashboard:
    a case-insensitive search on title or author and an optional
    case-insensitive category selection. */
module BookSearch {
  import opened Text
  import Seqs
  import Catalog

  /** `s.toLowerCase().includes(search.toLowerCase())`. */
  function ContainsIgnoringCase(s: string, search: string): bool
  {
    Includes(ToLower(s), ToLower(search))
  }

  /** Whether a listed book passes the filter: its title or author contains the
      search, and either no category is selected or the book's category name
      (the empty string when it has none) equals the selection, both ignoring
      case. */
  predicate Shown(b: Catalog.ListedBook, search: string, category: string) {
    && (ContainsIgnoringCase(b.book.title, search) || ContainsIgnoringCase(b.book.author, search))
    && (category == "" || ToLower(b.categoryName.GetOr("")) == ToLower(category))
  }

  /** `books.filter(...)`: the books that pass, in listing order. */
  function FilterBooks(books: seq<Catalog.ListedBook>, search: string, category: string): (r: seq<Catalog.ListedBook>)
    ensures Seqs.SubsequenceOf(r, books)
    ensures forall b :: b in r <==> b in books && Shown(b, search, category)
    ensures forall b :: multiset(r)[b] == if Shown(b, search, category) then multiset(books)[b] else 0
  {
    var keep := (b: Catalog.ListedBook) => Shown(b, search, category);
    Seqs.FilterIsSubsequence(books, keep);
    Seqs.FilterMultiset(books, keep);
    Seqs.Filter(books, keep)
  }

  /** An empty search with no category selected shows every book. */
  lemma EmptySearchShowsAll(books: seq<Catalog.ListedBook>)
    ensures FilterBooks(books, "", "") == books
  {
    forall b | b in books
      ensures Shown(b, "", "")
    {
      IncludesEmpty(ToLower(b.book.title));
    }
    Seqs.FilterKeepsAll(books, (b: Catalog.ListedBook) => Shown(b, "", ""));
  }

  /** Searching for a book's whole title, with no category selected, shows it. */
  lemma TitleFindsBook(books: seq<Catalog.ListedBook>, b: Catalog.ListedBook)
    requires b in books
    ensures b in FilterBooks(books, b.book.title, "")
  {
    IncludesMiddle("", ToLower(b.book.title), "");
    assert "" + ToLower(b.book.title) + "" == ToLower(b.book.title);
  }

  /** Only the letters' case-folded form of the search and of the selection
      matters. */
  lemma FilterIgnoresCase(books: seq<Catalog.ListedBook>, search: string, search2: string,
                          category: string, category2: string)
    requires ToLower(search) == ToLower(search2)
    requires ToLower(category) == ToLower(category2)
    requires category == "" <==> category2 == ""
    ensures FilterBooks(books, search, category) == FilterBooks(books, search2, category2)
  {
    Seqs.FilterCongruent(books, (b: Catalog.ListedBook) => Shown(b, search, category),
                         (b: Catalog.ListedBook) => Shown(b, search2, category2));
  }

  /** Selecting a category only narrows what the search alone shows. */
  lemma CategoryNarrows(books: seq<Catalog.ListedBook>, search: string, category: string)
    ensures forall b :: b in FilterBooks(books, search, category) ==> b in FilterBooks(books, search, "")
  {
  }
}
