/**
 * The catalogue service of src/api/booksApi.js: lookup of one book by its id, and the
 * paged, case-insensitive search by title or author over the in-memory catalogue.
 */
module BooksApi {
  import opened Results
  import opened JsText

  /** A catalogue entry; the dollar price is kept as a whole number of cents. */
  datatype Book = Book(id: int, title: string, author: string, year: int, priceCents: nat)

  /** `mockBooks`, in catalogue order. */
  const MOCK_BOOKS: seq<Book> := [
    Book(1, "The Lord of the Rings", "J.R.R. Tolkien", 1954, 2599),
    Book(2, "Pride and Prejudice", "Jane Austen", 1813, 1550),
    Book(3, "To Kill a Mockingbird", "Harper Lee", 1960, 1800),
    Book(4, "1984", "George Orwell", 1949, 2250),
    Book(5, "The Great Gatsby", "F. Scott Fitzgerald", 1925, 1999),
    Book(6, "Moby Dick", "Herman Melville", 1851, 2100),
    Book(7, "The Catcher in the Rye", "J.D. Salinger", 1951, 1699),
    Book(8, "Brave New World", "Aldous Huxley", 1932, 2050),
    Book(9, "The Hobbit", "J.R.R. Tolkien", 1937, 2399),
    Book(10, "Jane Eyre", "Charlotte Bront\U{EB}", 1847, 1750),
    Book(11, "Animal Farm", "George Orwell", 1945, 1499),
    Book(12, "The Alchemist", "Paulo Coelho", 1988, 1899),
    Book(13, "The Little Prince", "Antoine de Saint-Exup\U{E9}ry", 1943, 1299),
    Book(14, "The Kite Runner", "Khaled Hosseini", 2003, 1999),
    Book(15, "The Book Thief", "Markus Zusak", 2005, 2150)
  ]

  const PAGE_SIZE: nat := 5

  // ---------------------------------------------------------------- fetchBookById

  /** `mockBooks.find(b => b.id === key)`, and the "Book not found" error when it finds nothing. */
  function FindBook(catalog: seq<Book>, key: int): (r: Result<Book>)
    ensures r.Ok? <==> exists j :: 0 <= j < |catalog| && catalog[j].id == key
    ensures r.Ok? ==> r.value.id == key
    ensures r.Ok? ==> exists j :: 0 <= j < |catalog| && catalog[j] == r.value && (forall k :: 0 <= k < j ==> catalog[k].id != key)
    ensures r.Err? ==> r.error == BookNotFound
  {
    if catalog == [] then Err(BookNotFound)
    else if catalog[0].id == key then
      assert catalog[0] == catalog[0];
      Ok(catalog[0])
    else
      var r := FindBook(catalog[1..], key);
      assert forall j :: 1 <= j < |catalog| ==> catalog[j] == catalog[1..][j - 1];
      r
  }

  /**
   * fetchBookById: the first book whose id equals `parseInt(id)`; a text that is not a
   * number gives NaN, which equals no id, so it is not found either.
   */
  function FetchBookById(catalog: seq<Book>, id: string): (r: Result<Book>)
    ensures ParseInt(id, 0).None? ==> r == Err(BookNotFound)
    ensures ParseInt(id, 0).Some? ==> r == FindBook(catalog, ParseInt(id, 0).value)
  {
    match ParseInt(id, 0)
    case None => Err(BookNotFound)
    case Some(key) => FindBook(catalog, key)
  }

  /** The ids of the catalogue are 1 to 15 in order, so no two books share one. */
  lemma {:induction false} MockIdsAreIndices()
    ensures |MOCK_BOOKS| == 15
    ensures forall j :: 0 <= j < |MOCK_BOOKS| ==> MOCK_BOOKS[j].id == j + 1
  {
  }

  /** Looking a catalogue book up by the text of its id finds that very book. */
  lemma {:induction false} FetchMockBookById(j: nat)
    requires j < |MOCK_BOOKS|
    ensures FetchBookById(MOCK_BOOKS, IntToString(MOCK_BOOKS[j].id)) == Ok(MOCK_BOOKS[j])
  {
    MockIdsAreIndices();
    ParseIntOfIntToString(j + 1);
    FindBookOfIndexIds(MOCK_BOOKS, j);
  }

  /** In a catalogue whose ids are 1, 2, 3, ... in order, id j + 1 finds book j. */
  lemma {:induction false} FindBookOfIndexIds(catalog: seq<Book>, j: nat)
    requires forall k :: 0 <= k < |catalog| ==> catalog[k].id == k + 1
    requires j < |catalog|
    ensures FindBook(catalog, j + 1) == Ok(catalog[j])
  {
    var r := FindBook(catalog, j + 1);
    assert catalog[j].id == j + 1;
    var i :| 0 <= i < |catalog| && catalog[i] == r.value && (forall k :: 0 <= k < i ==> catalog[k].id != j + 1);
    assert i == j;
  }

  /** An id outside 1..15 is not found. */
  lemma {:induction false} FetchMockBookByUnknownId(n: int)
    requires n < 1 || n > 15
    ensures FetchBookById(MOCK_BOOKS, IntToString(n)) == Err(BookNotFound)
  {
    MockIdsAreIndices();
    ParseIntOfIntToString(n);
    var books := MOCK_BOOKS;
    assert forall j :: 0 <= j < |books| ==> books[j].id != n;
    var f := FindBook(books, n);
    assert f.Err?;
  }

  // ---------------------------------------------------------------- fetchBooks: filtering

  /** The switch on the search type: title, author, or anything else (which keeps every book). */
  predicate Matches(book: Book, kind: string, needle: string) {
    if kind == "title" then Includes(ToLowerCase(book.title), needle)
    else if kind == "author" then Includes(ToLowerCase(book.author), needle)
    else true
  }

  /** Array.prototype.filter with the predicate above. */
  function Filter(books: seq<Book>, kind: string, needle: string): (r: seq<Book>)
    ensures |r| <= |books|
    ensures forall b :: b in r <==> b in books && Matches(b, kind, needle)
    ensures forall b :: multiset(r)[b] == if Matches(b, kind, needle) then multiset(books)[b] else 0
  {
    if books == [] then []
    else
      var rest := Filter(books[1..], kind, needle);
      assert books == [books[0]] + books[1..];
      assert multiset(books) == multiset{books[0]} + multiset(books[1..]);
      if Matches(books[0], kind, needle) then
        assert multiset([books[0]] + rest) == multiset{books[0]} + multiset(rest);
        [books[0]] + rest
      else rest
  }

  /** `a` is `b` with some elements removed, the rest kept in order. */
  predicate IsSubsequence(a: seq<Book>, b: seq<Book>)
    decreases |b|
  {
    if a == [] then true
    else if b == [] then false
    else if a[0] == b[0] then IsSubsequence(a[1..], b[1..])
    else IsSubsequence(a, b[1..])
  }

  /** Filtering keeps catalogue order and only removes books. */
  lemma {:induction false} FilterIsSubsequence(books: seq<Book>, kind: string, needle: string)
    ensures IsSubsequence(Filter(books, kind, needle), books)
    decreases |books|
  {
    if books != [] {
      var rest := Filter(books[1..], kind, needle);
      FilterIsSubsequence(books[1..], kind, needle);
      if Matches(books[0], kind, needle) {
        assert ([books[0]] + rest)[1..] == rest;
      } else if rest != [] {
        SkipHead(rest, books);
      }
    }
  }

  /** A subsequence of the tail is a subsequence of the whole. */
  lemma {:induction false} SkipHead(a: seq<Book>, b: seq<Book>)
    requires b != [] && IsSubsequence(a, b[1..])
    ensures IsSubsequence(a, b)
    decreases |b|, 1
  {
    if a != [] && a[0] == b[0] {
      DropHead(a, b[1..]);
    }
  }

  /** Dropping the first element of a subsequence leaves a subsequence. */
  lemma {:induction false} DropHead(a: seq<Book>, c: seq<Book>)
    requires a != [] && IsSubsequence(a, c)
    ensures IsSubsequence(a[1..], c)
    decreases |c|, 2
  {
    if a[0] == c[0] {
      if a[1..] != [] {
        SkipHead(a[1..], c);
      }
    } else {
      DropHead(a, c[1..]);
      if a[1..] != [] {
        SkipHead(a[1..], c);
      }
    }
  }

  /** Whether `query && query.trim()` holds: the query is present and not only white space. */
  predicate HasSearchTerm(query: Option<string>) {
    query.Some? && Trim(query.value) != []
  }

  /** `filteredResults`: the whole catalogue unless there is a search term. */
  function FilteredResults(catalog: seq<Book>, query: Option<string>, kind: string): (r: seq<Book>)
    ensures !HasSearchTerm(query) ==> r == catalog
    ensures HasSearchTerm(query) ==>
      forall b :: b in r <==> b in catalog && Matches(b, kind, Trim(ToLowerCase(query.value)))
    ensures HasSearchTerm(query) ==>
      forall b :: multiset(r)[b] == if Matches(b, kind, Trim(ToLowerCase(query.value))) then multiset(catalog)[b] else 0
  {
    if HasSearchTerm(query) then Filter(catalog, kind, Trim(ToLowerCase(query.value))) else catalog
  }

  /** Whatever the query, the results keep catalogue order and only remove books. */
  lemma {:induction false} FilteredIsSubsequence(catalog: seq<Book>, query: Option<string>, kind: string)
    ensures IsSubsequence(FilteredResults(catalog, query, kind), catalog)
  {
    if HasSearchTerm(query) {
      FilterIsSubsequence(catalog, kind, Trim(ToLowerCase(query.value)));
    } else {
      SubsequenceRefl(catalog);
    }
  }

  lemma {:induction false} SubsequenceRefl(a: seq<Book>)
    ensures IsSubsequence(a, a)
    decreases |a|
  {
    if a != [] { SubsequenceRefl(a[1..]); }
  }

  /** A search type other than title or author keeps every book. */
  lemma {:induction false} OtherKindKeepsAll(books: seq<Book>, kind: string, needle: string)
    requires kind != "title" && kind != "author"
    ensures Filter(books, kind, needle) == books
    decreases |books|
  {
    if books != [] {
      OtherKindKeepsAll(books[1..], kind, needle);
    }
  }

  // ---------------------------------------------------------------- fetchBooks: paging

  /** One page of results and the number of the next page, if any. */
  datatype Page = Page(books: seq<Book>, nextPage: Option<int>)

  /** Array.prototype.slice(start, end) for 0 <= start <= end. */
  function Slice(s: seq<Book>, start: nat, end: nat): (r: seq<Book>)
    requires start <= end
    ensures |r| <= end - start
    ensures start <= |s| ==> r == s[start..if end <= |s| then end else |s|]
    ensures start > |s| ==> r == []
  {
    if start >= |s| then [] else s[start..if end <= |s| then end else |s|]
  }

  /**
   * fetchBooks: `type` defaults to 'title' and `pageParam` to 1; page p holds the filtered
   * books (p-1)*5 up to p*5, and the next page is p+1 while books remain after it.
   */
  function FetchBooks(catalog: seq<Book>, query: Option<string>, kind: Option<string>, page: Option<int>): (r: Page)
    requires page.None? || page.value >= 1
    ensures var p := page.GetOr(1);
      var f := FilteredResults(catalog, query, kind.GetOr("title"));
      |r.books| <= PAGE_SIZE
      && ((p - 1) * PAGE_SIZE <= |f| ==> r.books == f[(p - 1) * PAGE_SIZE..if p * PAGE_SIZE <= |f| then p * PAGE_SIZE else |f|])
      && ((p - 1) * PAGE_SIZE > |f| ==> r.books == [])
      && (r.nextPage.Some? <==> p * PAGE_SIZE < |f|)
      && (r.nextPage.Some? ==> r.nextPage.value == p + 1)
  {
    var p := page.GetOr(1);
    var filtered := FilteredResults(catalog, query, kind.GetOr("title"));
    var start := (p - 1) * PAGE_SIZE;
    var end := start + PAGE_SIZE;
    assert end == p * PAGE_SIZE;
    Page(Slice(filtered, start, end), if end < |filtered| then Some(p + 1) else None)
  }

  /** What the infinite list shows: page p, then every page reached by following nextPage. */
  function PagesFrom(catalog: seq<Book>, query: Option<string>, kind: Option<string>, p: int): (r: seq<Book>)
    requires p >= 1
    decreases |FilteredResults(catalog, query, kind.GetOr("title"))| - (p - 1) * PAGE_SIZE
  {
    var page := FetchBooks(catalog, query, kind, Some(p));
    match page.nextPage
    case None => page.books
    case Some(next) => page.books + PagesFrom(catalog, query, kind, next)
  }

  /** Following nextPage from page p yields the filtered books from position (p-1)*5 on. */
  lemma {:induction false} PagesFromIsSuffix(catalog: seq<Book>, query: Option<string>, kind: Option<string>, p: int)
    requires p >= 1
    ensures var f := FilteredResults(catalog, query, kind.GetOr("title"));
      PagesFrom(catalog, query, kind, p) == if (p - 1) * PAGE_SIZE <= |f| then f[(p - 1) * PAGE_SIZE..] else []
    decreases |FilteredResults(catalog, query, kind.GetOr("title"))| - (p - 1) * PAGE_SIZE
  {
    var f := FilteredResults(catalog, query, kind.GetOr("title"));
    var page := FetchBooks(catalog, query, kind, Some(p));
    var start := (p - 1) * PAGE_SIZE;
    assert p * PAGE_SIZE == start + PAGE_SIZE;
    if page.nextPage.Some? {
      assert (p + 1 - 1) * PAGE_SIZE == start + PAGE_SIZE;
      PagesFromIsSuffix(catalog, query, kind, p + 1);
      assert f[start..] == f[start..start + PAGE_SIZE] + f[start + PAGE_SIZE..];
    } else if start <= |f| {
      assert f[start..] == f[start..|f|];
    }
  }

  /** Flattening every page from the first, following nextPage, gives exactly the filtered list. */
  lemma {:induction false} AllPagesGiveFilteredResults(catalog: seq<Book>, query: Option<string>, kind: Option<string>)
    ensures PagesFrom(catalog, query, kind, 1) == FilteredResults(catalog, query, kind.GetOr("title"))
  {
    PagesFromIsSuffix(catalog, query, kind, 1);
  }
}
