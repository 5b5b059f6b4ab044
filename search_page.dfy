/** The advanced search page's result list: the books that pass the text,
    genre and availability filters, sorted by a chosen key in a chosen
    direction. */
module SearchPage {
  import opened Books
  import opened Strings
  import opened Filters
  import Seqs

  /** The text query matches title, author, ISBN, publisher or a non-empty
      description, ignoring case. */
  predicate MatchesSearch(b: Book, term: string) {
    var q := Lower(term);
    || Contains(Lower(b.title), q)
    || Contains(Lower(b.author), q)
    || Contains(Lower(b.isbn), q)
    || Contains(Lower(b.publisher), q)
    || (b.description.Some? && b.description.value != "" && Contains(Lower(b.description.value), q))
  }

  /** The three filters, combined with AND. */
  predicate Matches(b: Book, c: Criteria) {
    MatchesSearch(b, c.searchTerm) && MatchesGenre(b, c.genre) && MatchesAvailability(b, c.availability)
  }

  /** An empty query matches every book. */
  lemma EmptyQueryMatchesAll(b: Book)
    ensures MatchesSearch(b, "")
  {
    assert Lower("") == "";
    ContainsEmpty(Lower(b.title));
  }

  /** The query ignores case: lower-casing it first changes no match. */
  lemma QueryCaseIrrelevant(b: Book, term: string)
    ensures MatchesSearch(b, Lower(term)) <==> MatchesSearch(b, term)
  {
    LowerIdempotent(term);
  }

  /** A query that occurs verbatim in the title, author, ISBN or publisher
      finds the book, whatever the case of either side. */
  lemma VerbatimFieldFound(b: Book, term: string)
    requires Contains(b.title, term) || Contains(b.author, term) || Contains(b.isbn, term)
             || Contains(b.publisher, term)
    ensures MatchesSearch(b, term)
  {
    if Contains(b.title, term) {
      LowerKeepsContains(b.title, term);
    } else if Contains(b.author, term) {
      LowerKeepsContains(b.author, term);
    } else if Contains(b.isbn, term) {
      LowerKeepsContains(b.isbn, term);
    } else {
      LowerKeepsContains(b.publisher, term);
    }
  }

  /** The books that pass the filters, in list order. */
  function Selected(books: seq<Book>, c: Criteria): seq<Book> {
    Seqs.Filter(books, b => Matches(b, c))
  }

  /** Filtering keeps exactly the matching books, in their order. */
  lemma SelectedSpec(books: seq<Book>, c: Criteria)
    ensures forall b :: b in Selected(books, c) <==> b in books && Matches(b, c)
    ensures Seqs.IsSubsequence(Selected(books, c), books)
  {
    Seqs.FilterMembers(books, b => Matches(b, c));
    Seqs.FilterIsSubsequence(books, b => Matches(b, c));
  }

  /** A sort key: text for title and author, a number for year and pages. */
  datatype Key = Text(s: string) | Number(n: int)

  /** `<` on keys. A sort field yields keys of one kind only; numbers are put
      before texts merely to make the order total. */
  predicate KeyLess(a: Key, b: Key) {
    match (a, b)
    case (Text(x), Text(y)) => LexLess(x, y)
    case (Number(x), Number(y)) => x < y
    case (Number(_), Text(_)) => true
    case (Text(_), Number(_)) => false
  }

  /** The key of `b` for the `sortBy` setting; an unknown setting sorts by title. */
  function SortKey(sortBy: string, b: Book): Key {
    if sortBy == "author" then Text(Lower(b.author))
    else if sortBy == "year" then Number(b.publicationYear)
    else if sortBy == "pages" then Number(b.pages)
    else Text(Lower(b.title))
  }

  /** The comparator: -1, 0 or 1, reversed when `sortOrder` is `'desc'`. */
  function Compare(sortOrder: string, a: Key, b: Key): int {
    if sortOrder == "desc" then
      (if KeyLess(b, a) then -1 else if KeyLess(a, b) then 1 else 0)
    else
      (if KeyLess(a, b) then -1 else if KeyLess(b, a) then 1 else 0)
  }

  lemma KeyLessIrreflexive(a: Key)
    ensures !KeyLess(a, a)
  {
    if a.Text? {
      LexLessIrreflexive(a.s);
    }
  }

  lemma KeyLessTransitive(a: Key, b: Key, c: Key)
    requires KeyLess(a, b) && KeyLess(b, c)
    ensures KeyLess(a, c)
  {
    if a.Text? && b.Text? && c.Text? {
      LexLessTransitive(a.s, b.s, c.s);
    }
  }

  lemma KeyLessTotal(a: Key, b: Key)
    requires a != b
    ensures KeyLess(a, b) || KeyLess(b, a)
  {
    if a.Text? && b.Text? {
      LexLessTotal(a.s, b.s);
    }
  }

  /** The comparator is antisymmetric, is 0 exactly on equal keys, and is transitive. */
  lemma CompareIsOrder(sortOrder: string, a: Key, b: Key, c: Key)
    ensures Compare(sortOrder, a, b) == -Compare(sortOrder, b, a)
    ensures Compare(sortOrder, a, b) == 0 <==> a == b
    ensures Compare(sortOrder, a, b) <= 0 && Compare(sortOrder, b, c) <= 0 ==> Compare(sortOrder, a, c) <= 0
  {
    KeyLessIrreflexive(a);
    if KeyLess(a, b) && KeyLess(b, a) {
      KeyLessTransitive(a, b, a);
    }
    if a != b {
      KeyLessTotal(a, b);
    }
    if a != c {
      KeyLessTotal(a, c);
    }
    if b != c {
      KeyLessTotal(b, c);
    }
    if KeyLess(a, b) && KeyLess(b, c) {
      KeyLessTransitive(a, b, c);
    }
    if KeyLess(c, b) && KeyLess(b, a) {
      KeyLessTransitive(c, b, a);
    }
    if KeyLess(c, a) && KeyLess(a, b) {
      KeyLessTransitive(c, a, b);
    }
    if KeyLess(b, c) && KeyLess(c, a) {
      KeyLessTransitive(b, c, a);
    }
    if KeyLess(a, c) && KeyLess(c, b) {
      KeyLessTransitive(a, c, b);
    }
    if KeyLess(b, a) && KeyLess(a, c) {
      KeyLessTransitive(b, a, c);
    }
  }

  /** Every earlier element compares at most 0 with every later one. */
  predicate Sorted(s: seq<Book>, sortBy: string, sortOrder: string) {
    forall i, j :: 0 <= i < j < |s| ==> Compare(sortOrder, SortKey(sortBy, s[i]), SortKey(sortBy, s[j])) <= 0
  }

  /** Puts `x` before the first element it does not compare above, so before
      every element with an equal key. */
  function Insert(x: Book, s: seq<Book>, sortBy: string, sortOrder: string): (r: seq<Book>)
    ensures multiset(r) == multiset(s) + multiset{x}
  {
    if s == [] then [x]
    else if Compare(sortOrder, SortKey(sortBy, x), SortKey(sortBy, s[0])) <= 0 then [x] + s
    else
      assert s == [s[0]] + s[1..];
      [s[0]] + Insert(x, s[1..], sortBy, sortOrder)
  }

  lemma {:induction false} InsertSorted(x: Book, s: seq<Book>, sortBy: string, sortOrder: string)
    requires Sorted(s, sortBy, sortOrder)
    ensures Sorted(Insert(x, s, sortBy, sortOrder), sortBy, sortOrder)
  {
    if s == [] {
      return;
    }
    var kx := SortKey(sortBy, x);
    if Compare(sortOrder, kx, SortKey(sortBy, s[0])) <= 0 {
      forall j | 0 <= j < |s| ensures Compare(sortOrder, kx, SortKey(sortBy, s[j])) <= 0 {
        CompareIsOrder(sortOrder, kx, SortKey(sortBy, s[0]), SortKey(sortBy, s[j]));
      }
      SortedCons(x, s, sortBy, sortOrder);
    } else {
      var t := s[1..];
      assert Sorted(t, sortBy, sortOrder) by {
        forall i, j | 0 <= i < j < |t|
          ensures Compare(sortOrder, SortKey(sortBy, t[i]), SortKey(sortBy, t[j])) <= 0
        {
          assert t[i] == s[i + 1] && t[j] == s[j + 1];
        }
      }
      InsertSorted(x, t, sortBy, sortOrder);
      InsertBelowHead(x, s, sortBy, sortOrder);
      SortedCons(s[0], Insert(x, s[1..], sortBy, sortOrder), sortBy, sortOrder);
    }
  }

  /** A sorted list stays sorted under a head that compares at most 0 with each element. */
  lemma SortedCons(y: Book, t: seq<Book>, sortBy: string, sortOrder: string)
    requires Sorted(t, sortBy, sortOrder)
    requires forall j :: 0 <= j < |t| ==> Compare(sortOrder, SortKey(sortBy, y), SortKey(sortBy, t[j])) <= 0
    ensures Sorted([y] + t, sortBy, sortOrder)
  {
    var r := [y] + t;
    forall i, j | 0 <= i < j < |r|
      ensures Compare(sortOrder, SortKey(sortBy, r[i]), SortKey(sortBy, r[j])) <= 0
    {
      if i > 0 {
        assert r[i] == t[i - 1] && r[j] == t[j - 1];
      } else {
        assert r[j] == t[j - 1];
      }
    }
  }

  /** When `x` goes past the head of a sorted list, the head compares at most 0
      with every element of the rest after the insertion. */
  lemma InsertBelowHead(x: Book, s: seq<Book>, sortBy: string, sortOrder: string)
    requires Sorted(s, sortBy, sortOrder) && s != []
    requires Compare(sortOrder, SortKey(sortBy, x), SortKey(sortBy, s[0])) > 0
    ensures forall j :: 0 <= j < |Insert(x, s[1..], sortBy, sortOrder)| ==>
              Compare(sortOrder, SortKey(sortBy, s[0]), SortKey(sortBy, Insert(x, s[1..], sortBy, sortOrder)[j])) <= 0
  {
    var rest := Insert(x, s[1..], sortBy, sortOrder);
    var k0 := SortKey(sortBy, s[0]);
    CompareIsOrder(sortOrder, SortKey(sortBy, x), k0, k0);
    forall j | 0 <= j < |rest| ensures Compare(sortOrder, k0, SortKey(sortBy, rest[j])) <= 0 {
      assert rest[j] in multiset(rest);
      if rest[j] != x {
        assert rest[j] in s[1..];
        var m :| 0 <= m < |s[1..]| && s[1..][m] == rest[j];
        assert s[m + 1] == rest[j];
      }
    }
  }

  /** The stable sort applied to the filtered list: a sorted permutation. */
  function Sort(s: seq<Book>, sortBy: string, sortOrder: string): (r: seq<Book>)
    ensures multiset(r) == multiset(s)
    ensures Sorted(r, sortBy, sortOrder)
  {
    if s == [] then []
    else
      assert s == [s[0]] + s[1..];
      var rest := Sort(s[1..], sortBy, sortOrder);
      InsertSorted(s[0], rest, sortBy, sortOrder);
      Insert(s[0], rest, sortBy, sortOrder)
  }

  function KeyIs(sortBy: string, k: Key): Book -> bool {
    b => SortKey(sortBy, b) == k
  }

  /** The elements of `s` whose key is `k`, in order. */
  function WithKey(s: seq<Book>, sortBy: string, k: Key): seq<Book> {
    Seqs.Filter(s, KeyIs(sortBy, k))
  }

  lemma {:induction false} InsertStable(x: Book, s: seq<Book>, sortBy: string, sortOrder: string, k: Key)
    ensures WithKey(Insert(x, s, sortBy, sortOrder), sortBy, k)
         == Seqs.Filter([x], KeyIs(sortBy, k)) + WithKey(s, sortBy, k)
    decreases |s|, 1
  {
    if s == [] {
      assert Insert(x, s, sortBy, sortOrder) == [x] + s;
      Seqs.FilterAppend([x], s, KeyIs(sortBy, k));
    } else if Compare(sortOrder, SortKey(sortBy, x), SortKey(sortBy, s[0])) <= 0 {
      assert Insert(x, s, sortBy, sortOrder) == [x] + s;
      Seqs.FilterAppend([x], s, KeyIs(sortBy, k));
    } else {
      InsertStablePast(x, s, sortBy, sortOrder, k);
    }
  }

  /** The case where `x` moves past the first element, whose key differs from its own. */
  lemma {:induction false} InsertStablePast(x: Book, s: seq<Book>, sortBy: string, sortOrder: string, k: Key)
    requires s != [] && Compare(sortOrder, SortKey(sortBy, x), SortKey(sortBy, s[0])) > 0
    ensures WithKey(Insert(x, s, sortBy, sortOrder), sortBy, k)
         == Seqs.Filter([x], KeyIs(sortBy, k)) + WithKey(s, sortBy, k)
    decreases |s|, 0
  {
    var t := s[1..];
    InsertPast(x, s, sortBy, sortOrder);
    InsertStable(x, t, sortBy, sortOrder, k);
    KeysDiffer(x, s[0], sortBy, sortOrder, k);
    Seqs.FilterSwapHead(s[0], x, Insert(x, t, sortBy, sortOrder), t, KeyIs(sortBy, k));
    assert s == [s[0]] + t;
  }

  lemma InsertPast(x: Book, s: seq<Book>, sortBy: string, sortOrder: string)
    requires s != [] && Compare(sortOrder, SortKey(sortBy, x), SortKey(sortBy, s[0])) > 0
    ensures Insert(x, s, sortBy, sortOrder) == [s[0]] + Insert(x, s[1..], sortBy, sortOrder)
  {
  }

  /** Books the comparator separates do not share a key. */
  lemma KeysDiffer(x: Book, y: Book, sortBy: string, sortOrder: string, k: Key)
    requires Compare(sortOrder, SortKey(sortBy, x), SortKey(sortBy, y)) > 0
    ensures !(KeyIs(sortBy, k)(x) && KeyIs(sortBy, k)(y))
  {
    CompareIsOrder(sortOrder, SortKey(sortBy, x), SortKey(sortBy, y), SortKey(sortBy, y));
  }

  /** Stability: the books sharing a key appear in the output in their input order. */
  lemma {:induction false} SortStable(s: seq<Book>, sortBy: string, sortOrder: string, k: Key)
    ensures WithKey(Sort(s, sortBy, sortOrder), sortBy, k) == WithKey(s, sortBy, k)
  {
    if s != [] {
      SortStable(s[1..], sortBy, sortOrder, k);
      InsertStable(s[0], Sort(s[1..], sortBy, sortOrder), sortBy, sortOrder, k);
      assert s == [s[0]] + s[1..];
      Seqs.FilterAppend([s[0]], s[1..], KeyIs(sortBy, k));
    }
  }

  /** `'asc'` (and any setting other than `'desc'`) gives non-decreasing keys;
      `'desc'` gives non-increasing keys. */
  lemma SortDirection(s: seq<Book>, sortBy: string, sortOrder: string)
    ensures var r := Sort(s, sortBy, sortOrder);
            forall i, j :: 0 <= i < j < |r| ==>
              if sortOrder == "desc" then !KeyLess(SortKey(sortBy, r[i]), SortKey(sortBy, r[j]))
              else !KeyLess(SortKey(sortBy, r[j]), SortKey(sortBy, r[i]))
  {
    var r := Sort(s, sortBy, sortOrder);
    forall i, j | 0 <= i < j < |r|
      ensures if sortOrder == "desc" then !KeyLess(SortKey(sortBy, r[i]), SortKey(sortBy, r[j]))
              else !KeyLess(SortKey(sortBy, r[j]), SortKey(sortBy, r[i]))
    {
      var a, b := SortKey(sortBy, r[i]), SortKey(sortBy, r[j]);
      assert Compare(sortOrder, a, b) <= 0;
      if KeyLess(a, b) && KeyLess(b, a) {
        KeyLessTransitive(a, b, a);
        KeyLessIrreflexive(a);
      }
    }
  }

  /** `processedBooks`: filter, then sort. */
  function ProcessedBooks(books: seq<Book>, c: Criteria, sortBy: string, sortOrder: string): (r: seq<Book>)
    ensures multiset(r) == multiset(Selected(books, c))
    ensures forall b :: b in r <==> b in books && Matches(b, c)
    ensures Sorted(r, sortBy, sortOrder)
  {
    SelectedSpec(books, c);
    var r := Sort(Selected(books, c), sortBy, sortOrder);
    assert forall b :: b in r <==> b in multiset(Selected(books, c));
    r
  }

  /** The statistics under the results: the available and borrowed counts add
      up to the number of results. */
  lemma ResultCountsAddUp(books: seq<Book>, c: Criteria, sortBy: string, sortOrder: string)
    ensures var r := ProcessedBooks(books, c, sortBy, sortOrder);
            CountAvailable(r) + CountBorrowed(r) == |r|
  {
    CountsAddUp(ProcessedBooks(books, c, sortBy, sortOrder));
  }

  /** `results.some(book => book.genre === genre)`. */
  predicate HasGenre(results: seq<Book>, g: string) {
    exists i :: 0 <= i < |results| && results[i].genre == g
  }

  function GenreIn(results: seq<Book>): string -> bool {
    g => HasGenre(results, g)
  }

  /** The "genres" statistic: how many of the offered genres occur among the results. */
  function GenresShown(books: seq<Book>, results: seq<Book>): nat {
    |Seqs.Filter(UniqueGenres(books), GenreIn(results))|
  }

  /** The genres statistic counts the distinct genres of any selection of the books. */
  lemma GenresShownCount(books: seq<Book>, r: seq<Book>)
    requires forall b :: b in r ==> b in books
    ensures GenresShown(books, r) == |Genres(r)|
  {
    OfferedGenresShown(books, r);
    Seqs.DistinctFilterCard(UniqueGenres(books), GenreIn(r), Genres(r));
  }

  /** In particular it counts the distinct genres of the displayed results. */
  lemma ResultGenresCount(books: seq<Book>, c: Criteria, sortBy: string, sortOrder: string)
    ensures var r := ProcessedBooks(books, c, sortBy, sortOrder);
            GenresShown(books, r) == |Genres(r)|
  {
    GenresShownCount(books, ProcessedBooks(books, c, sortBy, sortOrder));
  }

  /** Among the offered genres, those present in a selection of the books are
      exactly the selection's genres. */
  lemma OfferedGenresShown(books: seq<Book>, r: seq<Book>)
    requires forall b :: b in r ==> b in books
    ensures forall g :: g in Genres(r) <==> g in UniqueGenres(books) && GenreIn(r)(g)
  {
    var u := UniqueGenres(books);
    var p := GenreIn(r);
    forall g ensures g in u && p(g) <==> g in Genres(r) {
      if g in Genres(r) {
        var b :| b in r && b.genre == g;
        assert g in Genres(books);
        var i :| 0 <= i < |r| && r[i] == b;
      }
      if p(g) {
        var i :| 0 <= i < |r| && r[i].genre == g;
        assert r[i] in r;
      }
    }
  }
}
