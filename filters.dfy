/** The criteria shared by the catalogue page and the search page: a text
    query, a genre (`'all'` or one genre) and a three-state availability
    filter; the sorted list of genres offered in the genre menu; the counts
    shown beside the results. */
module Filters {
  import opened Books
  import opened Strings
  import Seqs

  /** The page's filter settings, as the select widgets hold them. */
  datatype Criteria = Criteria(searchTerm: string, genre: string, availability: string)

  /** `selectedGenre === 'all' || book.genre === selectedGenre`. */
  predicate MatchesGenre(b: Book, selected: string) {
    selected == "all" || b.genre == selected
  }

  /** The availability filter: `'all'`, `'available'` or `'unavailable'`. */
  predicate MatchesAvailability(b: Book, filter: string) {
    || filter == "all"
    || (filter == "available" && b.available)
    || (filter == "unavailable" && !b.available)
  }

  /** The three states of the availability filter; any other setting passes nothing. */
  lemma AvailabilityStates(b: Book, filter: string)
    ensures filter == "all" ==> MatchesAvailability(b, filter)
    ensures filter == "available" ==> (MatchesAvailability(b, filter) <==> b.available)
    ensures filter == "unavailable" ==> (MatchesAvailability(b, filter) <==> !b.available)
    ensures filter != "all" && filter != "available" && filter != "unavailable" ==>
              !MatchesAvailability(b, filter)
  {
  }

  predicate IsAvailable(b: Book) {
    b.available
  }

  predicate IsBorrowed(b: Book) {
    !b.available
  }

  /** `books.filter(book => book.available).length`. */
  function CountAvailable(books: seq<Book>): nat {
    |Seqs.Filter(books, IsAvailable)|
  }

  /** `books.filter(book => !book.available).length`. */
  function CountBorrowed(books: seq<Book>): nat {
    |Seqs.Filter(books, IsBorrowed)|
  }

  /** Every book is counted as available or as borrowed, and only once. */
  lemma CountsAddUp(books: seq<Book>)
    ensures CountAvailable(books) + CountBorrowed(books) == |books|
  {
    Seqs.FilterSplitCount(books, IsAvailable, IsBorrowed);
  }

  /** The genres that occur in `books`. */
  function Genres(books: seq<Book>): set<string> {
    set b | b in books :: b.genre
  }

  /** Strictly increasing under the string order, hence without repetition. */
  predicate StrictlySorted(r: seq<string>) {
    forall i, j :: 0 <= i < j < |r| ==> LexLess(r[i], r[j])
  }

  lemma StrictlySortedIsDistinct(r: seq<string>)
    requires StrictlySorted(r)
    ensures Seqs.Distinct(r)
  {
    forall i, j | 0 <= i < j < |r| ensures r[i] != r[j] {
      if r[i] == r[j] {
        LexLessIrreflexive(r[i]);
      }
    }
  }

  /** Adds `g` to a strictly sorted list of genres, at its place, unless it is there. */
  function AddGenre(r: seq<string>, g: string): (r': seq<string>)
    requires StrictlySorted(r)
    ensures StrictlySorted(r')
    ensures forall x :: x in r' <==> x in r || x == g
  {
    if r == [] then [g]
    else if g == r[0] then r
    else if LexLess(g, r[0]) then
      assert forall j :: 0 < j < |r| ==> LexLess(g, r[j]) by {
        forall j | 0 < j < |r| ensures LexLess(g, r[j]) {
          LexLessTransitive(g, r[0], r[j]);
        }
      }
      [g] + r
    else
      LexLessTotal(g, r[0]);
      assert r == [r[0]] + r[1..];
      var rest := AddGenre(r[1..], g);
      assert forall x :: x in rest ==> LexLess(r[0], x);
      [r[0]] + rest
  }

  /** `Array.from(new Set(books.map(book => book.genre))).sort()`: the distinct
      genres present, in increasing order. */
  function UniqueGenres(books: seq<Book>): (r: seq<string>)
    ensures StrictlySorted(r)
    ensures Seqs.Distinct(r)
    ensures forall g :: g in r <==> g in Genres(books)
  {
    if books == [] then []
    else
      assert books == [books[0]] + books[1..];
      assert Genres(books) == Genres(books[1..]) + {books[0].genre};
      var r := AddGenre(UniqueGenres(books[1..]), books[0].genre);
      StrictlySortedIsDistinct(r);
      r
  }
}
