/** The catalogue page: its filtered list (no sorting), its genre menu and
    counts, and the request its form's submit turns into, an update of the
    record being edited or the creation of a new one. */
module BooksPage {
  import opened Books
  import opened Strings
  import opened Filters
  import Seqs
  import SearchPage
  import BookForm
  import LocalBooks

  /** The catalogue's text query looks at title, author and ISBN only, ignoring case. */
  predicate MatchesText(b: Book, term: string) {
    var q := Lower(term);
    || Contains(Lower(b.title), q)
    || Contains(Lower(b.author), q)
    || Contains(Lower(b.isbn), q)
  }

  /** The query ignores case: lower-casing it first changes no match. */
  lemma QueryCaseIrrelevant(b: Book, term: string)
    ensures MatchesText(b, Lower(term)) <==> MatchesText(b, term)
  {
    LowerIdempotent(term);
  }

  /** A query that occurs verbatim in the title, author or ISBN finds the
      book, whatever the case of either side. */
  lemma VerbatimFieldFound(b: Book, term: string)
    requires Contains(b.title, term) || Contains(b.author, term) || Contains(b.isbn, term)
    ensures MatchesText(b, term)
  {
    if Contains(b.title, term) {
      LowerKeepsContains(b.title, term);
    } else if Contains(b.author, term) {
      LowerKeepsContains(b.author, term);
    } else {
      LowerKeepsContains(b.isbn, term);
    }
  }

  /** The text, genre and availability filters, combined with AND. */
  predicate Matches(b: Book, c: Criteria) {
    MatchesText(b, c.searchTerm) && MatchesGenre(b, c.genre) && MatchesAvailability(b, c.availability)
  }

  /** `filteredBooks`: the matching books in list order. */
  function FilteredBooks(books: seq<Book>, c: Criteria): seq<Book> {
    Seqs.Filter(books, b => Matches(b, c))
  }

  /** The catalogue shows exactly the matching books, in their order. */
  lemma FilteredSpec(books: seq<Book>, c: Criteria)
    ensures forall b :: b in FilteredBooks(books, c) <==> b in books && Matches(b, c)
    ensures Seqs.IsSubsequence(FilteredBooks(books, c), books)
  {
    Seqs.FilterMembers(books, b => Matches(b, c));
    Seqs.FilterIsSubsequence(books, b => Matches(b, c));
  }

  /** An empty query matches every book. */
  lemma EmptyQueryMatchesAll(b: Book)
    ensures MatchesText(b, "")
  {
    assert Lower("") == "";
    ContainsEmpty(Lower(b.title));
  }

  /** With an empty query and both menus on `'all'` the whole list is shown, as it is. */
  lemma NoFilterShowsAll(books: seq<Book>)
    ensures FilteredBooks(books, Criteria("", "all", "all")) == books
  {
    var c := Criteria("", "all", "all");
    forall i | 0 <= i < |books| ensures Matches(books[i], c) {
      EmptyQueryMatchesAll(books[i]);
    }
    Seqs.FilterKeepsAll(books, b => Matches(b, c));
  }

  /** The catalogue's query is narrower than the search page's: a book the
      catalogue shows is one the search page finds under the same settings. */
  lemma MatchesWithinSearch(b: Book, c: Criteria)
    requires Matches(b, c)
    ensures SearchPage.Matches(b, c)
  {
  }

  /** The catalogue's list is the search page's filtered list, filtered again by
      the catalogue's query; so it is a subsequence of it. */
  lemma FilteredWithinSearch(books: seq<Book>, c: Criteria)
    ensures FilteredBooks(books, c) == Seqs.Filter(SearchPage.Selected(books, c), b => Matches(b, c))
    ensures Seqs.IsSubsequence(FilteredBooks(books, c), SearchPage.Selected(books, c))
  {
    Seqs.FilterNarrower(books, b => Matches(b, c), b => SearchPage.Matches(b, c));
    Seqs.FilterIsSubsequence(SearchPage.Selected(books, c), b => Matches(b, c));
  }

  /** `{...editingBook, ...formData}`: every field the form carries overrides
      the record's; the identifier and timestamps, which the form has no key
      for, and an optional field the form leaves out, keep the record's value. */
  function Merge(editing: Book, form: BookFormData): (r: Book)
    ensures r.id == editing.id && r.createdAt == editing.createdAt && r.updatedAt == editing.updatedAt
    ensures CarriesForm(r.(description := form.description, coverImage := form.coverImage), form)
    ensures form.description.Some? ==> r.description == form.description
    ensures form.coverImage.Some? ==> r.coverImage == form.coverImage
    ensures form.available.Some? ==> r.available == form.available.value
    ensures form.description.None? ==> r.description == editing.description
    ensures form.coverImage.None? ==> r.coverImage == editing.coverImage
    ensures form.available.None? ==> r.available == editing.available
  {
    Book(editing.id, form.title, form.author, form.isbn, form.genre, form.publicationYear,
         form.publisher, form.pages,
         if form.description.Some? then form.description else editing.description,
         form.available.GetOr(editing.available),
         if form.coverImage.Some? then form.coverImage else editing.coverImage,
         editing.createdAt, editing.updatedAt)
  }

  /** Saving the edit form unchanged gives back the record, except that an
      absent description or cover image becomes the empty string. */
  lemma MergeUnchangedForm(b: Book)
    ensures Merge(b, BookForm.FormOf(b)) ==
              b.(description := Some(b.description.GetOr("")), coverImage := Some(b.coverImage.GetOr("")))
  {
  }

  /** The edit form opened on a merged record shows what was submitted, when
      the submitted data carried every field. */
  lemma FormOfMerge(b: Book, form: BookFormData)
    requires form.description.Some? && form.available.Some? && form.coverImage.Some?
    ensures BookForm.FormOf(Merge(b, form)) == form
  {
  }

  /** Submitting the same data twice changes nothing more. */
  lemma MergeIdempotent(b: Book, form: BookFormData)
    ensures Merge(Merge(b, form), form) == Merge(b, form)
  {
  }

  /** What the form's submit asks the service for. */
  datatype Request = Update(book: Book) | Create(data: BookFormData)

  /** `handleSubmit`: with a book under edit, an update of that book merged
      with the form; otherwise the creation of a book from the form. */
  function Submit(editing: Option<Book>, form: BookFormData): (r: Request)
    ensures r.Create? <==> editing.None?
    ensures r.Create? ==> r.data == form
    ensures r.Update? ==> r.book.id == editing.value.id && r.book.createdAt == editing.value.createdAt
    ensures r.Update? ==> r.book.title == form.title && r.book.isbn == form.isbn
    ensures r.Update? ==> r.book == Merge(editing.value, form)
  {
    match editing
    case Some(b) => Update(Merge(b, form))
    case None => Create(form)
  }

  /** The record under edit was taken from the list the store returned. If
      the store has not changed since, the update names an identifier the
      store holds, so `LocalBooks.BookStore.UpdateBook` finds it and answers
      `Ok` rather than "not found". */
  lemma SubmitTargetsEdited(store: LocalBooks.BookStore, editing: Book, form: BookFormData)
    requires editing in store.Current() && !LocalBooks.Falsy(editing.id)
    ensures Submit(Some(editing), form).Update?
    ensures var id := Submit(Some(editing), form).book.id;
            && !LocalBooks.Falsy(id)
            && HasId(store.Current(), id.value)
            && LocalBooks.IndexOfId(store.Current(), id.value).Some?
  {
    var i :| 0 <= i < |store.Current()| && store.Current()[i] == editing;
  }
}
