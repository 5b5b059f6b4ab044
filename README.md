# Library catalogue: record store, book service, search and form logic

A Dafny model of the logic of a small library-catalogue front end written in
TypeScript and React. The model covers these parts:

- **The local record store** behind the `useBooks` hook (`LocalBooks.BookStore`).
  It holds one persisted list of books, seeded with five demonstration
  records. It offers list, create, update and delete. Creating assigns the
  identifier `max(ID || 0) + 1`. Updating replaces the first record that
  carries the identifier. Deleting removes every record that carries it.
- **The book service** (`BookService`). Each operation first tries an optional
  remote table API. When the API is absent, or its call throws, the operation
  runs the local-store logic. It answers with a `{data}` or `{error}` value
  instead of throwing.
- **The search page's result list** (`SearchPage`). The page filters by text,
  genre and availability, then sorts by title, author, year or pages,
  ascending or descending. Under the results it shows counts of results,
  available and borrowed books, and genres.
- **The catalogue page** (`BooksPage`). It has its own narrower text filter
  with no sorting, the same genre menu, and a submit handler. Its counts are
  taken over the whole catalogue, where the search page counts its results.
  The handler merges the form into the book under edit, or creates a new
  book.
- **The book form** (`BookForm`). It covers the field-by-field validation that
  builds the error map, the submit guard, the field update that clears a
  field's error, and the form's initial and edit states.

Shared pieces:

- `Books` holds the record types and the seed.
- `Seqs` models `Array.prototype.filter` and its guarantees.
- `Strings` models the string built-ins that are used: `toLowerCase`,
  `includes`, `<`, `trim`, and `replace(/\s/g, '')`.
- `Filters` holds the genre and availability filters, the genre menu and the
  statistics.

Where the outside world enters, it becomes a parameter:

- The clock becomes `now` (a `Timestamp`), or `currentYear` in the form.
  Creating a record reads the clock twice, once per timestamp, so it takes
  two readings, `created` and `updated`, which may differ.
- The remote API's outcome becomes `Remote<T>`: absent, throws, or answers.
- The browser's stored entry becomes the `stored` field of the store.

The code's behaviour, which the model follows:

- An update stores the caller's record with a fresh `updatedAt`. It does not
  merge the caller's record with the stored one. So `createdAt` is whatever
  the caller sends. The catalogue page sends the edited record's own
  `createdAt`, which is proved in `BooksPage.Submit`.
- A delete removes every record with the identifier, not just one. With
  distinct identifiers this is exactly one record
  (`LocalBooks.WithoutRemovesOne`).
- Creation does not check that the input lacks an identifier. The form data
  has no identifier field, and the store assigns one.
- The genre is only required to be non-empty. The form does not check it
  against the list of genres.
- The demonstration list is handed out by reference. A read of an absent
  entry returns the `demoBooks` constant itself, and a create or update in
  the same call then changes it in place (`push`, `books[index] = ...`). So a
  later read of an absent entry returns the changed list, not the five
  original records. The store's `seed` field models that list, and
  `CreateBook` and `UpdateBook` state how it changes.
- `BookFormData.available` is optional in the model. The declared type makes
  it a required boolean, but both services default it with `?? true`, so an
  absent value is handled.

## Model

| member | source | states |
|---|---|---|
| Books.DemoSeed | src/hooks/useBooks.ts:5-70 | the seed has five records with identifiers 1 to 5 in order, so its identifiers are distinct |
| LocalBooks.MaxId | src/hooks/useBooks.ts:117 | `Math.max(0, ...ids)` is at least 0, at least every `ID \|\| 0`, and is either 0 or one of them |
| LocalBooks.NextId | src/hooks/useBooks.ts:117 | the assigned identifier is at least 1 and larger than every identifier in the list |
| LocalBooks.IndexOfId | src/hooks/useBooks.ts:134-135 | `findIndex` finds nothing exactly when no record has the identifier; otherwise it gives the first record that has it |
| LocalBooks.WithoutSpec | src/hooks/useBooks.ts:151 | the delete filter keeps exactly the records with another identifier, in their order, and none with the deleted one |
| LocalBooks.WithoutShrinks | src/hooks/useBooks.ts:151-154 | the filtered list is as long as the original exactly when no record has the identifier, which is the "not found" test |
| LocalBooks.WithoutRemovesOne | src/hooks/useBooks.ts:151 | with distinct identifiers, deleting a present identifier removes exactly one record |
| LocalBooks.NewRecord | src/hooks/useBooks.ts:115-121 | definition: the form's fields spread into a record, with the given identifier, `available` defaulting to true, and one clock reading per timestamp |
| LocalBooks.Message | src/hooks/useBooks.ts:130 | definition: the texts thrown for a missing identifier and for an unknown one (also src/hooks/useBooks.ts:136 and :153) |
| LocalBooks.Without | src/hooks/useBooks.ts:151 | definition: `filter(b => b.ID !== id)`, so a record without an identifier is kept |
| LocalBooks.Falsy | src/hooks/useBooks.ts:129 | definition: `!bookData.ID` holds for a missing identifier and for 0 (also src/services/bookService.ts:168) |
| LocalBooks.AppendNewKeepsUnique | src/hooks/useBooks.ts:115-122 | appending the new record with the next identifier keeps identifiers distinct |
| LocalBooks.ReplaceKeepsUnique | src/hooks/useBooks.ts:139-143 | replacing a record by one with the same identifier keeps identifiers distinct |
| LocalBooks.WithoutKeepsUnique | src/hooks/useBooks.ts:151-155 | deleting keeps identifiers distinct |
| LocalBooks.DeleteTwiceFails | src/hooks/useBooks.ts:148-156 | after a delete the identifier is gone, so a second delete finds nothing and changes nothing |
| LocalBooks.BookStore.constructor | src/hooks/useBooks.ts:74-94 | a store over the browser's entry whose seed is the demonstration records; it is consistent when the entry has distinct identifiers |
| LocalBooks.BookStore.Load | src/hooks/useBooks.ts:76-94 | a read returns the stored list, or writes and returns the seed list itself when nothing is stored; the seed is unchanged |
| LocalBooks.BookStore.Save | src/hooks/useBooks.ts:96-102 | a save overwrites the stored list |
| LocalBooks.BookStore.GetBooks | src/hooks/useBooks.ts:106-110 | `getBooks` returns the list in stored order and keeps the distinct-identifier invariant |
| LocalBooks.BookStore.CreateBook | src/hooks/useBooks.ts:112-125 | the new record has an identifier above all others, carries the form's fields, defaults `available` to true, takes `createdAt` and `updatedAt` from two clock readings, and is appended; when the list read was the seed itself, the seed gets the record too; identifiers stay distinct |
| LocalBooks.BookStore.UpdateBook | src/hooks/useBooks.ts:127-146 | a falsy identifier is refused without touching the store; an unknown one is "not found"; otherwise the first matching record is replaced by the input with a fresh `updatedAt`, in the seed too when the list read was the seed itself, and nothing else changes |
| LocalBooks.BookStore.DeleteBook | src/hooks/useBooks.ts:148-156 | an unknown identifier is "not found" and leaves the list as read; otherwise the filtered list is stored; the seed is never changed; identifiers stay distinct |
| BookService.CreateBook | src/services/bookService.ts:108-144 | an API answer is returned as it is; when the API is absent or throws, the local record is created as the store creates it, with the same change to the seed, and returned as data |
| BookService.GetBooks | src/services/bookService.ts:147-163 | an API answer is returned as it is; otherwise the stored list is returned in stored order |
| BookService.UpdateBook | src/services/bookService.ts:166-206 | a falsy identifier gives the "ID required" error first; on the local path an unknown identifier gives "not found", writes the demonstration list into a missing entry and changes nothing else, a known one replaces the first match |
| BookService.DeleteBook | src/services/bookService.ts:209-235 | on the local path an unknown identifier gives "not found", writes the demonstration list into a missing entry and changes nothing else; otherwise the records are removed and `{data: {success: true}}` is returned |
| Strings.Lower | src/pages/SearchPage.tsx:47-51 | definition: `toLowerCase`, character by character (also src/pages/SearchPage.tsx:68-85 and src/pages/BooksPage.tsx:37-39) |
| Strings.IsSpace | src/components/BookForm.tsx:85 | definition: the ECMAScript white space and line terminators that `\s` matches and `trim` strips |
| Strings.LowerIdempotent | src/pages/SearchPage.tsx:47 | `toLowerCase` applied twice gives what it gives once |
| Strings.LowerKeepsContains | src/pages/SearchPage.tsx:47-50 | a text that occurs verbatim still occurs after lower-casing both sides |
| Strings.Contains | src/pages/SearchPage.tsx:47 | definition: `includes` holds when the needle is a prefix of the text from some position on |
| Strings.LexLess | src/pages/SearchPage.tsx:89-91 | definition: string `<` compares character by character, and a proper prefix comes first |
| Strings.Trim | src/components/BookForm.tsx:75 | definition: `trim` strips ECMAScript white space and line terminators from both ends |
| Strings.ContainsEmpty | src/pages/SearchPage.tsx:46-51 | every string includes the empty query |
| Strings.LexLessTransitive | src/pages/SearchPage.tsx:89-91 | string `<` is transitive |
| Strings.LexLessTotal | src/pages/SearchPage.tsx:89-91 | two different strings are ordered one way or the other |
| Strings.LexLessAsymmetric | src/pages/SearchPage.tsx:89-91 | no two strings are each below the other |
| Strings.BlankIffAllSpace | src/components/BookForm.tsx:75 | `trim` gives the empty string exactly when the string is all white space |
| Strings.RemoveSpaces | src/components/BookForm.tsx:85 | removing white space keeps exactly the characters that are not white space |
| Filters.MatchesGenre | src/pages/SearchPage.tsx:53 | definition: `'all'` passes every book, any other value only books of exactly that genre (also src/pages/BooksPage.tsx:41) |
| Filters.MatchesAvailability | src/pages/SearchPage.tsx:55-58 | definition: `'all'`, `'available'` or `'unavailable'` (also src/pages/BooksPage.tsx:43-46) |
| Filters.CountAvailable | src/pages/SearchPage.tsx:259 | definition: `filter(book => book.available).length` (also src/pages/BooksPage.tsx:140) |
| Filters.CountBorrowed | src/pages/SearchPage.tsx:265 | definition: `filter(book => !book.available).length` (also src/pages/BooksPage.tsx:146) |
| Filters.AvailabilityStates | src/pages/SearchPage.tsx:55-58 | `'all'` passes every book, `'available'` only available ones, `'unavailable'` only borrowed ones, and any other setting passes none |
| Filters.CountsAddUp | src/pages/BooksPage.tsx:135-146 | the available and borrowed counts add up to the total |
| Filters.UniqueGenres | src/pages/SearchPage.tsx:96 | the genre menu (also at src/pages/BooksPage.tsx:52) is strictly increasing, so without repetition, and lists exactly the genres present |
| SearchPage.MatchesSearch | src/pages/SearchPage.tsx:46-51 | definition: the lower-cased query occurs in the lower-cased title, author, ISBN or publisher, or in the description when it is present and not empty |
| SearchPage.QueryCaseIrrelevant | src/pages/SearchPage.tsx:47-51 | lower-casing the query first changes no match, so the search ignores the query's case |
| SearchPage.VerbatimFieldFound | src/pages/SearchPage.tsx:47-50 | a query that occurs as written in the title, author, ISBN or publisher finds the book |
| SearchPage.Matches | src/pages/SearchPage.tsx:60 | definition: the text, genre and availability tests combined with `&&` |
| SearchPage.Selected | src/pages/SearchPage.tsx:44-61 | definition: the books passing the text, genre and availability filters, kept in list order |
| SearchPage.SortKey | src/pages/SearchPage.tsx:66-86 | definition: lower-cased title or author, or year or pages; an unknown setting falls back to the lower-cased title |
| SearchPage.Compare | src/pages/SearchPage.tsx:88-92 | definition: -1, 1 or 0 by `<` and `>` on the keys, swapped when the order is `'desc'` |
| SearchPage.GenresShown | src/pages/SearchPage.tsx:271 | definition: the number of menu genres that some result has |
| SearchPage.EmptyQueryMatchesAll | src/pages/SearchPage.tsx:46-51 | an empty query matches every book |
| SearchPage.SelectedSpec | src/pages/SearchPage.tsx:44-61 | the filter keeps exactly the books that pass all three filters, as a subsequence of the list |
| SearchPage.CompareIsOrder | src/pages/SearchPage.tsx:88-92 | the comparator is antisymmetric, is 0 exactly on equal keys, and is transitive, in both directions |
| SearchPage.Insert | src/pages/SearchPage.tsx:62-93 | one insertion step adds exactly the inserted book |
| SearchPage.InsertSorted | src/pages/SearchPage.tsx:62-93 | inserting into a sorted list keeps it sorted |
| SearchPage.Sort | src/pages/SearchPage.tsx:62-93 | the sort gives a permutation of its input that is sorted under the comparator |
| SearchPage.SortStable | src/pages/SearchPage.tsx:88-93 | books with equal keys keep their input order |
| SearchPage.SortDirection | src/pages/SearchPage.tsx:88-92 | `'desc'` gives non-increasing keys; any other order gives non-decreasing keys |
| SearchPage.ProcessedBooks | src/pages/SearchPage.tsx:44-93 | the result holds exactly the matching books, as a permutation of the filtered list, sorted |
| SearchPage.ResultCountsAddUp | src/pages/SearchPage.tsx:254-265 | the available and borrowed counts of the results add up to the result count |
| SearchPage.OfferedGenresShown | src/pages/SearchPage.tsx:271 | the offered genres that occur among the results are exactly the results' genres |
| SearchPage.GenresShownCount | src/pages/SearchPage.tsx:271 | for any selection of the books, the genres statistic equals the number of distinct genres in it |
| SearchPage.ResultGenresCount | src/pages/SearchPage.tsx:271 | the genres statistic equals the number of distinct genres among the displayed results |
| BooksPage.MatchesText | src/pages/BooksPage.tsx:36-39 | definition: the lower-cased query occurs in the lower-cased title, author or ISBN |
| BooksPage.QueryCaseIrrelevant | src/pages/BooksPage.tsx:37-39 | lower-casing the query first changes no match, so the catalogue ignores the query's case |
| BooksPage.VerbatimFieldFound | src/pages/BooksPage.tsx:37-39 | a query that occurs as written in the title, author or ISBN finds the book |
| BooksPage.Matches | src/pages/BooksPage.tsx:48 | definition: the catalogue's text, genre and availability tests combined with `&&` |
| BooksPage.FilteredBooks | src/pages/BooksPage.tsx:35-49 | definition: the books passing the catalogue's text, genre and availability filters, kept in list order |
| BooksPage.FilteredSpec | src/pages/BooksPage.tsx:35-49 | the catalogue shows exactly the books that pass the three filters, in list order |
| BooksPage.EmptyQueryMatchesAll | src/pages/BooksPage.tsx:36-39 | an empty query matches every book |
| BooksPage.NoFilterShowsAll | src/pages/BooksPage.tsx:35-49 | with an empty query and both menus on `'all'`, the whole list is shown unchanged |
| BooksPage.MatchesWithinSearch | src/pages/BooksPage.tsx:36-48 | the catalogue's text query (title, author, ISBN) is narrower than the search page's |
| BooksPage.FilteredWithinSearch | src/pages/BooksPage.tsx:35-49 | the catalogue's list is the search page's filtered list filtered again, hence a subsequence of it |
| BooksPage.Merge | src/pages/BooksPage.tsx:57 | the spread keeps the edited record's identifier and timestamps, takes every field the form carries, and keeps the record's value where the form leaves an optional field out |
| BooksPage.MergeUnchangedForm | src/pages/BooksPage.tsx:57 | saving the edit form unchanged gives back the record, except that an absent description or cover image becomes empty |
| BooksPage.FormOfMerge | src/pages/BooksPage.tsx:57 | reopening the form on the merged record shows the submitted data |
| BooksPage.MergeIdempotent | src/pages/BooksPage.tsx:57 | merging the same data twice is merging it once |
| BooksPage.Submit | src/pages/BooksPage.tsx:54-68 | with no book under edit the form data goes to create; otherwise an update of exactly the merged record `{...editingBook, ...formData}`, so with the edited record's identifier and `createdAt` |
| BooksPage.SubmitTargetsEdited | src/pages/BooksPage.tsx:56-57 | an update for a record the store returned, with an identifier, names an identifier the store holds, so the store's update finds it and does not answer "not found" |
| BookForm.Blank | src/components/BookForm.tsx:75 | definition: `!x.trim()`, the text is empty once white space is stripped (also src/components/BookForm.tsx:79, :83 and :93) |
| BookForm.IsbnShape | src/components/BookForm.tsx:85 | definition: `/^[\d-X]+$/`, at least one character, each a digit, a hyphen or `X` |
| BookForm.FieldError | src/components/BookForm.tsx:75-103 | definition: each field's check and message; the ISBN is "required" when blank before its pattern is tried, and the year must lie from 1000 to the next year |
| BookForm.ValidIff | src/components/BookForm.tsx:72-107 | the form is valid exactly when title, author and publisher are not blank, a genre is set, the ISBN is digits, hyphens and X without its white space, the year is from 1000 to the next year, and there is at least one page |
| BookForm.IsbnNotBlank | src/components/BookForm.tsx:83-87 | an ISBN that passes the pattern is not blank |
| BookForm.IsbnShapeIff | src/components/BookForm.tsx:85 | the pattern holds after removing white space exactly when some character is not white space and all such characters are digits, hyphens or X |
| BookForm.IsbnErrors | src/components/BookForm.tsx:83-87 | "required" exactly when the ISBN is all white space; "invalid format" exactly when it is not, yet has a character other than white space, digits, hyphen and X |
| BookForm.CollectSpec | src/components/BookForm.tsx:72-104 | after any run of checks, exactly the failing fields among them have an entry, holding that field's message |
| BookForm.ErrorsSpec | src/components/BookForm.tsx:72-104 | the seven checks leave an entry for exactly the failing fields, with their messages |
| BookForm.CollectChecked | src/components/BookForm.tsx:75-103 | the seven checks run one after the other, in source order |
| BookForm.CheckTitle | src/components/BookForm.tsx:75-77 | the title check records "required" exactly when the title trims to empty |
| BookForm.CheckAuthor | src/components/BookForm.tsx:79-81 | the author check records "required" exactly when the author trims to empty |
| BookForm.CheckIsbn | src/components/BookForm.tsx:83-87 | the ISBN check records "required" or "invalid format" |
| BookForm.CheckGenre | src/components/BookForm.tsx:89-91 | the genre check records "required" exactly when no genre is chosen |
| BookForm.CheckPublisher | src/components/BookForm.tsx:93-95 | the publisher check records "required" exactly when the publisher trims to empty |
| BookForm.CheckYear | src/components/BookForm.tsx:97-99 | the year check records "invalid" exactly outside 1000 to the next year |
| BookForm.CheckPages | src/components/BookForm.tsx:101-103 | the pages check records "must be positive" exactly below 1 |
| BookForm.ValidateForm | src/components/BookForm.tsx:72-107 | the error map has one entry per failing field, holding its message, and the result is true exactly when the map is empty, which is exactly when the form is valid |
| BookForm.HandleSubmit | src/components/BookForm.tsx:109-114 | the data is handed on, unchanged, exactly when the form is valid |
| BookForm.Set | src/components/BookForm.tsx:117 | `{...prev, [field]: value}` sets that field and leaves every other field as it was |
| BookForm.InputChange | src/components/BookForm.tsx:116-122 | the field takes the value; a non-empty error for it becomes empty; other errors and the set of keys are unchanged |
| BookForm.FieldErrorLocal | src/components/BookForm.tsx:72-104 | each check depends only on its own field (and the year) |
| BookForm.InputChangeKeepsOtherChecks | src/components/BookForm.tsx:116-122 | changing one field leaves the verdict on every other field as it was |
| BookForm.InitialForm | src/components/BookForm.tsx:40-51 | a new form starts in the current year with one page and available |
| BookForm.InitialErrors | src/components/BookForm.tsx:40-51 | a new form left as it is fails exactly the title, author, ISBN ("required"), genre and publisher checks, so it cannot be submitted |
| BookForm.FormOf | src/components/BookForm.tsx:55-70 | the edit form copies the record's fields and its availability, with an absent description or cover image as empty text |

## Left out

- Rendering, dialogs, toasts, navigation and routing are presentation only. This covers the React components and the pages' JSX. The delete, edit, new and cancel handlers of the catalogue page only open or close the dialog and forward to the service.
- The `useBooks` hook's query cache and mutation flags (`src/hooks/useBooks.ts:159-205`) are left out. They are react-query bookkeeping: each mutation invalidates the cached list, which the model represents by reading the store again.
- The simulated 100 ms delays and the asynchrony are left out. Each operation is one uninterrupted step, as it runs on the event loop.
- JSON parsing and serialisation of the stored entry are left out. An absent, empty or unreadable entry is `stored == None`. In the book service an unreadable entry would throw; that path is not modelled.
- Write failures of `localStorage` (for example a full quota) are left out. The model's writes always succeed.
- The remote API is opaque. Its answer is a parameter and is returned unchecked.
- Timestamps are abstract clock values (`Timestamp`), not ISO strings. `currentYear` stands for `new Date().getFullYear()`.
- Strings.Lower: lowers only ASCII and Latin-1 capitals. Other alphabets and the special multi-character cases of `toLowerCase` are not covered.
- Strings.LexLessTotal: compares Unicode code points. JavaScript compares UTF-16 code units, so the two orders differ only for characters outside the Basic Multilingual Plane.
- Numbers are unbounded integers. Fractions, `NaN` and the year input's `parseInt(...) || ''` (an empty string, which the year check rejects as it rejects 0) are not modelled. The same goes for the pages input's `|| 1`.
- The hook and the service each keep their own `demoBooks` list over the same `library_books` entry. A `BookStore` holds one entry and one seed, so two stores sharing one entry, each with its own seed, is not captured.
- The search page's loading of its list through the service and its fallback (`src/pages/SearchPage.tsx:23-41`) is left out. It only chooses where the list comes from.
