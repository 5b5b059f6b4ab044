/** The local record store behind the `useBooks` hook: one persisted list of
    books, seeded with the demonstration records, with create, update and
    delete. The hook's service throws on a logical error; here that is an
    `Err` result. */
module LocalBooks {
  import opened Books
  import Seqs

  datatype StoreError = MissingId | NotFound

  /** The message the service throws with. */
  function Message(e: StoreError): string {
    match e
    case MissingId => "ID du livre requis pour la mise à jour"
    case NotFound => "Livre non trouvé"
  }

  datatype Result<+T> = Ok(value: T) | Err(error: StoreError)

  /** `Math.max(0, ...books.map(b => b.ID || 0))`. */
  function MaxId(books: seq<Book>): (m: int)
    ensures m >= 0
    ensures forall i :: 0 <= i < |books| ==> IdOrZero(books[i]) <= m
    ensures m == 0 || exists i :: 0 <= i < |books| && IdOrZero(books[i]) == m
  {
    if books == [] then 0
    else
      var rest := MaxId(books[1..]);
      assert forall i :: 1 <= i < |books| ==> books[i] == books[1..][i - 1];
      if IdOrZero(books[0]) > rest then IdOrZero(books[0]) else rest
  }

  /** The identifier `createBook` assigns: at least 1, and above every identifier in use. */
  function NextId(books: seq<Book>): (id: int)
    ensures id >= 1
    ensures forall i :: 0 <= i < |books| && books[i].id.Some? ==> books[i].id.value < id
  {
    MaxId(books) + 1
  }

  /** The record `createBook` stores for `data` with identifier `id`; the
      clock is read twice, once for each timestamp. */
  function NewRecord(data: BookFormData, id: int, created: Timestamp, updated: Timestamp): Book {
    Book(Some(id), data.title, data.author, data.isbn, data.genre, data.publicationYear,
         data.publisher, data.pages, data.description, data.available.GetOr(true),
         data.coverImage, Some(created), Some(updated))
  }

  /** `books.findIndex(b => b.ID === id)`, with `None` for -1. */
  function IndexOfId(books: seq<Book>, id: int): (r: Option<nat>)
    ensures r.None? <==> !HasId(books, id)
    ensures r.Some? ==> r.value < |books| && books[r.value].id == Some(id)
    ensures r.Some? ==> forall j :: 0 <= j < r.value ==> books[j].id != Some(id)
  {
    if books == [] then None
    else if books[0].id == Some(id) then Some(0)
    else
      var rest := IndexOfId(books[1..], id);
      assert forall i :: 1 <= i < |books| ==> books[i] == books[1..][i - 1];
      if rest.None? then None else Some(rest.value + 1)
  }

  /** `books.filter(b => b.ID !== id)`. */
  function Without(books: seq<Book>, id: int): seq<Book> {
    Seqs.Filter(books, (b: Book) => b.id != Some(id))
  }

  /** Deleting keeps exactly the records with another identifier, in their
      order. */
  lemma WithoutSpec(books: seq<Book>, id: int)
    ensures forall b :: b in Without(books, id) <==> b in books && b.id != Some(id)
    ensures !HasId(Without(books, id), id)
    ensures Seqs.IsSubsequence(Without(books, id), books)
  {
    Seqs.FilterMembers(books, (b: Book) => b.id != Some(id));
    Seqs.FilterIsSubsequence(books, (b: Book) => b.id != Some(id));
  }

  /** Deleting removes something exactly when the identifier is in use. */
  lemma WithoutShrinks(books: seq<Book>, id: int)
    ensures |Without(books, id)| == |books| <==> !HasId(books, id)
  {
    Seqs.FilterKeepsAll(books, (b: Book) => b.id != Some(id));
  }

  /** With distinct identifiers, a delete of a present identifier removes exactly one record. */
  lemma {:induction false} WithoutRemovesOne(books: seq<Book>, id: int)
    requires UniqueIds(books) && HasId(books, id)
    ensures |Without(books, id)| == |books| - 1
  {
    var p := (b: Book) => b.id != Some(id);
    assert books == [books[0]] + books[1..];
    assert UniqueIds(books[1..]) by {
      forall i, j | 0 <= i < j < |books| - 1 && books[1..][i].id.Some?
        ensures books[1..][i].id != books[1..][j].id
      {
        assert books[1..][i] == books[i + 1] && books[1..][j] == books[j + 1];
      }
    }
    if books[0].id == Some(id) {
      assert !HasId(books[1..], id) by {
        forall j | 0 <= j < |books| - 1 ensures books[1..][j].id != Some(id) {
          assert books[1..][j] == books[j + 1];
        }
      }
      Seqs.FilterKeepsAll(books[1..], p);
    } else {
      var k :| 0 <= k < |books| && books[k].id == Some(id);
      assert books[1..][k - 1].id == Some(id);
      WithoutRemovesOne(books[1..], id);
    }
  }

  /** A record with a fresh identifier keeps identifiers distinct. */
  lemma AppendNewKeepsUnique(books: seq<Book>, data: BookFormData, created: Timestamp, updated: Timestamp)
    requires UniqueIds(books)
    ensures UniqueIds(books + [NewRecord(data, NextId(books), created, updated)])
  {
  }

  /** Replacing a record by one with the same identifier keeps identifiers distinct. */
  lemma ReplaceKeepsUnique(books: seq<Book>, k: nat, b: Book)
    requires UniqueIds(books) && k < |books| && b.id == books[k].id
    ensures UniqueIds(books[k := b])
  {
  }

  /** A record in front of a list keeps identifiers distinct when its own is not in the list. */
  lemma UniqueCons(b: Book, t: seq<Book>)
    requires UniqueIds(t)
    requires b.id.Some? ==> forall x :: x in t ==> x.id != b.id
    ensures UniqueIds([b] + t)
  {
    var s := [b] + t;
    forall i, j | 0 <= i < j < |s| && s[i].id.Some? ensures s[i].id != s[j].id {
      if i == 0 {
        assert s[j] == t[j - 1];
        assert t[j - 1] in t;
      } else {
        assert s[i] == t[i - 1] && s[j] == t[j - 1];
      }
    }
  }

  /** Removing records keeps identifiers distinct. */
  lemma {:induction false} WithoutKeepsUnique(books: seq<Book>, id: int)
    requires UniqueIds(books)
    ensures UniqueIds(Without(books, id))
  {
    if books != [] {
      var b := books[0];
      var t := books[1..];
      assert books == [b] + t;
      assert UniqueIds(t) by {
        forall i, j | 0 <= i < j < |t| && t[i].id.Some? ensures t[i].id != t[j].id {
          assert t[i] == books[i + 1] && t[j] == books[j + 1];
        }
      }
      WithoutKeepsUnique(t, id);
      var rest := Without(t, id);
      assert Without(books, id) == if b.id != Some(id) then [b] + rest else rest;
      if b.id != Some(id) {
        WithoutSpec(t, id);
        assert forall x :: x in rest ==> x in t;
        assert b.id.Some? ==> forall x :: x in t ==> x.id != b.id by {
          forall x | x in t && b.id.Some? ensures x.id != b.id {
            var j :| 0 <= j < |t| && t[j] == x;
            assert books[j + 1] == x;
          }
        }
        UniqueCons(b, rest);
      }
    }
  }

  /** `updateBook`'s guard `!bookData.ID`: a missing identifier or 0. */
  predicate Falsy(id: Option<int>) {
    id.None? || id.value == 0
  }

  /** The browser's persisted entry, with the service's operations on it.
      `seed` is the demonstration list itself: a read of an absent entry
      returns that very list rather than a copy, so a create or an update in
      the same call changes it in place, and a later read of an absent entry
      returns the changed list. */
  class BookStore {
    /** The `library_books` entry: `None` when it is absent or cannot be read. */
    var stored: Option<seq<Book>>
    /** The `demoBooks` list a read of an absent entry returns. */
    var seed: seq<Book>

    /** A store over the browser's current entry, seeded with the demonstration records. */
    constructor (initial: Option<seq<Book>>)
      ensures stored == initial && seed == Demo
      ensures initial.None? || UniqueIds(initial.value) ==> Valid()
    {
      stored := initial;
      seed := Demo;
      DemoSeed();
    }

    /** The list a read returns: what is stored, or the seed. */
    function Current(): seq<Book>
      reads this
    {
      stored.GetOr(seed)
    }

    /** Identifiers in the seed and in the list are distinct. */
    predicate Valid()
      reads this
    {
      UniqueIds(seed) && UniqueIds(Current())
    }

    /** `getLocalBooks`: the stored list, or the seed, which is then stored. */
    method Load() returns (books: seq<Book>)
      modifies this
      ensures books == old(Current())
      ensures old(stored).None? ==> books == seed
      ensures stored == Some(books) && seed == old(seed)
      ensures Current() == old(Current())
    {
      if stored.Some? {
        books := stored.value;
      } else {
        stored := Some(seed);
        books := seed;
      }
    }

    /** `saveLocalBooks`. */
    method Save(books: seq<Book>)
      modifies this
      ensures stored == Some(books) && seed == old(seed)
    {
      stored := Some(books);
    }

    /** `getBooks`: the stored list, in stored order. */
    method GetBooks() returns (books: seq<Book>)
      modifies this
      ensures books == old(Current())
      ensures stored == Some(books) && seed == old(seed)
      ensures Valid() == old(Valid())
    {
      books := Load();
    }

    /** `createBook`: appends a record with the next identifier, stamped by
        two readings of the clock. When the list read was the seed itself,
        the `push` appends to the seed as well. */
    method CreateBook(data: BookFormData, created: Timestamp, updated: Timestamp) returns (book: Book)
      modifies this
      ensures book.id == Some(NextId(old(Current())))
      ensures forall i :: 0 <= i < |old(Current())| && old(Current())[i].id.Some? ==>
                old(Current())[i].id.value < book.id.value
      ensures CarriesForm(book, data)
      ensures book.available == data.available.GetOr(true)
      ensures book.createdAt == Some(created) && book.updatedAt == Some(updated)
      ensures stored == Some(old(Current()) + [book])
      ensures seed == if old(stored).None? then old(seed) + [book] else old(seed)
      ensures old(Valid()) ==> Valid()
    {
      var reseeded := stored.None?;
      var books := Load();
      book := NewRecord(data, NextId(books), created, updated);
      if UniqueIds(books) {
        AppendNewKeepsUnique(books, data, created, updated);
      }
      if reseeded {
        seed := books + [book];
      }
      Save(books + [book]);
    }

    /** `updateBook`: replaces the first record with the input's identifier by
        the input with a fresh `updatedAt`. When the list read was the seed
        itself, the assignment `books[index] = …` changes the seed as well. */
    method UpdateBook(book: Book, now: Timestamp) returns (r: Result<Book>)
      modifies this
      ensures Falsy(book.id) ==> r == Err(MissingId) && stored == old(stored) && seed == old(seed)
      ensures !Falsy(book.id) && !HasId(old(Current()), book.id.value) ==>
                r == Err(NotFound) && stored == Some(old(Current())) && seed == old(seed)
      ensures !Falsy(book.id) && HasId(old(Current()), book.id.value) ==>
                var k := IndexOfId(old(Current()), book.id.value).value;
                && r == Ok(book.(updatedAt := Some(now)))
                && stored == Some(old(Current())[k := r.value])
                && seed == if old(stored).None? then old(seed)[k := r.value] else old(seed)
      ensures old(Valid()) ==> Valid()
    {
      if Falsy(book.id) {
        return Err(MissingId);
      }
      var reseeded := stored.None?;
      var books := Load();
      var index := IndexOfId(books, book.id.value);
      if index.None? {
        return Err(NotFound);
      }
      var updated := book.(updatedAt := Some(now));
      if UniqueIds(books) {
        ReplaceKeepsUnique(books, index.value, updated);
      }
      if reseeded {
        seed := books[index.value := updated];
      }
      Save(books[index.value := updated]);
      r := Ok(updated);
    }

    /** `deleteBook`: stores the list without the records carrying `id`; fails
        when none does. The filter builds a new list, so the seed is untouched. */
    method DeleteBook(id: int) returns (r: Result<()>)
      modifies this
      ensures !HasId(old(Current()), id) ==> r == Err(NotFound) && stored == Some(old(Current()))
      ensures HasId(old(Current()), id) ==> r == Ok(()) && stored == Some(Without(old(Current()), id))
      ensures seed == old(seed)
      ensures old(Valid()) ==> Valid()
    {
      var books := Load();
      var filtered := Without(books, id);
      WithoutShrinks(books, id);
      if |filtered| == |books| {
        return Err(NotFound);
      }
      if UniqueIds(books) {
        WithoutKeepsUnique(books, id);
      }
      Save(filtered);
      r := Ok(());
    }
  }

  /** A second delete of the same identifier finds nothing. */
  lemma DeleteTwiceFails(books: seq<Book>, id: int)
    ensures !HasId(Without(books, id), id)
    ensures Without(Without(books, id), id) == Without(books, id)
  {
    WithoutSpec(books, id);
    Seqs.FilterKeepsAll(Without(books, id), (b: Book) => b.id != Some(id));
  }
}
