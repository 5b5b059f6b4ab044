/** The book service used by the search and new-book pages. Each operation
    first tries the remote table API; when the API is absent, or its call
    throws, it runs the local-store logic instead and reports the outcome as a
    `{data}` or `{error}` value rather than throwing. The remote API is opaque:
    its outcome is a parameter. */
module BookService {
  import opened Books
  import opened LocalBooks

  /** `{data: value}` or `{error: message}`. */
  datatype Reply<+T> = Data(value: T) | Error(message: string)

  /** What trying the remote API amounts to: it is not configured, its call
      throws, or it answers (and its answer is returned as it is). */
  datatype Remote<+T> = Absent | Throws | Answers(reply: Reply<T>)

  /** The `{error}` value for a store failure. */
  function ReplyOf<T>(r: LocalBooks.Result<T>): (reply: Reply<T>)
    ensures r.Ok? <==> reply.Data?
    ensures r.Ok? ==> reply.value == r.value
    ensures r.Err? ==> reply.message == Message(r.error)
  {
    match r
    case Ok(v) => Data(v)
    case Err(e) => Error(Message(e))
  }

  /** `createBook`: on the local path (API absent or failing) the new record,
      shaped as the local store shapes it, is appended and returned as data. */
  method CreateBook(store: BookStore, data: BookFormData, created: Timestamp, updated: Timestamp,
                    remote: Remote<Book>)
    returns (reply: Reply<Book>)
    modifies store
    ensures remote.Answers? ==>
              reply == remote.reply && store.stored == old(store.stored) && store.seed == old(store.seed)
    ensures !remote.Answers? ==>
              && reply.Data?
              && reply.value.id == Some(NextId(old(store.Current())))
              && CarriesForm(reply.value, data)
              && reply.value.available == data.available.GetOr(true)
              && reply.value.createdAt == Some(created) && reply.value.updatedAt == Some(updated)
              && store.stored == Some(old(store.Current()) + [reply.value])
              && store.seed == if old(store.stored).None? then old(store.seed) + [reply.value] else old(store.seed)
    ensures old(store.Valid()) ==> store.Valid()
  {
    if remote.Answers? {
      return remote.reply;
    }
    var book := store.CreateBook(data, created, updated);
    reply := Data(book);
  }

  /** `getBooks`: on the local path, the stored list in stored order. */
  method GetBooks(store: BookStore, remote: Remote<seq<Book>>) returns (reply: Reply<seq<Book>>)
    modifies store
    ensures store.seed == old(store.seed)
    ensures remote.Answers? ==> reply == remote.reply && store.stored == old(store.stored)
    ensures !remote.Answers? ==> reply == Data(old(store.Current())) && store.stored == Some(reply.value)
    ensures old(store.Valid()) ==> store.Valid()
  {
    if remote.Answers? {
      return remote.reply;
    }
    var books := store.GetBooks();
    reply := Data(books);
  }

  /** `updateBook`: a falsy identifier is refused before anything else; on the
      local path an unknown identifier is an error and leaves the list as it
      was, and a known one has its first record replaced by the input with a
      fresh `updatedAt`. */
  method UpdateBook(store: BookStore, book: Book, now: Timestamp, remote: Remote<Book>)
    returns (reply: Reply<Book>)
    modifies store
    ensures Falsy(book.id) ==>
              reply == Error("ID du livre requis pour la mise à jour") && store.stored == old(store.stored)
    ensures !Falsy(book.id) && remote.Answers? ==> reply == remote.reply && store.stored == old(store.stored)
    ensures !Falsy(book.id) && !remote.Answers? && !HasId(old(store.Current()), book.id.value) ==>
              reply == Error("Livre non trouvé") && store.stored == Some(old(store.Current()))
    ensures !(!Falsy(book.id) && !remote.Answers? && HasId(old(store.Current()), book.id.value)) ==>
              store.seed == old(store.seed)
    ensures !Falsy(book.id) && !remote.Answers? && HasId(old(store.Current()), book.id.value) ==>
              var k := IndexOfId(old(store.Current()), book.id.value).value;
              && reply == Data(book.(updatedAt := Some(now)))
              && store.stored == Some(old(store.Current())[k := reply.value])
              && store.seed == if old(store.stored).None? then old(store.seed)[k := reply.value] else old(store.seed)
    ensures old(store.Valid()) ==> store.Valid()
  {
    if Falsy(book.id) {
      return Error(Message(MissingId));
    }
    if remote.Answers? {
      return remote.reply;
    }
    var r := store.UpdateBook(book, now);
    reply := ReplyOf(r);
  }

  /** `deleteBook`: on the local path an unknown identifier is an error and
      leaves the list as it was; otherwise the records with that identifier are
      removed and `{data: {success: true}}` is returned. */
  method DeleteBook(store: BookStore, id: int, remote: Remote<bool>) returns (reply: Reply<bool>)
    modifies store
    ensures store.seed == old(store.seed)
    ensures remote.Answers? ==> reply == remote.reply && store.stored == old(store.stored)
    ensures !remote.Answers? && !HasId(old(store.Current()), id) ==>
              reply == Error("Livre non trouvé") && store.stored == Some(old(store.Current()))
    ensures !remote.Answers? && HasId(old(store.Current()), id) ==>
              reply == Data(true) && store.stored == Some(Without(old(store.Current()), id))
    ensures old(store.Valid()) ==> store.Valid()
  {
    if remote.Answers? {
      return remote.reply;
    }
    var r := store.DeleteBook(id);
    reply := if r.Ok? then Data(true) else Error(Message(r.error));
  }
}
