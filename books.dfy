/** The book record of the catalogue, the form data it is created from, and the
    five demonstration records a fresh local store is seeded with. */
module Books {

  datatype Option<+T> = None | Some(value: T) {
    function GetOr(default: T): T {
      match this
      case Some(v) => v
      case None => default
    }
  }

  /** A point of the abstract clock that stands for the ISO timestamps. */
  type Timestamp = nat

  /** A stored record. `id` is absent until the store assigns one; the
      timestamps are absent on the demonstration records. */
  datatype Book = Book(
    id: Option<int>,
    title: string,
    author: string,
    isbn: string,
    genre: string,
    publicationYear: int,
    publisher: string,
    pages: int,
    description: Option<string>,
    available: bool,
    coverImage: Option<string>,
    createdAt: Option<Timestamp>,
    updatedAt: Option<Timestamp>)

  /** What the form hands to `createBook`. `available` is optional here because
      the store defaults it when the caller leaves it out. */
  datatype BookFormData = BookFormData(
    title: string,
    author: string,
    isbn: string,
    genre: string,
    publicationYear: int,
    publisher: string,
    pages: int,
    description: Option<string>,
    available: Option<bool>,
    coverImage: Option<string>)

  /** `b.ID || 0`: a missing identifier counts as 0. */
  function IdOrZero(b: Book): int {
    match b.id
    case Some(i) => i
    case None => 0
  }

  /** Some record of `books` carries identifier `id`. */
  predicate HasId(books: seq<Book>, id: int) {
    exists i :: 0 <= i < |books| && books[i].id == Some(id)
  }

  /** No two records carry the same identifier (records without one are not compared). */
  predicate UniqueIds(books: seq<Book>) {
    forall i, j :: 0 <= i < j < |books| && books[i].id.Some? ==> books[i].id != books[j].id
  }

  /** The record fields other than identifier, availability and timestamps are those of `data`. */
  predicate CarriesForm(b: Book, data: BookFormData) {
    && b.title == data.title
    && b.author == data.author
    && b.isbn == data.isbn
    && b.genre == data.genre
    && b.publicationYear == data.publicationYear
    && b.publisher == data.publisher
    && b.pages == data.pages
    && b.description == data.description
    && b.coverImage == data.coverImage
  }

  function DemoBook(id: int, title: string, author: string, isbn: string, genre: string,
                    year: int, pages: int, description: string, available: bool, cover: string): Book
  {
    Book(Some(id), title, author, isbn, genre, year, "Gallimard", pages, Some(description),
         available, Some(cover), None, None)
  }

  /** The seed written to an empty store. */
  const Demo: seq<Book> := [
    DemoBook(1, "Le Petit Prince", "Antoine de Saint-Exupéry", "978-2-07-040848-4", "Fiction",
      1943, 96, "Un conte poétique et philosophique sous l'apparence d'un conte pour enfants.", true,
      "https://images.unsplash.com/photo-1481627834876-b7833e8f5570?w=300&h=400&fit=crop"),
    DemoBook(2, "1984", "George Orwell", "978-2-07-036822-5", "Science-fiction",
      1949, 439, "Un roman dystopique qui dépeint une société totalitaire où la pensée est contrôlée.", false,
      "https://images.unsplash.com/photo-1543002588-bfa74002ed7e?w=300&h=400&fit=crop"),
    DemoBook(3, "L'Étranger", "Albert Camus", "978-2-07-036002-1", "Fiction",
      1942, 186, "L'histoire de Meursault, un homme indifférent qui commet un meurtre absurde.", true,
      "https://images.unsplash.com/photo-1524995997946-a1c2e315a42f?w=300&h=400&fit=crop"),
    DemoBook(4, "Les Misérables", "Victor Hugo", "978-2-07-040785-2", "Fiction",
      1862, 1232, "L'épopée de Jean Valjean dans la France du XIXe siècle.", true,
      "https://images.unsplash.com/photo-1507003211169-0a1dd7228f2d?w=300&h=400&fit=crop"),
    DemoBook(5, "Madame Bovary", "Gustave Flaubert", "978-2-07-036173-8", "Fiction",
      1857, 464, "L'histoire d'Emma Bovary, une femme qui rêve d'une vie plus passionnante.", false,
      "https://images.unsplash.com/photo-1481627834876-b7833e8f5570?w=300&h=400&fit=crop")
  ]

  /** The seed holds exactly the records with identifiers 1 to 5, in that order, all distinct. */
  lemma DemoSeed()
    ensures |Demo| == 5
    ensures forall i :: 0 <= i < 5 ==> Demo[i].id == Some(i + 1)
    ensures UniqueIds(Demo)
  {
  }
}
