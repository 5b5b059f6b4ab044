/** The book form: its field-by-field validation, the submit guard, and the
    field update that clears the field's error. The current year, which the
    form reads from the clock, is a parameter. */
module BookForm {
  import opened Books
  import opened Strings

  /** The keys of the form data, which are also the keys of the error map. */
  datatype Field =
    | Title | Author | Isbn | Genre | PublicationYear | Publisher | Pages
    | Description | Available | CoverImage

  /** The form's own error messages. */
  const TitleRequired := "Le titre est requis"
  const AuthorRequired := "L'auteur est requis"
  const IsbnRequired := "L'ISBN est requis"
  const IsbnMalformed := "Format ISBN invalide"
  const GenreRequired := "Le genre est requis"
  const PublisherRequired := "L'éditeur est requis"
  const YearInvalid := "Année de publication invalide"
  const PagesInvalid := "Le nombre de pages doit être positif"

  /** A string that `trim` empties: it holds only white space. */
  predicate Blank(s: string) {
    Trim(s) == ""
  }

  /** One character of the class `[\d-X]`: an ASCII digit, a hyphen or a capital X. */
  predicate IsbnChar(c: char) {
    ('0' <= c <= '9') || c == '-' || c == 'X'
  }

  /** `/^[\d-X]+$/`: one or more characters of the class. */
  predicate IsbnShape(s: string) {
    |s| >= 1 && forall i :: 0 <= i < |s| ==> IsbnChar(s[i])
  }

  /** The error `validateForm` records for `f`, if any. */
  function FieldError(form: BookFormData, currentYear: int, f: Field): Option<string> {
    match f
    case Title => if Blank(form.title) then Some(TitleRequired) else None
    case Author => if Blank(form.author) then Some(AuthorRequired) else None
    case Isbn =>
      if Blank(form.isbn) then Some(IsbnRequired)
      else if !IsbnShape(RemoveSpaces(form.isbn)) then Some(IsbnMalformed)
      else None
    case Genre => if form.genre == "" then Some(GenreRequired) else None
    case Publisher => if Blank(form.publisher) then Some(PublisherRequired) else None
    case PublicationYear =>
      if form.publicationYear < 1000 || form.publicationYear > currentYear + 1 then Some(YearInvalid)
      else None
    case Pages => if form.pages < 1 then Some(PagesInvalid) else None
    case Description => None
    case Available => None
    case CoverImage => None
  }

  /** The form is valid when no field has an error. */
  predicate IsValid(form: BookFormData, currentYear: int) {
    forall f :: FieldError(form, currentYear, f).None?
  }

  /** Every check passes: non-blank title, author and publisher, a non-empty
      genre, an ISBN that is digits, hyphens and X once white space is
      removed (with at least one of them), a year from 1000 to the year after
      the current one, and at least one page. */
  predicate Acceptable(form: BookFormData, currentYear: int) {
    && !Blank(form.title)
    && !Blank(form.author)
    && !Blank(form.publisher)
    && form.genre != ""
    && IsbnShape(RemoveSpaces(form.isbn))
    && 1000 <= form.publicationYear <= currentYear + 1
    && form.pages >= 1
  }

  /** The form is valid exactly when every check passes. */
  lemma ValidIff(form: BookFormData, currentYear: int)
    ensures IsValid(form, currentYear) <==> Acceptable(form, currentYear)
  {
    if IsValid(form, currentYear) {
      ValidAcceptable(form, currentYear);
    }
    if Acceptable(form, currentYear) {
      AcceptableValid(form, currentYear);
    }
  }

  lemma ValidAcceptable(form: BookFormData, currentYear: int)
    requires IsValid(form, currentYear)
    ensures Acceptable(form, currentYear)
  {
    assert FieldError(form, currentYear, Title).None?;
    assert FieldError(form, currentYear, Author).None?;
    assert FieldError(form, currentYear, Isbn).None?;
    assert FieldError(form, currentYear, Genre).None?;
    assert FieldError(form, currentYear, Publisher).None?;
    assert FieldError(form, currentYear, PublicationYear).None?;
    assert FieldError(form, currentYear, Pages).None?;
  }

  lemma AcceptableValid(form: BookFormData, currentYear: int)
    requires Acceptable(form, currentYear)
    ensures IsValid(form, currentYear)
  {
    forall f ensures FieldError(form, currentYear, f).None? {
      if f == Isbn {
        IsbnNotBlank(form.isbn);
      }
    }
  }

  /** A string with an ISBN-shaped non-space part is not blank. */
  lemma IsbnNotBlank(s: string)
    requires IsbnShape(RemoveSpaces(s))
    ensures !Blank(s)
  {
    var c := RemoveSpaces(s)[0];
    assert c in RemoveSpaces(s);
    var i :| 0 <= i < |s| && s[i] == c;
    BlankIffAllSpace(s);
  }

  /** The ISBN pattern holds after removing white space exactly when some
      character is not white space and every such character is a digit, a
      hyphen or X. */
  lemma IsbnShapeIff(s: string)
    ensures IsbnShape(RemoveSpaces(s)) <==>
              && (exists i :: 0 <= i < |s| && !IsSpace(s[i]))
              && (forall i :: 0 <= i < |s| && !IsSpace(s[i]) ==> IsbnChar(s[i]))
  {
    var r := RemoveSpaces(s);
    if r != [] {
      assert r[0] in r;
      var i :| 0 <= i < |s| && s[i] == r[0];
    }
    if exists i :: 0 <= i < |s| && !IsSpace(s[i]) {
      var i :| 0 <= i < |s| && !IsSpace(s[i]);
      assert s[i] in r;
    }
    if !IsbnShape(r) && r != [] {
      var j :| 0 <= j < |r| && !IsbnChar(r[j]);
      assert r[j] in r;
      var k :| 0 <= k < |s| && s[k] == r[j];
    }
    if exists k :: 0 <= k < |s| && !IsSpace(s[k]) && !IsbnChar(s[k]) {
      var k :| 0 <= k < |s| && !IsSpace(s[k]) && !IsbnChar(s[k]);
      assert s[k] in r;
      var j :| 0 <= j < |r| && r[j] == s[k];
    }
  }

  /** The two ISBN errors exclude each other: "required" exactly when the
      value is all white space, and "invalid format" exactly when it is not,
      yet holds a non-space character outside digits, hyphen and X. */
  lemma IsbnErrors(form: BookFormData, currentYear: int)
    ensures FieldError(form, currentYear, Isbn) == Some(IsbnRequired) <==>
              forall i :: 0 <= i < |form.isbn| ==> IsSpace(form.isbn[i])
    ensures FieldError(form, currentYear, Isbn) == Some(IsbnMalformed) <==>
              && (exists i :: 0 <= i < |form.isbn| && !IsSpace(form.isbn[i]))
              && (exists i :: 0 <= i < |form.isbn| && !IsSpace(form.isbn[i]) && !IsbnChar(form.isbn[i]))
  {
    BlankIffAllSpace(form.isbn);
    IsbnShapeIff(form.isbn);
  }

  /** The map after the check of `f` has recorded its outcome. */
  function Record(errors: map<Field, string>, form: BookFormData, currentYear: int, f: Field): map<Field, string> {
    var e := FieldError(form, currentYear, f);
    if e.Some? then errors[f := e.value] else errors
  }

  /** The fields `validateForm` checks, in the order it checks them. */
  const Checked: seq<Field> := [Title, Author, Isbn, Genre, Publisher, PublicationYear, Pages]

  /** The map the checks of `fs` build when they run in order on an empty map. */
  function Collect(form: BookFormData, currentYear: int, fs: seq<Field>): map<Field, string> {
    if fs == [] then map[]
    else Record(Collect(form, currentYear, fs[..|fs| - 1]), form, currentYear, fs[|fs| - 1])
  }

  /** After the checks of `fs`, exactly the failing fields among them have an
      entry, and it holds that field's message. */
  lemma {:induction false} CollectSpec(form: BookFormData, currentYear: int, fs: seq<Field>)
    ensures forall f :: f in Collect(form, currentYear, fs) <==> f in fs && FieldError(form, currentYear, f).Some?
    ensures forall f :: f in Collect(form, currentYear, fs) ==>
              Collect(form, currentYear, fs)[f] == FieldError(form, currentYear, f).value
  {
    if fs != [] {
      var init := fs[..|fs| - 1];
      CollectSpec(form, currentYear, init);
      assert fs == init + [fs[|fs| - 1]];
    }
  }

  /** The checks of `validateForm` leave an entry for exactly the failing
      fields, holding that field's message. */
  lemma ErrorsSpec(form: BookFormData, currentYear: int)
    ensures forall f :: f in Collect(form, currentYear, Checked) <==> FieldError(form, currentYear, f).Some?
    ensures forall f :: f in Collect(form, currentYear, Checked) ==>
              Collect(form, currentYear, Checked)[f] == FieldError(form, currentYear, f).value
  {
    CollectSpec(form, currentYear, Checked);
    forall f | FieldError(form, currentYear, f).Some? ensures f in Checked {
      CheckedFields(f);
    }
  }

  /** The checks cover every field but description, availability and cover image. */
  lemma CheckedFields(f: Field)
    ensures f in Checked <==> !(f.Description? || f.Available? || f.CoverImage?)
  {
    match f
    case Title => assert Checked[0] == f;
    case Author => assert Checked[1] == f;
    case Isbn => assert Checked[2] == f;
    case Genre => assert Checked[3] == f;
    case Publisher => assert Checked[4] == f;
    case PublicationYear => assert Checked[5] == f;
    case Pages => assert Checked[6] == f;
    case _ =>
  }

  /** One more check run at the end. */
  lemma CollectStep(form: BookFormData, currentYear: int, k: nat)
    requires 1 <= k <= |Checked|
    ensures Collect(form, currentYear, Checked[..k]) ==
              Record(Collect(form, currentYear, Checked[..k - 1]), form, currentYear, Checked[k - 1])
  {
    assert Checked[..k][..k - 1] == Checked[..k - 1];
  }

  /** The seven checks, run one after the other. */
  lemma CollectChecked(form: BookFormData, currentYear: int)
    ensures Collect(form, currentYear, Checked) ==
              var m1 := Record(map[], form, currentYear, Title);
              var m2 := Record(m1, form, currentYear, Author);
              var m3 := Record(m2, form, currentYear, Isbn);
              var m4 := Record(m3, form, currentYear, Genre);
              var m5 := Record(m4, form, currentYear, Publisher);
              var m6 := Record(m5, form, currentYear, PublicationYear);
              Record(m6, form, currentYear, Pages)
  {
    assert Checked[..0] == [];
    CollectStep(form, currentYear, 1);
    CollectStep(form, currentYear, 2);
    CollectStep(form, currentYear, 3);
    CollectStep(form, currentYear, 4);
    CollectStep(form, currentYear, 5);
    CollectStep(form, currentYear, 6);
    CollectStep(form, currentYear, 7);
    assert Checked[..7] == Checked;
  }

  /** The title check: the title must not be blank. */
  method CheckTitle(errors: map<Field, string>, form: BookFormData, currentYear: int) returns (r: map<Field, string>)
    ensures r == Record(errors, form, currentYear, Title)
  {
    r := errors;
    if Trim(form.title) == "" {
      r := r[Title := TitleRequired];
    }
  }

  /** The author check: the author must not be blank. */
  method CheckAuthor(errors: map<Field, string>, form: BookFormData, currentYear: int) returns (r: map<Field, string>)
    ensures r == Record(errors, form, currentYear, Author)
  {
    r := errors;
    if Trim(form.author) == "" {
      r := r[Author := AuthorRequired];
    }
  }

  /** The ISBN check: the ISBN must not be blank, and once white space is
      removed it must consist of digits, hyphens and X. */
  method CheckIsbn(errors: map<Field, string>, form: BookFormData, currentYear: int) returns (r: map<Field, string>)
    ensures r == Record(errors, form, currentYear, Isbn)
  {
    r := errors;
    if Trim(form.isbn) == "" {
      r := r[Isbn := IsbnRequired];
    } else if !IsbnShape(RemoveSpaces(form.isbn)) {
      r := r[Isbn := IsbnMalformed];
    }
  }

  /** The genre check: a genre must be chosen. */
  method CheckGenre(errors: map<Field, string>, form: BookFormData, currentYear: int) returns (r: map<Field, string>)
    ensures r == Record(errors, form, currentYear, Genre)
  {
    r := errors;
    if form.genre == "" {
      r := r[Genre := GenreRequired];
    }
  }

  /** The publisher check: the publisher must not be blank. */
  method CheckPublisher(errors: map<Field, string>, form: BookFormData, currentYear: int) returns (r: map<Field, string>)
    ensures r == Record(errors, form, currentYear, Publisher)
  {
    r := errors;
    if Trim(form.publisher) == "" {
      r := r[Publisher := PublisherRequired];
    }
  }

  /** The year check: the year must lie from 1000 to the year after the current one. */
  method CheckYear(errors: map<Field, string>, form: BookFormData, currentYear: int) returns (r: map<Field, string>)
    ensures r == Record(errors, form, currentYear, PublicationYear)
  {
    r := errors;
    if form.publicationYear < 1000 || form.publicationYear > currentYear + 1 {
      r := r[PublicationYear := YearInvalid];
    }
  }

  /** The pages check: there must be at least one page. */
  method CheckPages(errors: map<Field, string>, form: BookFormData, currentYear: int) returns (r: map<Field, string>)
    ensures r == Record(errors, form, currentYear, Pages)
  {
    r := errors;
    if form.pages < 1 {
      r := r[Pages := PagesInvalid];
    }
  }

  /** `validateForm`: collects one message per failing field, in the order
      the checks run, and reports whether none failed. */
  method ValidateForm(form: BookFormData, currentYear: int) returns (errors: map<Field, string>, valid: bool)
    ensures forall f :: f in errors <==> FieldError(form, currentYear, f).Some?
    ensures forall f :: f in errors ==> errors[f] == FieldError(form, currentYear, f).value
    ensures valid <==> errors == map[]
    ensures valid <==> IsValid(form, currentYear)
  {
    errors := map[];
    errors := CheckTitle(errors, form, currentYear);
    errors := CheckAuthor(errors, form, currentYear);
    errors := CheckIsbn(errors, form, currentYear);
    errors := CheckGenre(errors, form, currentYear);
    errors := CheckPublisher(errors, form, currentYear);
    errors := CheckYear(errors, form, currentYear);
    errors := CheckPages(errors, form, currentYear);
    CollectChecked(form, currentYear);
    assert errors == Collect(form, currentYear, Checked);
    ErrorsSpec(form, currentYear);
    valid := |errors| == 0;
    if !valid {
      var f :| f in errors;
    }
  }

  /** `handleSubmit`: the form data is handed on only when validation passes. */
  method HandleSubmit(form: BookFormData, currentYear: int) returns (sent: Option<BookFormData>, errors: map<Field, string>)
    ensures sent.Some? <==> IsValid(form, currentYear)
    ensures sent.Some? ==> sent.value == form
    ensures forall f :: f in errors <==> FieldError(form, currentYear, f).Some?
  {
    var valid;
    errors, valid := ValidateForm(form, currentYear);
    sent := if valid then Some(form) else None;
  }

  /** A value an input hands to `handleInputChange`; `Unset` stands for an absent optional field. */
  datatype FieldValue = Text(s: string) | Number(n: int) | Flag(b: bool) | Unset

  /** The value of field `f`. */
  function Get(form: BookFormData, f: Field): FieldValue {
    match f
    case Title => Text(form.title)
    case Author => Text(form.author)
    case Isbn => Text(form.isbn)
    case Genre => Text(form.genre)
    case PublicationYear => Number(form.publicationYear)
    case Publisher => Text(form.publisher)
    case Pages => Number(form.pages)
    case Description => if form.description.Some? then Text(form.description.value) else Unset
    case Available => if form.available.Some? then Flag(form.available.value) else Unset
    case CoverImage => if form.coverImage.Some? then Text(form.coverImage.value) else Unset
  }

  /** The inputs hand each field a value of its own type. */
  predicate Fits(f: Field, v: FieldValue) {
    match f
    case PublicationYear => v.Number?
    case Pages => v.Number?
    case Available => v.Flag?
    case _ => v.Text?
  }

  /** `{...prev, [field]: value}`. */
  function Set(form: BookFormData, f: Field, v: FieldValue): (r: BookFormData)
    requires Fits(f, v)
    ensures Get(r, f) == v
    ensures forall g :: g != f ==> Get(r, g) == Get(form, g)
  {
    match f
    case Title => form.(title := v.s)
    case Author => form.(author := v.s)
    case Isbn => form.(isbn := v.s)
    case Genre => form.(genre := v.s)
    case PublicationYear => form.(publicationYear := v.n)
    case Publisher => form.(publisher := v.s)
    case Pages => form.(pages := v.n)
    case Description => form.(description := Some(v.s))
    case Available => form.(available := Some(v.b))
    case CoverImage => form.(coverImage := Some(v.s))
  }

  /** The form's state: the data being edited and the errors on display. */
  datatype FormState = FormState(data: BookFormData, errors: map<Field, string>)

  /** `handleInputChange`: stores the value, and blanks the field's error
      message if it has a non-empty one. */
  function InputChange(state: FormState, f: Field, v: FieldValue): (r: FormState)
    requires Fits(f, v)
    ensures Get(r.data, f) == v
    ensures forall g :: g != f ==> Get(r.data, g) == Get(state.data, g)
    ensures r.errors.Keys == state.errors.Keys
    ensures f in r.errors ==> r.errors[f] == ""
    ensures forall g :: g != f && g in r.errors ==> r.errors[g] == state.errors[g]
  {
    var errors := if f in state.errors && state.errors[f] != "" then state.errors[f := ""] else state.errors;
    FormState(Set(state.data, f, v), errors)
  }

  /** A field's check depends on that field alone (and on the year). */
  lemma FieldErrorLocal(a: BookFormData, b: BookFormData, currentYear: int, f: Field)
    requires Get(a, f) == Get(b, f)
    ensures FieldError(a, currentYear, f) == FieldError(b, currentYear, f)
  {
  }

  /** Changing one field leaves the verdict on every other field as it was. */
  lemma InputChangeKeepsOtherChecks(state: FormState, f: Field, v: FieldValue, currentYear: int)
    requires Fits(f, v)
    ensures forall g :: g != f ==>
              FieldError(InputChange(state, f, v).data, currentYear, g) == FieldError(state.data, currentYear, g)
  {
    forall g | g != f {
      FieldErrorLocal(InputChange(state, f, v).data, state.data, currentYear, g);
    }
  }

  /** The data a new form starts from: empty text, the current year, one
      page, available, and empty description and cover image. */
  function InitialForm(currentYear: int): (form: BookFormData)
    ensures form.publicationYear == currentYear && form.pages == 1 && form.available == Some(true)
  {
    BookFormData("", "", "", "", currentYear, "", 1, Some(""), Some(true), Some(""))
  }

  /** A new form left as it is fails exactly the five text checks, the ISBN
      one with "required". */
  lemma InitialErrors(currentYear: int)
    requires currentYear >= 1000
    ensures forall f :: FieldError(InitialForm(currentYear), currentYear, f).Some? <==>
              f in {Title, Author, Isbn, Genre, Publisher}
    ensures FieldError(InitialForm(currentYear), currentYear, Isbn) == Some(IsbnRequired)
    ensures !IsValid(InitialForm(currentYear), currentYear)
  {
    var form := InitialForm(currentYear);
    assert Blank("") by {
      assert Trim("") == "";
    }
    forall f ensures FieldError(form, currentYear, f).Some? <==> f in {Title, Author, Isbn, Genre, Publisher} {
      match f
      case Title =>
      case Author =>
      case Isbn =>
      case Genre =>
      case Publisher =>
      case _ =>
    }
  }

  /** The data the form starts from when it edits `book`: absent optional
      strings become empty. */
  function FormOf(book: Book): (form: BookFormData)
    ensures CarriesForm(book.(description := form.description, coverImage := form.coverImage), form)
    ensures form.available == Some(book.available)
    ensures form.description == Some(book.description.GetOr(""))
    ensures form.coverImage == Some(book.coverImage.GetOr(""))
  {
    BookFormData(book.title, book.author, book.isbn, book.genre, book.publicationYear,
                 book.publisher, book.pages, Some(book.description.GetOr("")),
                 Some(book.available), Some(book.coverImage.GetOr("")))
  }
}
