/** The book record and the checks its schema applies when a book is saved: required fields,
    the status enumeration with its default, trimmed strings and a unique ISBN. */
module BookModel {
  import opened Wrappers
  import opened Documents
  import opened Text
  import opened Errors
  import opened Sequences

  /** A book's availability; no other value can be stored. */
  datatype BookStatus = Available | Issued | Reserved

  /** The enumeration value as stored. */
  function StatusName(s: BookStatus): string
  {
    match s
    case Available => "Available"
    case Issued => "Issued"
    case Reserved => "Reserved"
  }

  /** The status a string names, if it is one of the enumeration's values. */
  function ParseStatus(name: string): (r: Option<BookStatus>)
    ensures r.Some? ==> StatusName(r.value) == name
    ensures r.None? ==> forall s: BookStatus :: StatusName(s) != name
  {
    if name == "Available" then Some(Available)
    else if name == "Issued" then Some(Issued)
    else if name == "Reserved" then Some(Reserved)
    else None
  }

  /** A stored book. */
  datatype Book = Book(
    id: Id,
    title: string,
    author: string,
    isbn: string,
    status: BookStatus,
    category: string,
    description: Option<string>,
    publishedYear: Option<int>,
    publisher: Option<string>,
    coverImage: Option<string>,
    createdAt: Millis)

  /** The fields a request supplies for a book; any of them may be missing. */
  datatype BookFields = BookFields(
    title: Option<string>,
    author: Option<string>,
    isbn: Option<string>,
    status: Option<string>,
    category: Option<string>,
    description: Option<string>,
    publishedYear: Option<int>,
    publisher: Option<string>,
    coverImage: Option<string>)

  function BookId(b: Book): Id { b.id }
  function BookIsbn(b: Book): string { b.isbn }

  /** The record invariants the schema guarantees for every stored book. */
  predicate WellFormed(b: Book)
  {
    && b.title != "" && IsTrimmed(b.title)
    && b.author != "" && IsTrimmed(b.author)
    && b.isbn != "" && IsTrimmed(b.isbn)
    && b.category != "" && IsTrimmed(b.category)
    && TrimmedOption(b.description) && TrimmedOption(b.publisher) && TrimmedOption(b.coverImage)
  }

  /** A status field passes when it is absent (the default applies) or names an enumeration value. */
  predicate StatusAccepted(v: Option<string>)
  {
    v.None? || ParseStatus(v.value).Some?
  }

  /** The checks that fail, in schema order, each with the schema's message. */
  function Failures(f: BookFields): (r: seq<FieldError>)
    ensures r == [] <==> (Present(f.title) && Present(f.author) && Present(f.isbn) && Present(f.category)
                          && StatusAccepted(f.status))
  {
    Check(Present(f.title), FieldError("title", "Book title is required"))
    + Check(Present(f.author), FieldError("author", "Author name is required"))
    + Check(Present(f.isbn), FieldError("isbn", "ISBN is required"))
    + Check(StatusAccepted(f.status),
            FieldError("status", "`" + (if f.status.Some? then f.status.value else "")
                                 + "` is not a valid enum value for path `status`."))
    + Check(Present(f.category), FieldError("category", "Category is required"))
  }

  /** Building and validating a new book document: strings are trimmed, the status defaults to
      `Available`, and a missing required field or an unknown status is a `ValidationError`. */
  function Validate(f: BookFields, id: Id, now: Millis): (r: Result<Book, ErrorValue>)
    ensures r.Ok? <==> (Present(f.title) && Present(f.author) && Present(f.isbn) && Present(f.category)
                        && StatusAccepted(f.status))
    ensures r.Err? ==> r.error.Thrown? && r.error.name == "ValidationError"
    ensures r.Ok? ==> WellFormed(r.value)
    ensures r.Ok? ==> (&& r.value.id == id && r.value.createdAt == now
                       && r.value.title == Trim(f.title.value) && r.value.author == Trim(f.author.value)
                       && r.value.isbn == Trim(f.isbn.value) && r.value.category == Trim(f.category.value)
                       && r.value.description == TrimOption(f.description)
                       && r.value.publisher == TrimOption(f.publisher)
                       && r.value.coverImage == TrimOption(f.coverImage)
                       && r.value.publishedYear == f.publishedYear)
    ensures r.Ok? ==> r.value.status == if f.status.None? then Available else ParseStatus(f.status.value).value
  {
    var failures := Failures(f);
    if failures != [] then Err(ValidationError("Book", failures))
    else
      TrimIsTrimmed(f.title.value);
      TrimIsTrimmed(f.author.value);
      TrimIsTrimmed(f.isbn.value);
      TrimIsTrimmed(f.category.value);
      TrimOptionTrimmed(f.description);
      TrimOptionTrimmed(f.publisher);
      TrimOptionTrimmed(f.coverImage);
      Ok(Book(id, Trim(f.title.value), Trim(f.author.value), Trim(f.isbn.value),
              if f.status.None? then Available else ParseStatus(f.status.value).value,
              Trim(f.category.value), TrimOption(f.description), f.publishedYear,
              TrimOption(f.publisher), TrimOption(f.coverImage), now))
  }

  /** The fields of a stored book, as they would be sent back to be saved again. */
  function FieldsOf(b: Book): BookFields
  {
    BookFields(Some(b.title), Some(b.author), Some(b.isbn), Some(StatusName(b.status)), Some(b.category),
               b.description, b.publishedYear, b.publisher, b.coverImage)
  }

  /** Saving a stored book's own fields again gives the same book: trimming a stored value changes
      nothing and the stored status is accepted. */
  lemma RevalidateStored(b: Book)
    requires WellFormed(b)
    ensures Validate(FieldsOf(b), b.id, b.createdAt) == Ok(b)
  {
    TrimmedIsFixed(b.title);
    TrimmedIsFixed(b.author);
    TrimmedIsFixed(b.isbn);
    TrimmedIsFixed(b.category);
    TrimmedOptionIsFixed(b.description);
    TrimmedOptionIsFixed(b.publisher);
    TrimmedOptionIsFixed(b.coverImage);
    assert ParseStatus(StatusName(b.status)) == Some(b.status) by {
      match b.status
      case Available =>
      case Issued =>
      case Reserved =>
    }
  }

  /** The books collection as stored: unique ids, unique ISBNs and well-formed records. */
  predicate ValidCatalog(books: seq<Book>)
  {
    && UniqueBy(books, BookId)
    && UniqueBy(books, BookIsbn)
    && forall i :: 0 <= i < |books| ==> WellFormed(books[i])
  }

  /** `Book.findById(id)`: the position of the book with that id. */
  function FindBook(books: seq<Book>, id: Id): (r: Option<nat>)
    ensures r.Some? ==> r.value < |books| && books[r.value].id == id
    ensures r.None? <==> forall i :: 0 <= i < |books| ==> books[i].id != id
  {
    FindFirst((b: Book) => b.id == id, books)
  }

  /** The position of the book holding an ISBN. */
  function FindIsbn(books: seq<Book>, isbn: string): (r: Option<nat>)
    ensures r.Some? ==> r.value < |books| && books[r.value].isbn == isbn
    ensures r.None? <==> forall i :: 0 <= i < |books| ==> books[i].isbn != isbn
  {
    FindFirst((b: Book) => b.isbn == isbn, books)
  }

  /** `new Book(fields).save()`: validation first, then the unique indexes on `_id` and `isbn`;
      a successful save appends the new book, a failed one leaves the collection as it was. */
  function Insert(books: seq<Book>, f: BookFields, id: Id, now: Millis): (r: Result<seq<Book>, ErrorValue>)
    ensures r.Ok? <==> (&& Validate(f, id, now).Ok? && FindBook(books, id).None?
                        && FindIsbn(books, Validate(f, id, now).value.isbn).None?)
    ensures r.Ok? ==> r.value == books + [Validate(f, id, now).value]
    ensures Validate(f, id, now).Ok? && r.Err? ==> r.error.Thrown? && r.error.code == Some(DuplicateKeyCode)
    ensures ValidCatalog(books) && r.Ok? ==> ValidCatalog(r.value)
  {
    match Validate(f, id, now)
    case Err(e) => Err(e)
    case Ok(b) =>
      if FindBook(books, id).Some? then Err(DuplicateKeyError("_id_"))
      else if FindIsbn(books, b.isbn).Some? then Err(DuplicateKeyError("isbn_1"))
      else
        AppendKeepsCatalog(books, b);
        Ok(books + [b])
  }

  /** Appending a well-formed book whose id and ISBN are new keeps the collection valid. */
  lemma AppendKeepsCatalog(books: seq<Book>, b: Book)
    requires WellFormed(b)
    requires forall i :: 0 <= i < |books| ==> books[i].id != b.id && books[i].isbn != b.isbn
    ensures ValidCatalog(books) ==> ValidCatalog(books + [b])
  {
    var r := books + [b];
    assert forall i :: 0 <= i < |books| ==> r[i] == books[i];
  }

  /** Changing one book's status keeps the collection valid: ids, ISBNs and the checked fields stay as they are. */
  lemma SetStatusKeepsCatalog(books: seq<Book>, k: nat, s: BookStatus)
    requires k < |books|
    ensures ValidCatalog(books) ==> ValidCatalog(books[k := books[k].(status := s)])
  {
    var r := books[k := books[k].(status := s)];
    assert forall i :: 0 <= i < |books| ==> BookId(r[i]) == BookId(books[i]) && BookIsbn(r[i]) == BookIsbn(books[i]);
  }
}
