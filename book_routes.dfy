/** The book endpoints: the cover-image upload rules (which files are accepted, how large, under
    which stored name) and the read, create, update and delete handlers with their responses. */
module BookRoutes {
  import opened Wrappers
  import opened Documents
  import opened Text
  import opened Errors
  import opened Sequences
  import opened BookModel
  import Auth

  /** An uploaded file as the upload middleware describes it. */
  datatype FileInfo = FileInfo(fieldname: string, originalname: string, mimetype: string, size: nat)

  /** The largest accepted upload: 5 MiB. */
  const MaxFileSize: nat := 5 * 1024 * 1024

  const ImagePrefix := "image/"
  const UploadDir := "/uploads/"

  /** The error the file filter raises for anything that is not an image. */
  const NotAnImage: ErrorValue := Thrown("Error", "Not an image! Please upload only images.", None)

  /** The error the upload middleware raises for a file over the size limit. */
  const TooLarge: ErrorValue := Thrown("MulterError", "File too large", None)

  /** The only form field both routes accept a file under: `upload.single('coverImage')`. */
  const CoverField := "coverImage"

  /** The error the upload middleware raises, before the file filter runs, for a file sent under
      any other field. */
  const UnexpectedField: ErrorValue := Thrown("MulterError", "Unexpected field", None)

  /** `fileFilter`: a file is accepted exactly when its MIME type starts with `image/`. */
  function FileFilter(file: FileInfo): (r: Option<ErrorValue>)
    ensures r.None? <==> ImagePrefix <= file.mimetype
    ensures r.Some? ==> r.value == NotAnImage
  {
    if ImagePrefix <= file.mimetype then None else Some(NotAnImage)
  }

  /** `originalname.split('.').pop()`: the text after the last `.`, or the whole name without one. */
  function Extension(name: string): (ext: string)
    ensures '.' !in ext
  {
    var parts := Split(name, '.');
    parts[|parts| - 1]
  }

  /** The name before its last `.` (only meaningful when there is one). */
  function Stem(name: string): string
  {
    var parts := Split(name, '.');
    if |parts| == 1 then "" else Join(parts[..|parts| - 1], '.')
  }

  /** A join ends with its last part, after a separator when there are several parts. */
  lemma {:induction false} JoinLast(parts: seq<string>, sep: char)
    requires |parts| >= 2
    ensures Join(parts, sep) == Join(parts[..|parts| - 1], sep) + [sep] + parts[|parts| - 1]
    decreases |parts|
  {
    if |parts| > 2 {
      JoinLast(parts[1..], sep);
      assert parts[1..][..|parts[1..]| - 1] == parts[..|parts| - 1][1..];
    }
  }

  /** A name without a `.` is its own extension; a name with one is its stem, a `.` and its extension. */
  lemma ExtensionSplitsName(name: string)
    ensures '.' !in name ==> Extension(name) == name
    ensures '.' in name ==> name == Stem(name) + "." + Extension(name)
  {
    var parts := Split(name, '.');
    JoinSplit(name, '.');
    if |parts| == 1 {
      assert name == parts[0];
    } else {
      JoinLast(parts, '.');
    }
    if '.' !in name {
      SplitNoSeparator(name, '.');
    }
  }

  /** The stored file name: field name, `-`, the unique suffix, `.`, and the original extension. */
  function StoredFilename(file: FileInfo, suffix: string): string
  {
    file.fieldname + "-" + suffix + "." + Extension(file.originalname)
  }

  /** The stored name keeps the original's extension, and it is what follows the stored name's last `.`. */
  lemma StoredFilenameKeepsExtension(file: FileInfo, suffix: string)
    ensures Extension(StoredFilename(file, suffix)) == Extension(file.originalname)
  {
    var ext := Extension(file.originalname);
    var prefix := file.fieldname + "-" + suffix;
    assert StoredFilename(file, suffix) == prefix + ['.'] + ext;
    SplitConcat(prefix, ext, '.');
    SplitNoSeparator(ext, '.');
  }

  /** `upload.single('coverImage')` on one request: no file means no file name; a file under
      another field, a file that is not an image, or one over the limit is an error, checked in
      that order; otherwise it is stored under its derived name. */
  function Upload(file: Option<FileInfo>, suffix: string): (r: Result<Option<string>, ErrorValue>)
    ensures file.None? ==> r == Ok(None)
    ensures (file.Some? ==>
               && (file.value.fieldname != CoverField ==> r == Err(UnexpectedField))
               && (file.value.fieldname == CoverField && !(ImagePrefix <= file.value.mimetype) ==> r == Err(NotAnImage))
               && ((file.value.fieldname == CoverField && ImagePrefix <= file.value.mimetype
                    && file.value.size > MaxFileSize) ==> r == Err(TooLarge))
               && (r.Ok? <==> (&& file.value.fieldname == CoverField && ImagePrefix <= file.value.mimetype
                               && file.value.size <= MaxFileSize))
               && (r.Ok? ==> r.value == Some(StoredFilename(file.value, suffix))))
  {
    match file
    case None => Ok(None)
    case Some(f) =>
      if f.fieldname != CoverField then Err(UnexpectedField)
      else match FileFilter(f)
        case Some(e) => Err(e)
        case None => if f.size > MaxFileSize then Err(TooLarge) else Ok(Some(StoredFilename(f, suffix)))
  }

  /** Every upload error is answered by the error handler with 500, whatever the file. */
  lemma UploadErrorsAre500(file: Option<FileInfo>, suffix: string)
    ensures Upload(file, suffix).Err? ==> Handle(Upload(file, suffix).error).statusCode == 500
  {
  }

  /** `coverImage`: the public path of the stored file, or nothing without a file. */
  function CoverImage(filename: Option<string>): (r: Option<string>)
    ensures r.None? <==> filename.None?
    ensures r.Some? ==> r.value == UploadDir + filename.value
  {
    if filename.Some? then Some(UploadDir + filename.value) else None
  }

  /** A response body: a book, a list of books, a `{message}` object, or the error handler's body. */
  datatype Body = BookJson(book: Book) | BooksJson(books: seq<Book>) | Message(message: string) | ErrorJson(error: ErrorBody)

  datatype Response = Response(status: int, body: Body)

  /** What the error handler sends for an error passed to `next`. */
  function HandlerResponse(e: ErrorValue): (r: Response)
    ensures r.status == Handle(e).statusCode && r.body == ErrorJson(Handle(e).body)
  {
    var h := Handle(e);
    Response(h.statusCode, ErrorJson(h.body))
  }

  const NotFound := "Book not found"

  /** `GET /books`. */
  function ListBooks(books: seq<Book>): (r: Response)
    ensures r == Response(200, BooksJson(books))
  {
    Response(200, BooksJson(books))
  }

  /** `GET /books/:id`: the book, or a 404. */
  function GetBook(books: seq<Book>, id: Id): (r: Response)
    ensures FindBook(books, id).None? <==> r == Response(404, Message(NotFound))
    ensures FindBook(books, id).Some? ==> r == Response(200, BookJson(books[FindBook(books, id).value]))
  {
    match FindBook(books, id)
    case None => Response(404, Message(NotFound))
    case Some(k) => Response(200, BookJson(books[k]))
  }

  /** `POST /books`: `protect`, the upload, then the save. Any error of the save is answered with
      the same 400; the cover comes only from the uploaded file. */
  function CreateBook(books: seq<Book>, signedIn: Result<Auth.User, ErrorValue>, file: Option<FileInfo>, suffix: string,
                      fields: BookFields, id: Id, now: Millis): (r: (seq<Book>, Response))
    ensures signedIn.Err? ==> r == (books, HandlerResponse(signedIn.error))
    ensures signedIn.Ok? && Upload(file, suffix).Err? ==> r == (books, HandlerResponse(Upload(file, suffix).error))
    ensures (signedIn.Ok? && Upload(file, suffix).Ok? ==>
               var f := fields.(coverImage := CoverImage(Upload(file, suffix).value));
               && (Insert(books, f, id, now).Err? ==> r == (books, Response(400, Message("Error creating book"))))
               && (Insert(books, f, id, now).Ok? ==>
                     r == (Insert(books, f, id, now).value, Response(201, BookJson(Validate(f, id, now).value)))))
    ensures r.0 != books ==> r.1.status == 201 && |r.0| == |books| + 1
    ensures ValidCatalog(books) ==> ValidCatalog(r.0)
  {
    if signedIn.Err? then (books, HandlerResponse(signedIn.error))
    else match Upload(file, suffix)
      case Err(e) => (books, HandlerResponse(e))
      case Ok(filename) =>
        var f := fields.(coverImage := CoverImage(filename));
        match Insert(books, f, id, now)
        case Err(_) => (books, Response(400, Message("Error creating book")))
        case Ok(stored) => (stored, Response(201, BookJson(Validate(f, id, now).value)))
  }

  /** The fields an update may set. Updates run the `trim` setters but, as `findByIdAndUpdate` does
      by default, none of the validators; a field left out keeps its value. */
  datatype BookPatch = BookPatch(
    title: Option<string>,
    author: Option<string>,
    isbn: Option<string>,
    status: Option<BookStatus>,
    category: Option<string>,
    description: Option<string>,
    publishedYear: Option<int>,
    publisher: Option<string>)

  function Choose<T>(v: Option<T>, current: T): T
  {
    if v.Some? then v.value else current
  }

  function ChooseTrimmed(v: Option<string>, current: string): string
  {
    if v.Some? then Trim(v.value) else current
  }

  /** A book with a patch applied and, when a file was uploaded, its new cover. */
  function Patched(b: Book, p: BookPatch, cover: Option<string>): (r: Book)
    ensures r.id == b.id && r.createdAt == b.createdAt
    ensures p == BookPatch(None, None, None, None, None, None, None, None) && cover.None? ==> r == b
  {
    b.(title := ChooseTrimmed(p.title, b.title),
       author := ChooseTrimmed(p.author, b.author),
       isbn := ChooseTrimmed(p.isbn, b.isbn),
       status := Choose(p.status, b.status),
       category := ChooseTrimmed(p.category, b.category),
       description := if p.description.Some? then Some(Trim(p.description.value)) else b.description,
       publishedYear := if p.publishedYear.Some? then p.publishedYear else b.publishedYear,
       publisher := if p.publisher.Some? then Some(Trim(p.publisher.value)) else b.publisher,
       coverImage := if cover.Some? then Some(Trim(cover.value)) else b.coverImage)
  }

  /** Some other book than the one at `k` has the ISBN. */
  predicate IsbnTaken(books: seq<Book>, k: nat, isbn: string)
  {
    exists j :: 0 <= j < |books| && j != k && books[j].isbn == isbn
  }

  /** No present required field of the patch is blank once trimmed. */
  predicate NoBlankRequired(p: BookPatch)
  {
    && (p.title.Some? ==> Present(p.title))
    && (p.author.Some? ==> Present(p.author))
    && (p.isbn.Some? ==> Present(p.isbn))
    && (p.category.Some? ==> Present(p.category))
  }

  /** `PUT /books/:id`: `protect`, the upload, then the update. An unknown id is a 404, an ISBN
      another book has is a 400 (the unique index refuses it), and otherwise the patched book is
      stored in place and returned. */
  function UpdateBook(books: seq<Book>, signedIn: Result<Auth.User, ErrorValue>, id: Id, file: Option<FileInfo>,
                      suffix: string, patch: BookPatch): (r: (seq<Book>, Response))
    ensures r.1.status != 200 ==> r.0 == books
    ensures signedIn.Err? ==> r == (books, HandlerResponse(signedIn.error))
    ensures signedIn.Ok? && Upload(file, suffix).Err? ==> r == (books, HandlerResponse(Upload(file, suffix).error))
    ensures (signedIn.Ok? && Upload(file, suffix).Ok? ==>
               && (FindBook(books, id).None? ==> r == (books, Response(404, Message(NotFound))))
               && (FindBook(books, id).Some? ==>
                     var k := FindBook(books, id).value;
                     var b := Patched(books[k], patch, CoverImage(Upload(file, suffix).value));
                     && (IsbnTaken(books, k, b.isbn) ==> r == (books, Response(400, Message("Error updating book"))))
                     && (!IsbnTaken(books, k, b.isbn) ==> r == (books[k := b], Response(200, BookJson(b))))))
  {
    if signedIn.Err? then (books, HandlerResponse(signedIn.error))
    else match Upload(file, suffix)
      case Err(e) => (books, HandlerResponse(e))
      case Ok(filename) =>
        match FindBook(books, id)
        case None => (books, Response(404, Message(NotFound)))
        case Some(k) =>
          var b := Patched(books[k], patch, CoverImage(filename));
          if IsbnTaken(books, k, b.isbn) then (books, Response(400, Message("Error updating book")))
          else (books[k := b], Response(200, BookJson(b)))
  }

  /** An update whose present required fields are not blank keeps the collection valid; a blank
      one is stored, since no validator runs on the update. */
  lemma UpdateKeepsCatalog(books: seq<Book>, signedIn: Result<Auth.User, ErrorValue>, id: Id, file: Option<FileInfo>,
                           suffix: string, patch: BookPatch)
    requires ValidCatalog(books) && NoBlankRequired(patch)
    ensures ValidCatalog(UpdateBook(books, signedIn, id, file, suffix, patch).0)
  {
    var r := UpdateBook(books, signedIn, id, file, suffix, patch);
    if signedIn.Ok? && Upload(file, suffix).Ok? && FindBook(books, id).Some? {
      var k := FindBook(books, id).value;
      var cover := CoverImage(Upload(file, suffix).value);
      var b := Patched(books[k], patch, cover);
      if !IsbnTaken(books, k, b.isbn) {
        PatchedWellFormed(books[k], patch, cover);
        PlaceKeepsCatalog(books, k, b);
        assert r.0 == books[k := b];
      } else {
        assert r.0 == books;
      }
    } else {
      assert r.0 == books;
    }
  }

  /** Patching a well-formed book with no blank required field gives a well-formed book. */
  lemma PatchedWellFormed(b: Book, p: BookPatch, cover: Option<string>)
    requires WellFormed(b) && NoBlankRequired(p)
    ensures WellFormed(Patched(b, p, cover))
  {
    if p.title.Some? { TrimIsTrimmed(p.title.value); }
    if p.author.Some? { TrimIsTrimmed(p.author.value); }
    if p.isbn.Some? { TrimIsTrimmed(p.isbn.value); }
    if p.category.Some? { TrimIsTrimmed(p.category.value); }
    if p.description.Some? { TrimIsTrimmed(p.description.value); }
    if p.publisher.Some? { TrimIsTrimmed(p.publisher.value); }
    if cover.Some? { TrimIsTrimmed(cover.value); }
  }

  /** Storing a well-formed book with the same id in place of book `k` keeps the catalog valid when
      no other book has its ISBN. */
  lemma PlaceKeepsCatalog(books: seq<Book>, k: nat, b: Book)
    requires ValidCatalog(books) && k < |books| && b.id == books[k].id && WellFormed(b)
    requires !IsbnTaken(books, k, b.isbn)
    ensures ValidCatalog(books[k := b])
  {
    var n := books[k := b];
    assert forall i :: 0 <= i < |books| ==> BookId(n[i]) == BookId(books[i]);
    assert forall i :: 0 <= i < |books| && i != k ==> BookIsbn(n[i]) == BookIsbn(books[i]) != BookIsbn(b);
  }

  /** The list without the book at `k`. */
  function RemoveAt(books: seq<Book>, k: nat): (r: seq<Book>)
    requires k < |books|
    ensures |r| == |books| - 1
    ensures forall i :: 0 <= i < k ==> r[i] == books[i]
    ensures forall i :: k <= i < |r| ==> r[i] == books[i + 1]
  {
    books[..k] + books[k + 1..]
  }

  /** `DELETE /books/:id`: `protect`, then an unknown id is a 404 and a known one is removed,
      the others keeping their order. */
  function DeleteBook(books: seq<Book>, signedIn: Result<Auth.User, ErrorValue>, id: Id): (r: (seq<Book>, Response))
    ensures signedIn.Err? ==> r == (books, HandlerResponse(signedIn.error))
    ensures signedIn.Ok? && FindBook(books, id).None? ==> r == (books, Response(404, Message(NotFound)))
    ensures (signedIn.Ok? && FindBook(books, id).Some? ==>
               r == (RemoveAt(books, FindBook(books, id).value), Response(200, Message("Book deleted successfully"))))
  {
    if signedIn.Err? then (books, HandlerResponse(signedIn.error))
    else match FindBook(books, id)
      case None => (books, Response(404, Message(NotFound)))
      case Some(k) => (RemoveAt(books, k), Response(200, Message("Book deleted successfully")))
  }

  /** Every element but the one at `k` is still in the list after the removal. */
  lemma RemoveAtKeepsOthers(books: seq<Book>, k: nat)
    requires k < |books|
    ensures forall i :: 0 <= i < |books| && i != k ==> books[i] in RemoveAt(books, k)
  {
    var r := RemoveAt(books, k);
    forall i | 0 <= i < |books| && i != k
      ensures books[i] in r
    {
      if i < k {
        assert r[i] == books[i];
      } else {
        assert r[i - 1] == books[i];
      }
    }
  }

  /** Removing one book keeps the collection valid. */
  lemma RemoveAtKeepsCatalog(books: seq<Book>, k: nat)
    requires k < |books| && ValidCatalog(books)
    ensures ValidCatalog(RemoveAt(books, k))
    ensures forall i :: 0 <= i < |RemoveAt(books, k)| ==> RemoveAt(books, k)[i].id != books[k].id
  {
    var r := RemoveAt(books, k);
    assert forall i :: 0 <= i < |r| ==> r[i] == books[if i < k then i else i + 1];
  }

  /** In a valid collection a deleted book is gone and every other book is still there. */
  lemma DeleteRemovesOnlyThatBook(books: seq<Book>, signedIn: Result<Auth.User, ErrorValue>, id: Id)
    requires ValidCatalog(books) && signedIn.Ok?
    ensures forall i :: 0 <= i < |DeleteBook(books, signedIn, id).0| ==> DeleteBook(books, signedIn, id).0[i].id != id
    ensures forall i :: 0 <= i < |books| && books[i].id != id ==> books[i] in DeleteBook(books, signedIn, id).0
    ensures ValidCatalog(DeleteBook(books, signedIn, id).0)
  {
    match FindBook(books, id)
    case None =>
    case Some(k) =>
      RemoveAtKeepsOthers(books, k);
      RemoveAtKeepsCatalog(books, k);
  }
}
