/** The catalog page: a search box whose query is lower-cased as it is typed, the local removal
    of a deleted book, and the colour of each status.

    As written, the query is compared with the lower-cased title and author but with the ISBN as it
    is stored, so an ISBN holding an upper-case letter (the check digit `X` of an ISBN-10) cannot be
    found by any query that reaches that letter. `FilteredAsWritten` models the page as it is;
    `Filtered` compares the lower-cased ISBN too and is case-insensitive on every field. */
module BooksPage {
  import opened Text
  import opened Sequences
  import opened ClientSearch
  import opened Palette

  /** A book as the catalog page stores it. */
  datatype Book = Book(id: string, title: string, author: string, isbn: string, status: string, category: string)

  /** The search test as written: title and author lower-cased, ISBN as stored. */
  predicate MatchesAsWritten(b: Book, query: string)
  {
    Includes(Lower(b.title), query) || Includes(Lower(b.author), query) || Includes(b.isbn, query)
  }

  /** `filteredBooks` as written. */
  function FilteredAsWritten(books: seq<Book>, query: string): (r: seq<Book>)
    ensures IsSubsequence(r, books)
    ensures forall b :: multiset(r)[b] == if MatchesAsWritten(b, query) then multiset(books)[b] else 0
  {
    var p := (b: Book) => MatchesAsWritten(b, query);
    FilterIsSubsequence(p, books);
    forall b ensures multiset(Filter(p, books))[b] == if p(b) then multiset(books)[b] else 0 {
      FilterMultiplicity(p, books, b);
    }
    Filter(p, books)
  }

  /** The typed query "957X" does not find the book whose ISBN is "080442957X", although
      that ISBN contains it: the query is lower-cased to "957x" and the ISBN is not. */
  lemma IsbnCheckDigitMissed()
    ensures (var b := Book("1", "Dune", "Frank Herbert", "080442957X", "Available", "Fiction");
             && Includes(b.isbn, "957X")
             && FilteredAsWritten([b], SearchQuery("957X")) == []
             && Filtered([b], SearchQuery("957X")) == [b])
  {
    var b := Book("1", "Dune", "Frank Herbert", "080442957X", "Available", "Fiction");
    NoSuchCharacter("Dune", '9');
    NoSuchCharacter("Frank Herbert", '9');
    NoSuchCharacter("080442957X", 'x');
    CheckDigitQuery();
    MissedWhenAbsent(b, "957x", '9', 'x');
    IsbnLowered();
    FoundByLoweredIsbn(b, "957x");
    RawIsbnHoldsQuery();
  }

  /** A book whose lower-cased ISBN contains the lower-cased query is found by the corrected filter. */
  lemma FoundByLoweredIsbn(b: Book, query: string)
    requires Includes(Lower(b.isbn), Lower(query))
    ensures Filtered([b], query) == [b]
  {
    assert MatchesSearch(b, query);
    assert Filter((c: Book) => MatchesSearch(c, query), [b]) == [b];
  }

  /** The stored ISBN "080442957X" contains the typed "957X". */
  lemma RawIsbnHoldsQuery()
    ensures Includes("080442957X", "957X")
  {
    var s := "080442957X";
    assert s[6..] == "957X";
    assert OccursAt(s, "957X", 6);
    IncludesAt(s, "957X");
  }

  /** A query holding a digit that occurs in neither title nor author, and a letter that does not
      occur in the ISBN, is not matched as written. */
  lemma MissedWhenAbsent(b: Book, query: string, d: char, c: char)
    requires '0' <= d <= '9' && d in query && d !in b.title && d !in b.author
    requires c in query && c !in b.isbn
    ensures FilteredAsWritten([b], query) == []
  {
    LowerKeepsOut(b.title, d);
    LowerKeepsOut(b.author, d);
    NotIncludedWithout(Lower(b.title), query, d);
    NotIncludedWithout(Lower(b.author), query, d);
    NotIncludedWithout(b.isbn, query, c);
    assert Filter((c: Book) => MatchesAsWritten(c, query), [b]) == [];
  }

  /** The query typed as "957X" is kept as "957x". */
  lemma CheckDigitQuery()
    ensures SearchQuery("957X") == "957x"
    ensures '9' in "957x" && 'x' in "957x" && Lower("957x") == "957x"
  {
    var q := SearchQuery("957X");
    assert q[3] == LowerChar('X');
    assert "957x"[0] == '9' && "957x"[3] == 'x';
  }

  /** The lower-cased ISBN "080442957X" contains "957x". */
  lemma IsbnLowered()
    ensures Includes(Lower("080442957X"), "957x")
  {
    RawIsbnHoldsQuery();
    IncludesLowered("080442957X", "957X");
    CheckDigitQuery();
  }

  /** A character none of whose positions in `s` holds it is not in `s`. */
  lemma NoSuchCharacter(s: string, c: char)
    requires forall i :: 0 <= i < |s| ==> s[i] != c
    ensures c !in s
  {
  }

  /** Lower-casing never produces a digit that was not there. */
  lemma LowerKeepsOut(s: string, d: char)
    requires '0' <= d <= '9' && d !in s
    ensures d !in Lower(s)
  {
    assert forall i :: 0 <= i < |s| ==> Lower(s)[i] == LowerChar(s[i]);
  }

  /** The search test with every field lower-cased. */
  predicate MatchesSearch(b: Book, query: string)
  {
    Matches(b.title, query) || Matches(b.author, query) || Matches(b.isbn, query)
  }

  /** `filteredBooks` with the ISBN lower-cased like the other fields. */
  function Filtered(books: seq<Book>, query: string): (r: seq<Book>)
    ensures IsSubsequence(r, books)
    ensures forall b :: multiset(r)[b] == if MatchesSearch(b, query) then multiset(books)[b] else 0
  {
    var p := (b: Book) => MatchesSearch(b, query);
    FilterIsSubsequence(p, books);
    forall b ensures multiset(Filter(p, books))[b] == if p(b) then multiset(books)[b] else 0 {
      FilterMultiplicity(p, books, b);
    }
    Filter(p, books)
  }

  /** With the ISBN lower-cased, a book is found whatever the case of the typed query and of its
      fields, and the empty query lists every book. */
  lemma FilteredIgnoresCase(books: seq<Book>, input: string)
    ensures Filtered(books, SearchQuery(input)) == Filtered(books, input)
    ensures forall b :: b in books && (Includes(Lower(b.isbn), Lower(input)) || Includes(Lower(b.title), Lower(input)))
                        ==> b in Filtered(books, SearchQuery(input))
    ensures Filtered(books, "") == books
  {
    forall b: Book ensures MatchesSearch(b, SearchQuery(input)) == MatchesSearch(b, input) {
      MatchesIgnoresCase(b.title, input);
      MatchesIgnoresCase(b.author, input);
      MatchesIgnoresCase(b.isbn, input);
    }
    FilterCongruent((b: Book) => MatchesSearch(b, SearchQuery(input)), (b: Book) => MatchesSearch(b, input), books);
    forall b | b in books && (Includes(Lower(b.isbn), Lower(input)) || Includes(Lower(b.title), Lower(input)))
      ensures b in Filtered(books, SearchQuery(input))
    {
      assert multiset(books)[b] > 0;
    }
    forall i | 0 <= i < |books| ensures MatchesSearch(books[i], "") {
      MatchesEmpty(books[i].title);
    }
    FilterKeepsAll((b: Book) => MatchesSearch(b, ""), books);
  }

  /** As written, the empty query still lists every book: the empty string is in every title. */
  lemma EmptyQueryKeepsAll(books: seq<Book>)
    ensures FilteredAsWritten(books, SearchQuery("")) == books
  {
    forall i | 0 <= i < |books| ensures MatchesAsWritten(books[i], "") {
      IncludesEmpty(Lower(books[i].title));
    }
    FilterKeepsAll((b: Book) => MatchesAsWritten(b, ""), books);
  }

  /** `handleDelete` after the server confirms: the books with any other id, in their order. */
  function RemoveBook(books: seq<Book>, id: string): (r: seq<Book>)
    ensures IsSubsequence(r, books)
    ensures forall b :: multiset(r)[b] == if b.id != id then multiset(books)[b] else 0
    ensures forall i :: 0 <= i < |r| ==> r[i].id != id
  {
    var p := (b: Book) => b.id != id;
    FilterIsSubsequence(p, books);
    forall b ensures multiset(Filter(p, books))[b] == if p(b) then multiset(books)[b] else 0 {
      FilterMultiplicity(p, books, b);
    }
    Filter(p, books)
  }

  /** Removing an id no book has changes nothing, and removing one twice is removing it once. */
  lemma RemoveBookProperties(books: seq<Book>, id: string)
    ensures (forall i :: 0 <= i < |books| ==> books[i].id != id) ==> RemoveBook(books, id) == books
    ensures RemoveBook(RemoveBook(books, id), id) == RemoveBook(books, id)
  {
    if forall i :: 0 <= i < |books| ==> books[i].id != id {
      FilterKeepsAll((b: Book) => b.id != id, books);
    }
    FilterIdempotent((b: Book) => b.id != id, books);
  }

  /** `getStatusColor`: one colour per status of the enumeration and grey for anything else. */
  function StatusColour(status: string): (c: Colour)
    ensures status == "Available" ==> c == Success
    ensures status == "Issued" ==> c == Warning
    ensures status == "Reserved" ==> c == Error
    ensures c == Grey <==> status !in {"Available", "Issued", "Reserved"}
  {
    match status
    case "Available" => Success
    case "Issued" => Warning
    case "Reserved" => Error
    case _ => Grey
  }

  /** The three statuses have three different colours, none of them the fallback grey. */
  lemma StatusColoursDistinct()
    ensures StatusColour("Available") != StatusColour("Issued")
    ensures StatusColour("Issued") != StatusColour("Reserved")
    ensures StatusColour("Available") != StatusColour("Reserved")
    ensures Grey !in {StatusColour("Available"), StatusColour("Issued"), StatusColour("Reserved")}
  {
  }
}
