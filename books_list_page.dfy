/** The catalog list page: a search box over title, author and ISBN, a category drop-down and a
    status drop-down, all of which must pass for a book to be listed. */
module BooksListPage {
  import opened Text
  import opened Sequences
  import opened ClientSearch
  import opened Palette

  /** A book as the list page receives it; its status is whatever string the server sent. */
  datatype Book = Book(id: string, title: string, author: string, isbn: string, category: string,
                       status: string, quantity: int, available: int)

  /** The search term matches the title, the author or the ISBN, ignoring case. */
  predicate MatchesSearch(b: Book, term: string)
  {
    Matches(b.title, term) || Matches(b.author, term) || Matches(b.isbn, term)
  }

  /** The three tests of `filteredBooks`, all of which must pass. */
  predicate Shown(b: Book, term: string, category: string, status: string)
  {
    MatchesSearch(b, term) && Passes(b.category, category) && Passes(b.status, status)
  }

  /** `filteredBooks`: the books passing all three tests, in their order, each kept as often
      as it occurs. */
  function Filtered(books: seq<Book>, term: string, category: string, status: string): (r: seq<Book>)
    ensures IsSubsequence(r, books)
    ensures forall b :: multiset(r)[b] == if Shown(b, term, category, status) then multiset(books)[b] else 0
    ensures forall b :: b in r <==> b in books && Shown(b, term, category, status)
    ensures category != All ==> forall i :: 0 <= i < |r| ==> r[i].category == category
    ensures status != All ==> forall i :: 0 <= i < |r| ==> r[i].status == status
  {
    var p := (b: Book) => Shown(b, term, category, status);
    FilterIsSubsequence(p, books);
    forall b ensures multiset(Filter(p, books))[b] == if p(b) then multiset(books)[b] else 0 {
      FilterMultiplicity(p, books, b);
    }
    Filter(p, books)
  }

  /** An empty search with both drop-downs on `all` lists every book. */
  lemma ShowAll(books: seq<Book>)
    ensures Filtered(books, "", All, All) == books
  {
    forall i | 0 <= i < |books| ensures Shown(books[i], "", All, All) {
      MatchesEmpty(books[i].title);
    }
    FilterKeepsAll((b: Book) => Shown(b, "", All, All), books);
  }

  /** Filtering the filtered list again with the same settings changes nothing. */
  lemma FilteredIdempotent(books: seq<Book>, term: string, category: string, status: string)
    ensures Filtered(Filtered(books, term, category, status), term, category, status)
            == Filtered(books, term, category, status)
  {
    FilterIdempotent((b: Book) => Shown(b, term, category, status), books);
  }

  /** The search ignores case: typing the term in any case lists the same books. */
  lemma SearchIgnoresCase(books: seq<Book>, term: string, category: string, status: string)
    ensures Filtered(books, Lower(term), category, status) == Filtered(books, term, category, status)
  {
    forall b: Book ensures MatchesSearch(b, Lower(term)) == MatchesSearch(b, term) {
      MatchesIgnoresCase(b.title, term);
      MatchesIgnoresCase(b.author, term);
      MatchesIgnoresCase(b.isbn, term);
    }
    FilterCongruent((b: Book) => Shown(b, Lower(term), category, status),
                    (b: Book) => Shown(b, term, category, status), books);
  }

  /** The status chip: green for `Available`, amber for anything else. */
  function StatusChip(status: string): (c: Colour)
    ensures c == Success <==> status == "Available"
    ensures c != Success ==> c == Warning
  {
    if status == "Available" then Success else Warning
  }
}
