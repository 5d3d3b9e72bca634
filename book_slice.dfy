/** The client's `books` slice: a list of books and a request status, changed by the two
    fulfilled thunks, and the form the `addBook` thunk posts. */
module BookSlice {
  import opened Wrappers
  import opened BookModel

  /** The slice's state. */
  datatype BooksState = BooksState(books: seq<Book>, status: string)

  /** The actions the slice handles. */
  datatype BooksAction = FetchBooksFulfilled(books: seq<Book>) | AddBookFulfilled(book: Book)

  /** The initial state: no books, status `idle`. */
  const Initial := BooksState([], "idle")

  /** The reducer: a fetch replaces the list with its payload, an add appends its payload;
      neither touches the status. */
  function Reduce(s: BooksState, a: BooksAction): (r: BooksState)
    ensures r.status == s.status
    ensures a.FetchBooksFulfilled? ==> r.books == a.books
    ensures (a.AddBookFulfilled? ==>
               && |r.books| == |s.books| + 1
               && r.books[..|s.books|] == s.books
               && r.books[|s.books|] == a.book)
  {
    match a
    case FetchBooksFulfilled(books) => s.(books := books)
    case AddBookFulfilled(book) => s.(books := s.books + [book])
  }

  /** The state after a run of actions, in order. */
  function ReduceAll(s: BooksState, actions: seq<BooksAction>): BooksState
    decreases |actions|
  {
    if actions == [] then s else ReduceAll(Reduce(s, actions[0]), actions[1..])
  }

  /** No run of actions changes the status. */
  lemma {:induction false} StatusNeverChanges(s: BooksState, actions: seq<BooksAction>)
    ensures ReduceAll(s, actions).status == s.status
    decreases |actions|
  {
    if actions != [] {
      StatusNeverChanges(Reduce(s, actions[0]), actions[1..]);
    }
  }

  /** The add actions for a list of books, in order. */
  function Adds(books: seq<Book>): (r: seq<BooksAction>)
    ensures |r| == |books| && forall i :: 0 <= i < |books| ==> r[i] == AddBookFulfilled(books[i])
  {
    if books == [] then [] else [AddBookFulfilled(books[0])] + Adds(books[1..])
  }

  /** Adding books one by one appends them in the order they were added. */
  lemma {:induction false} AddsAppend(s: BooksState, added: seq<Book>)
    ensures ReduceAll(s, Adds(added)) == s.(books := s.books + added)
    decreases |added|
  {
    if added != [] {
      var next := s.(books := s.books + [added[0]]);
      var acts := Adds(added);
      assert acts[0] == AddBookFulfilled(added[0]);
      assert Reduce(s, acts[0]) == next;
      assert acts[1..] == Adds(added[1..]);
      AddsAppend(next, added[1..]);
      assert next.books + added[1..] == s.books + added;
    }
  }

  /** After a fetch, whatever was listed before is gone: the list is the payload followed by the
      books added since. */
  lemma FetchThenAdds(s: BooksState, fetched: seq<Book>, added: seq<Book>)
    ensures ReduceAll(s, [FetchBooksFulfilled(fetched)] + Adds(added)).books == fetched + added
  {
    var actions := [FetchBooksFulfilled(fetched)] + Adds(added);
    assert actions[1..] == Adds(added);
    AddsAppend(Reduce(s, FetchBooksFulfilled(fetched)), added);
  }

  /** The state as Immer's draft lets the reducer change it in place. */
  class BooksDraft {
    var books: seq<Book>
    var status: string

    function State(): BooksState
      reads this
    {
      BooksState(books, status)
    }

    /** The slice's initial state. */
    constructor ()
      ensures State() == Initial
    {
      books := [];
      status := "idle";
    }

    /** `fetchBooks.fulfilled`: `state.books = action.payload`. */
    method FetchFulfilled(payload: seq<Book>)
      modifies this`books
      ensures State() == Reduce(old(State()), FetchBooksFulfilled(payload))
    {
      books := payload;
    }

    /** `addBook.fulfilled`: `state.books.push(action.payload)`. */
    method AddFulfilled(payload: Book)
      modifies this`books
      ensures State() == Reduce(old(State()), AddBookFulfilled(payload))
    {
      books := books + [payload];
    }
  }

  /** What the book form holds; the cover is the chosen file, if any. */
  datatype BookData = BookData(title: string, author: string, coverImage: Option<string>)

  /** One `formData.append(name, value)`. */
  datatype FormEntry = FormEntry(name: string, value: string)

  /** The form `addBook` posts, built one field at a time: always the title and the author, and
      the cover only when one was chosen. */
  method AddBookForm(data: BookData) returns (form: seq<FormEntry>)
    ensures |form| == if data.coverImage.Some? then 3 else 2
    ensures form[0] == FormEntry("title", data.title) && form[1] == FormEntry("author", data.author)
    ensures data.coverImage.Some? ==> form[2] == FormEntry("coverImage", data.coverImage.value)
    ensures (exists i :: 0 <= i < |form| && form[i].name == "coverImage") <==> data.coverImage.Some?
  {
    form := [];
    form := form + [FormEntry("title", data.title)];
    form := form + [FormEntry("author", data.author)];
    if data.coverImage.Some? {
      form := form + [FormEntry("coverImage", data.coverImage.value)];
    }
  }
}
