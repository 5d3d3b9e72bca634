/** The borrowing lifecycle over the three stores: issuing a book to a member, returning it,
    and the read-only overdue list and statistics. */
module BorrowingRoutes {
  import opened Wrappers
  import opened Documents
  import opened Errors
  import opened Sequences
  import BookModel
  import MemberModel
  import opened BorrowingModel
  import Auth

  /** The three collections the lifecycle reads and writes. */
  datatype Db = Db(books: seq<BookModel.Book>, members: seq<MemberModel.Member>, borrowings: seq<Borrowing>)

  /** The most books a member may have on loan at once. */
  const MaxLoans: nat := 3

  const BookNotFound := "Book not found"
  const BookNotAvailable := "Book is not available for borrowing"
  const MemberNotFound := "Member not found"
  const LimitReached := "Member has reached maximum borrowing limit"
  const RecordNotFound := "Borrowing record not found"

  /** Every collection satisfies its schema and its unique indexes. */
  predicate Valid(db: Db)
  {
    BookModel.ValidCatalog(db.books) && MemberModel.ValidMembers(db.members) && ValidLedger(db.borrowings)
  }

  /** No member holds more than the maximum number of loans. */
  predicate LoansBounded(members: seq<MemberModel.Member>)
  {
    forall j :: 0 <= j < |members| ==> members[j].booksIssued <= MaxLoans
  }

  /** The stores after a request, and what the request answers: a record or an error. */
  datatype Outcome = Outcome(db: Db, result: Result<Borrowing, ErrorValue>)

  /** `new Date(dueDate)`: a body without a due date gives an invalid date. */
  function DueDateField(dueDate: Option<Millis>): DateField
  {
    if dueDate.Some? then Date(dueDate.value) else InvalidDate
  }

  /** The four guards of an issue all pass: the book exists and is available, the member exists
      and is below the loan limit. */
  predicate Admissible(db: Db, bookId: Id, memberId: Id)
  {
    var bi := BookModel.FindBook(db.books, bookId);
    var mi := MemberModel.FindMember(db.members, memberId);
    && bi.Some? && db.books[bi.value].status == BookModel.Available
    && mi.Some? && db.members[mi.value].booksIssued < MaxLoans
  }

  /** `POST /borrowings`: the guards in their order, then the new record, then the book marked
      `Issued` and the member's loan count raised by one. A rejected request changes nothing. */
  function Issue(db: Db, bookId: Id, memberId: Id, dueDate: Option<Millis>, newId: Id, now: Millis): (o: Outcome)
    ensures o.result.Err? ==> o.db == db
    ensures (var bi := BookModel.FindBook(db.books, bookId);
             var mi := MemberModel.FindMember(db.members, memberId);
             && (bi.None? ==> o.result == Err(AppError(BookNotFound, 404)))
             && (bi.Some? && db.books[bi.value].status != BookModel.Available ==>
                   o.result == Err(AppError(BookNotAvailable, 400)))
             && (bi.Some? && db.books[bi.value].status == BookModel.Available && mi.None? ==>
                   o.result == Err(AppError(MemberNotFound, 404)))
             && (bi.Some? && db.books[bi.value].status == BookModel.Available && mi.Some?
                 && db.members[mi.value].booksIssued >= MaxLoans ==>
                   o.result == Err(AppError(LimitReached, 400))))
    ensures o.result.Ok? <==> (Admissible(db, bookId, memberId) && dueDate.Some? && FindBorrowing(db.borrowings, newId).None?)
    ensures Admissible(db, bookId, memberId) && dueDate.None? ==> o.result.Err? && o.result.error.Thrown? && o.result.error.name == "ValidationError"
    ensures o.result.Ok? ==> o.result.value == Borrowing(newId, bookId, memberId, now, dueDate.value, None, Active, 0, now)
    ensures (o.result.Ok? ==>
               var bi := BookModel.FindBook(db.books, bookId).value;
               var mi := MemberModel.FindMember(db.members, memberId).value;
               o.db == Db(db.books[bi := db.books[bi].(status := BookModel.Issued)],
                          db.members[mi := db.members[mi].(booksIssued := db.members[mi].booksIssued + 1)],
                          db.borrowings + [o.result.value]))
  {
    match BookModel.FindBook(db.books, bookId)
    case None => Outcome(db, Err(AppError(BookNotFound, 404)))
    case Some(bi) =>
      var book := db.books[bi];
      if book.status != BookModel.Available then Outcome(db, Err(AppError(BookNotAvailable, 400)))
      else match MemberModel.FindMember(db.members, memberId)
        case None => Outcome(db, Err(AppError(MemberNotFound, 404)))
        case Some(mi) =>
          var member := db.members[mi];
          if member.booksIssued >= MaxLoans then Outcome(db, Err(AppError(LimitReached, 400)))
          else match Create(BorrowingFields(Some(bookId), Some(memberId), DueDateField(dueDate)), newId, now)
            case Err(e) => Outcome(db, Err(e))
            case Ok(r) =>
              if FindBorrowing(db.borrowings, newId).Some? then Outcome(db, Err(DuplicateKeyError("_id_")))
              else
                Outcome(Commit(db, bi, mi, r), Ok(r))
  }

  /** The stores after an accepted issue: book `bi` is `Issued`, member `mi` has one loan more,
      and the record is appended. */
  function Commit(db: Db, bi: nat, mi: nat, r: Borrowing): Db
    requires bi < |db.books| && mi < |db.members|
  {
    Db(db.books[bi := db.books[bi].(status := BookModel.Issued)],
       db.members[mi := db.members[mi].(booksIssued := db.members[mi].booksIssued + 1)],
       db.borrowings + [r])
  }

  /** `Math.max(0, n - 1)` on a loan count. */
  function Decrement(n: nat): (r: nat)
    ensures r == if n == 0 then 0 else n - 1
  {
    if n > 0 then n - 1 else 0
  }

  /** The record as a return leaves it: `returned`, returned at `now`, fine recomputed. */
  function Returned(r: Borrowing, now: Millis): (c: Borrowing)
    ensures c == r.(status := BorrowingModel.Returned, returnDate := Some(now), fine := Fine(r.dueDate, now))
  {
    Recalculated(r.(status := BorrowingModel.Returned, returnDate := Some(now)))
  }

  /** `PUT /borrowings/:id/return`: an unknown record is a 404 and changes nothing; otherwise the
      record is closed with its fine, the book it names (if it still exists) becomes `Available`
      and the member it names (if they still exist) has one loan fewer, never below zero. The
      record's previous status is not looked at. */
  function Return(db: Db, id: Id, now: Millis): (o: Outcome)
    ensures FindBorrowing(db.borrowings, id).None? <==> o.result.Err?
    ensures o.result.Err? ==> o == Outcome(db, Err(AppError(RecordNotFound, 404)))
    ensures (o.result.Ok? ==>
               var i := FindBorrowing(db.borrowings, id).value;
               var rec := db.borrowings[i];
               && o.result.value == Returned(rec, now)
               && o.db.borrowings == db.borrowings[i := Returned(rec, now)]
               && o.db.books == (match BookModel.FindBook(db.books, rec.book)
                                 case None => db.books
                                 case Some(k) => db.books[k := db.books[k].(status := BookModel.Available)])
               && o.db.members == (match MemberModel.FindMember(db.members, rec.member)
                                   case None => db.members
                                   case Some(j) =>
                                     db.members[j := db.members[j].(booksIssued := Decrement(db.members[j].booksIssued))]))
  {
    match FindBorrowing(db.borrowings, id)
    case None => Outcome(db, Err(AppError(RecordNotFound, 404)))
    case Some(i) =>
      var rec := Returned(db.borrowings[i], now);
      Outcome(Db(ReleaseBook(db.books, rec.book), ReleaseMember(db.members, rec.member), db.borrowings[i := rec]), Ok(rec))
  }

  /** The members after a return: the borrower, if found, has one loan fewer. */
  function ReleaseMember(members: seq<MemberModel.Member>, memberId: Id): seq<MemberModel.Member>
  {
    match MemberModel.FindMember(members, memberId)
    case None => members
    case Some(j) => members[j := members[j].(booksIssued := Decrement(members[j].booksIssued))]
  }

  /** The books after a return: the book, if found, is `Available`. */
  function ReleaseBook(books: seq<BookModel.Book>, bookId: Id): seq<BookModel.Book>
  {
    match BookModel.FindBook(books, bookId)
    case None => books
    case Some(k) => books[k := books[k].(status := BookModel.Available)]
  }

  /** Releasing a book keeps the catalog valid. */
  lemma ReleaseBookKeepsCatalog(books: seq<BookModel.Book>, bookId: Id)
    requires BookModel.ValidCatalog(books)
    ensures BookModel.ValidCatalog(ReleaseBook(books, bookId))
  {
    match BookModel.FindBook(books, bookId)
    case None =>
    case Some(k) => BookModel.SetStatusKeepsCatalog(books, k, BookModel.Available);
  }

  /** Releasing a loan keeps the members valid. */
  lemma ReleaseMemberKeepsMembers(members: seq<MemberModel.Member>, memberId: Id)
    requires MemberModel.ValidMembers(members)
    ensures MemberModel.ValidMembers(ReleaseMember(members, memberId))
  {
    match MemberModel.FindMember(members, memberId)
    case None =>
    case Some(j) => MemberModel.SetLoansKeepsMembers(members, j, Decrement(members[j].booksIssued));
  }


  /** Appending a record whose id is new and whose fine is not negative keeps the ledger valid. */
  lemma AppendKeepsLedger(bs: seq<Borrowing>, r: Borrowing)
    requires FindBorrowing(bs, r.id).None? && r.fine >= 0
    ensures ValidLedger(bs) ==> ValidLedger(bs + [r])
  {
    var n := bs + [r];
    assert forall i :: 0 <= i < |bs| ==> n[i] == bs[i];
  }

  /** Replacing a record by one with the same id and a fine that is not negative keeps the ledger valid. */
  lemma UpdateKeepsLedger(bs: seq<Borrowing>, i: nat, r: Borrowing)
    requires i < |bs| && r.id == bs[i].id && r.fine >= 0
    ensures ValidLedger(bs) ==> ValidLedger(bs[i := r])
  {
    var n := bs[i := r];
    assert forall k :: 0 <= k < |bs| ==> BorrowingId(n[k]) == BorrowingId(bs[k]);
  }

  /** Issuing keeps every collection valid. */
  lemma IssueKeepsValid(db: Db, bookId: Id, memberId: Id, dueDate: Option<Millis>, newId: Id, now: Millis)
    requires Valid(db)
    ensures Valid(Issue(db, bookId, memberId, dueDate, newId, now).db)
  {
    var o := Issue(db, bookId, memberId, dueDate, newId, now);
    if o.result.Ok? {
      var bi := BookModel.FindBook(db.books, bookId).value;
      var mi := MemberModel.FindMember(db.members, memberId).value;
      IssuedStoresValid(db, bi, mi, o.result.value);
      assert o.db == Commit(db, bi, mi, o.result.value);
    } else {
      assert o.db == db;
    }
  }

  /** The stores an accepted issue leaves are valid when the stores before were. */
  lemma IssuedStoresValid(db: Db, bi: nat, mi: nat, r: Borrowing)
    requires Valid(db) && bi < |db.books| && mi < |db.members|
    requires FindBorrowing(db.borrowings, r.id).None? && r.fine >= 0
    ensures Valid(Commit(db, bi, mi, r))
  {
    BookModel.SetStatusKeepsCatalog(db.books, bi, BookModel.Issued);
    MemberModel.SetLoansKeepsMembers(db.members, mi, db.members[mi].booksIssued + 1);
    AppendKeepsLedger(db.borrowings, r);
  }

  /** Returning keeps every collection valid; in particular every fine stays non-negative. */
  lemma ReturnKeepsValid(db: Db, id: Id, now: Millis)
    requires Valid(db)
    ensures Valid(Return(db, id, now).db)
  {
    var o := Return(db, id, now);
    if o.result.Ok? {
      var i := FindBorrowing(db.borrowings, id).value;
      var rec := db.borrowings[i];
      UpdateKeepsLedger(db.borrowings, i, Returned(rec, now));
      ReleaseBookKeepsCatalog(db.books, rec.book);
      ReleaseMemberKeepsMembers(db.members, rec.member);
      assert o.db == Db(ReleaseBook(db.books, rec.book), ReleaseMember(db.members, rec.member),
                        db.borrowings[i := Returned(rec, now)]);
    } else {
      assert o.db == db;
    }
  }

  /** An issue only ever raises a loan count that is below the limit, so the bound survives it. */
  lemma IssueKeepsBound(db: Db, bookId: Id, memberId: Id, dueDate: Option<Millis>, newId: Id, now: Millis)
    requires LoansBounded(db.members)
    ensures LoansBounded(Issue(db, bookId, memberId, dueDate, newId, now).db.members)
  {
  }

  /** A return only ever lowers a loan count, so the bound survives it. */
  lemma ReturnKeepsBound(db: Db, id: Id, now: Millis)
    requires LoansBounded(db.members)
    ensures LoansBounded(Return(db, id, now).db.members)
  {
  }

  /** One request to the lifecycle; `now` and the new record's id are supplied with it. */
  datatype Request =
    | IssueRequest(bookId: Id, memberId: Id, dueDate: Option<Millis>, newId: Id, now: Millis)
    | ReturnRequest(id: Id, now: Millis)

  /** The stores after serving one request. */
  function Apply(db: Db, q: Request): Db
  {
    match q
    case IssueRequest(b, m, d, n, t) => Issue(db, b, m, d, n, t).db
    case ReturnRequest(id, t) => Return(db, id, t).db
  }

  /** The stores after serving requests one after another. */
  function Run(db: Db, qs: seq<Request>): Db
    decreases |qs|
  {
    if qs == [] then db else Run(Apply(db, qs[0]), qs[1..])
  }

  /** Starting with every member within the loan limit, any sequence of issues and returns keeps
      every member within it, and keeps every collection valid. */
  lemma {:induction false} RunKeepsBound(db: Db, qs: seq<Request>)
    requires LoansBounded(db.members) && Valid(db)
    ensures LoansBounded(Run(db, qs).members) && Valid(Run(db, qs))
    decreases |qs|
  {
    if qs != [] {
      match qs[0] {
        case IssueRequest(b, m, d, n, t) =>
          IssueKeepsBound(db, b, m, d, n, t);
          IssueKeepsValid(db, b, m, d, n, t);
        case ReturnRequest(id, t) =>
          ReturnKeepsBound(db, id, t);
          ReturnKeepsValid(db, id, t);
      }
      RunKeepsBound(Apply(db, qs[0]), qs[1..]);
    }
  }

  /** A record counts as a loan until it is returned. */
  predicate Open(r: Borrowing)
  {
    r.status != BorrowingModel.Returned
  }

  function BorrowedBook(r: Borrowing): Id { r.book }
  function Borrower(r: Borrowing): Id { r.member }

  /** 1 when `r` is an open loan whose `key` is `v`, else 0. */
  function Holds(r: Borrowing, key: Borrowing -> Id, v: Id): nat
  {
    if Open(r) && key(r) == v then 1 else 0
  }

  /** The number of open loans whose `key` is `v`. */
  function OpenCount(bs: seq<Borrowing>, key: Borrowing -> Id, v: Id): nat
    decreases |bs|
  {
    if bs == [] then 0 else OpenCount(bs[..|bs| - 1], key, v) + Holds(bs[|bs| - 1], key, v)
  }

  lemma OpenCountAppend(bs: seq<Borrowing>, r: Borrowing, key: Borrowing -> Id, v: Id)
    ensures OpenCount(bs + [r], key, v) == OpenCount(bs, key, v) + Holds(r, key, v)
  {
    assert (bs + [r])[..|bs|] == bs;
  }

  /** Replacing one record changes a count by what the old and the new record contribute. */
  lemma {:induction false} OpenCountUpdate(bs: seq<Borrowing>, i: nat, r: Borrowing, key: Borrowing -> Id, v: Id)
    requires i < |bs|
    ensures OpenCount(bs[i := r], key, v) + Holds(bs[i], key, v) == OpenCount(bs, key, v) + Holds(r, key, v)
    decreases |bs|
  {
    var n := |bs| - 1;
    var u := bs[i := r];
    if i == n {
      assert u[..n] == bs[..n];
    } else {
      OpenCountUpdate(bs[..n], i, r, key, v);
      assert u[..n] == bs[..n][i := r];
    }
  }

  /** Every member's `booksIssued` is the number of their open loans. */
  predicate MembersAgree(members: seq<MemberModel.Member>, bs: seq<Borrowing>)
  {
    forall j :: 0 <= j < |members| ==> members[j].booksIssued == OpenCount(bs, Borrower, members[j].id)
  }

  /** A book has one open loan when it is `Issued` and none otherwise. */
  predicate BooksAgree(books: seq<BookModel.Book>, bs: seq<Borrowing>)
  {
    forall k :: 0 <= k < |books| ==>
      OpenCount(bs, BorrowedBook, books[k].id) == if books[k].status == BookModel.Issued then 1 else 0
  }

  /** The loans recorded agree with the books and members. */
  predicate Consistent(db: Db)
  {
    Valid(db) && MembersAgree(db.members, db.borrowings) && BooksAgree(db.books, db.borrowings)
  }

  /** A new open loan for member `mi` is matched by raising that member's count and no other. */
  lemma MembersAgreeAppend(members: seq<MemberModel.Member>, bs: seq<Borrowing>, mi: nat, r: Borrowing)
    requires UniqueBy(members, MemberModel.MemberId) && mi < |members|
    requires MembersAgree(members, bs) && Open(r) && r.member == members[mi].id
    ensures MembersAgree(members[mi := members[mi].(booksIssued := members[mi].booksIssued + 1)], bs + [r])
  {
    var ms := members[mi := members[mi].(booksIssued := members[mi].booksIssued + 1)];
    forall j | 0 <= j < |ms|
      ensures ms[j].booksIssued == OpenCount(bs + [r], Borrower, ms[j].id)
    {
      OpenCountAppend(bs, r, Borrower, members[j].id);
      if j != mi {
        assert MemberModel.MemberId(members[j]) != MemberModel.MemberId(members[mi]);
      }
    }
  }

  /** A new open loan of the available book `bi` is matched by marking that book `Issued` and no other. */
  lemma BooksAgreeAppend(books: seq<BookModel.Book>, bs: seq<Borrowing>, bi: nat, r: Borrowing)
    requires UniqueBy(books, BookModel.BookId) && bi < |books|
    requires BooksAgree(books, bs) && books[bi].status == BookModel.Available && Open(r) && r.book == books[bi].id
    ensures BooksAgree(books[bi := books[bi].(status := BookModel.Issued)], bs + [r])
  {
    var nb := books[bi := books[bi].(status := BookModel.Issued)];
    forall k | 0 <= k < |nb|
      ensures OpenCount(bs + [r], BorrowedBook, nb[k].id) == if nb[k].status == BookModel.Issued then 1 else 0
    {
      OpenCountAppend(bs, r, BorrowedBook, books[k].id);
      if k != bi {
        assert BookModel.BookId(books[k]) != BookModel.BookId(books[bi]);
      }
    }
  }

  /** A successful issue adds one open loan for exactly that book and that member, which is what
      the new status and the raised count record: issuing keeps the stores consistent. */
  lemma IssueKeepsConsistent(db: Db, bookId: Id, memberId: Id, dueDate: Option<Millis>, newId: Id, now: Millis)
    requires Consistent(db)
    ensures Consistent(Issue(db, bookId, memberId, dueDate, newId, now).db)
  {
    var o := Issue(db, bookId, memberId, dueDate, newId, now);
    if o.result.Ok? {
      var bi := BookModel.FindBook(db.books, bookId).value;
      var mi := MemberModel.FindMember(db.members, memberId).value;
      CommitKeepsConsistent(db, bi, mi, o.result.value);
      assert o.db == Commit(db, bi, mi, o.result.value);
    } else {
      assert o.db == db;
    }
  }

  /** The stores an accepted issue leaves are consistent when the stores before were. */
  lemma CommitKeepsConsistent(db: Db, bi: nat, mi: nat, r: Borrowing)
    requires Consistent(db) && bi < |db.books| && mi < |db.members|
    requires FindBorrowing(db.borrowings, r.id).None? && r.fine >= 0 && Open(r)
    requires db.books[bi].status == BookModel.Available && r.book == db.books[bi].id && r.member == db.members[mi].id
    ensures Consistent(Commit(db, bi, mi, r))
  {
    IssuedStoresValid(db, bi, mi, r);
    MembersAgreeAppend(db.members, db.borrowings, mi, r);
    BooksAgreeAppend(db.books, db.borrowings, bi, r);
  }

  /** Return as it is evidently meant: a record that is already returned is refused and nothing
      changes; any other record is returned as before. */
  function ReturnOnce(db: Db, id: Id, now: Millis): (o: Outcome)
    ensures (var i := FindBorrowing(db.borrowings, id);
             i.Some? && db.borrowings[i.value].status == BorrowingModel.Returned ==>
               o == Outcome(db, Err(AppError(AlreadyReturned, 400))))
    ensures (var i := FindBorrowing(db.borrowings, id);
             i.None? || db.borrowings[i.value].status != BorrowingModel.Returned ==> o == Return(db, id, now))
  {
    match FindBorrowing(db.borrowings, id)
    case Some(i) =>
      if db.borrowings[i].status == BorrowingModel.Returned then Outcome(db, Err(AppError(AlreadyReturned, 400)))
      else Return(db, id, now)
    case None => Return(db, id, now)
  }

  const AlreadyReturned := "Book has already been returned"

  /** Closing the open loan `i` is matched by lowering its borrower's count and no other. */
  lemma MembersAgreeClose(members: seq<MemberModel.Member>, bs: seq<Borrowing>, i: nat, r: Borrowing)
    requires UniqueBy(members, MemberModel.MemberId) && i < |bs|
    requires MembersAgree(members, bs) && Open(bs[i]) && !Open(r)
    ensures MembersAgree(ReleaseMember(members, bs[i].member), bs[i := r])
  {
    var ms := ReleaseMember(members, bs[i].member);
    var found := MemberModel.FindMember(members, bs[i].member);
    forall j | 0 <= j < |ms|
      ensures ms[j].booksIssued == OpenCount(bs[i := r], Borrower, ms[j].id)
    {
      OpenCountUpdate(bs, i, r, Borrower, members[j].id);
      if found.Some? && found.value != j {
        assert MemberModel.MemberId(members[j]) != MemberModel.MemberId(members[found.value]);
      }
    }
  }

  /** Closing the open loan `i` is matched by making its book `Available` and no other. */
  lemma BooksAgreeClose(books: seq<BookModel.Book>, bs: seq<Borrowing>, i: nat, r: Borrowing)
    requires UniqueBy(books, BookModel.BookId) && i < |bs|
    requires BooksAgree(books, bs) && Open(bs[i]) && !Open(r)
    ensures BooksAgree(ReleaseBook(books, bs[i].book), bs[i := r])
  {
    var nb := ReleaseBook(books, bs[i].book);
    var found := BookModel.FindBook(books, bs[i].book);
    forall k | 0 <= k < |nb|
      ensures OpenCount(bs[i := r], BorrowedBook, nb[k].id) == if nb[k].status == BookModel.Issued then 1 else 0
    {
      OpenCountUpdate(bs, i, r, BorrowedBook, books[k].id);
      if found.Some? && found.value != k {
        assert BookModel.BookId(books[k]) != BookModel.BookId(books[found.value]);
      }
    }
  }

  /** Closing one open loan removes exactly that loan from its book's and its member's counts,
      which is what `Available` and the lowered count record: a checked return keeps the stores consistent. */
  lemma ReturnOnceKeepsConsistent(db: Db, id: Id, now: Millis)
    requires Consistent(db)
    ensures Consistent(ReturnOnce(db, id, now).db)
  {
    var o := ReturnOnce(db, id, now);
    if o.result.Ok? {
      var i := FindBorrowing(db.borrowings, id).value;
      var rec := db.borrowings[i];
      assert o == Return(db, id, now);
      ReturnKeepsValid(db, id, now);
      assert o.db == Db(ReleaseBook(db.books, rec.book), ReleaseMember(db.members, rec.member),
                        db.borrowings[i := Returned(rec, now)]);
      MembersAgreeClose(db.members, db.borrowings, i, Returned(rec, now));
      BooksAgreeClose(db.books, db.borrowings, i, Returned(rec, now));
    }
  }

  /** A sample state with one member holding two loans, used to show what a repeated return does. */
  function TwoLoans(): Db
  {
    Db([BookModel.Book("b1", "T", "A", "1", BookModel.Issued, "C", None, None, None, None, 0),
        BookModel.Book("b2", "T", "A", "2", BookModel.Issued, "C", None, None, None, None, 0)],
       [MemberModel.Member("m1", "N", "n@x", "1", MemberModel.Regular, 2, 0, None, None, 0)],
       [Borrowing("r1", "b1", "m1", 0, 0, None, Active, 0, 0),
        Borrowing("r2", "b2", "m1", 0, 0, None, Active, 0, 0)])
  }

  /** `Return` as written does not look at the record's status: returning `r1` a second time
      lowers the member's count again while `r2` is still on loan, so the count no longer matches
      the open loans. `ReturnOnce` refuses the second return instead. */
  lemma ReturnTwiceMiscounts()
    ensures Return(Return(TwoLoans(), "r1", 0).db, "r1", 0).result.Ok?
    ensures Return(Return(TwoLoans(), "r1", 0).db, "r1", 0).db.members[0].booksIssued == 0
    ensures OpenCount(Return(Return(TwoLoans(), "r1", 0).db, "r1", 0).db.borrowings, Borrower, "m1") == 1
    ensures !MembersAgree(Return(Return(TwoLoans(), "r1", 0).db, "r1", 0).db.members,
                          Return(Return(TwoLoans(), "r1", 0).db, "r1", 0).db.borrowings)
    ensures ReturnOnce(Return(TwoLoans(), "r1", 0).db, "r1", 0).result == Err(AppError(AlreadyReturned, 400))
  {
    var db := TwoLoans();
    var once := Return(db, "r1", 0).db;
    assert once.borrowings == [Returned(db.borrowings[0], 0), db.borrowings[1]];
    assert once.members == [db.members[0].(booksIssued := 1)];
    var twice := Return(once, "r1", 0).db;
    assert twice.borrowings == [Returned(db.borrowings[0], 0), db.borrowings[1]];
    assert twice.members == [db.members[0].(booksIssued := 0)];
    var bs := twice.borrowings;
    assert bs[..1] == [bs[0]];
    assert OpenCount(bs[..1], Borrower, "m1") == 0 by {
      assert bs[..1][..0] == [];
    }
  }

  /** `GET /borrowings/member/:memberId`: the records of one member, in stored order. */
  function ByMember(bs: seq<Borrowing>, memberId: Id): (r: seq<Borrowing>)
    ensures forall i :: 0 <= i < |r| ==> r[i].member == memberId && r[i] in bs
    ensures forall i :: 0 <= i < |bs| && bs[i].member == memberId ==> bs[i] in r
    ensures IsSubsequence(r, bs)
    ensures forall x :: multiset(r)[x] == if x.member == memberId then multiset(bs)[x] else 0
  {
    var p := (b: Borrowing) => b.member == memberId;
    FilterIsSubsequence(p, bs);
    forall x ensures multiset(Filter(p, bs))[x] == if x.member == memberId then multiset(bs)[x] else 0 {
      FilterMultiplicity(p, bs, x);
    }
    Filter(p, bs)
  }

  /** A record that is still active but past its due date at `now`. */
  predicate IsOverdue(r: Borrowing, now: Millis)
  {
    r.status == Active && r.dueDate < now
  }

  /** `GET /borrowings/overdue`: the active records whose due date has passed, in stored order,
      every such record kept as often as it occurs and nothing else. */
  function Overdue(bs: seq<Borrowing>, now: Millis): (r: seq<Borrowing>)
    ensures forall i :: 0 <= i < |r| ==> IsOverdue(r[i], now)
    ensures forall x :: multiset(r)[x] == if IsOverdue(x, now) then multiset(bs)[x] else 0
  {
    var p := (b: Borrowing) => IsOverdue(b, now);
    forall x ensures multiset(Filter(p, bs))[x] == if IsOverdue(x, now) then multiset(bs)[x] else 0 {
      FilterMultiplicity(p, bs, x);
    }
    Filter(p, bs)
  }

  predicate IsActive(r: Borrowing) { r.status == Active }
  predicate IsReturned(r: Borrowing) { r.status == BorrowingModel.Returned }

  /** The sum of the fines of a list of records: `$sum: '$fine'`. */
  function SumFines(bs: seq<Borrowing>): int
  {
    if bs == [] then 0 else bs[0].fine + SumFines(bs[1..])
  }

  /** The fines of the returned records, added up record by record in one pass. */
  function ReturnedFines(bs: seq<Borrowing>): int
  {
    if bs == [] then 0 else (if IsReturned(bs[0]) then bs[0].fine else 0) + ReturnedFines(bs[1..])
  }

  /** Matching the returned records and then summing their fines is the one-pass sum. */
  lemma {:induction false} SumOfReturned(bs: seq<Borrowing>)
    ensures SumFines(Filter(IsReturned, bs)) == ReturnedFines(bs)
  {
    if bs != [] {
      SumOfReturned(bs[1..]);
      if IsReturned(bs[0]) {
        assert Filter(IsReturned, bs) == [bs[0]] + Filter(IsReturned, bs[1..]);
        assert ([bs[0]] + Filter(IsReturned, bs[1..]))[1..] == Filter(IsReturned, bs[1..]);
      } else {
        assert Filter(IsReturned, bs) == Filter(IsReturned, bs[1..]);
      }
    }
  }

  /** The fines of a valid ledger add up to a non-negative total. */
  lemma {:induction false} ReturnedFinesNonNegative(bs: seq<Borrowing>)
    ensures (forall i :: 0 <= i < |bs| ==> bs[i].fine >= 0) ==> ReturnedFines(bs) >= 0
  {
    if bs != [] {
      ReturnedFinesNonNegative(bs[1..]);
    }
  }

  /** No returned record means no fines. */
  lemma {:induction false} NoReturnedNoFines(bs: seq<Borrowing>)
    ensures (forall i :: 0 <= i < |bs| ==> !IsReturned(bs[i])) ==> ReturnedFines(bs) == 0
  {
    if bs != [] {
      NoReturnedNoFines(bs[1..]);
    }
  }

  /** The statistics the stats endpoint answers with. */
  datatype Stats = Stats(totalBorrowings: nat, activeBorrowings: nat, overdueBorrowings: nat, totalFines: int)

  /** `GET /borrowings/stats`: the number of records, of active ones and of overdue ones, and the
      fines of the returned ones added up (0 when there are none). */
  function BorrowingStats(bs: seq<Borrowing>, now: Millis): (s: Stats)
    ensures s.overdueBorrowings <= s.activeBorrowings <= s.totalBorrowings == |bs|
    ensures s.overdueBorrowings == |Overdue(bs, now)|
    ensures s.activeBorrowings == |Filter(IsActive, bs)|
    ensures s.totalFines == ReturnedFines(bs)
    ensures ValidLedger(bs) ==> s.totalFines >= 0
    ensures (forall i :: 0 <= i < |bs| ==> !IsReturned(bs[i])) ==> s.totalFines == 0
  {
    var overdue := Overdue(bs, now);
    FilterWeaker((b: Borrowing) => IsOverdue(b, now), IsActive, bs);
    var returned := Filter(IsReturned, bs);
    SumOfReturned(bs);
    ReturnedFinesNonNegative(bs);
    NoReturnedNoFines(bs);
    Stats(|bs|, |Filter(IsActive, bs)|, |overdue|, if returned == [] then 0 else SumFines(returned))
  }

  /** The stats endpoint behind its gate: only a signed-in admin or librarian is answered, and
      answering changes no record. */
  function StatsRoute(header: Option<string>, verify: string -> Option<Id>, users: seq<Auth.User>,
                      bs: seq<Borrowing>, now: Millis): (r: Result<Stats, ErrorValue>)
    ensures r.Ok? <==> Auth.Guard(header, verify, users, ["admin", "librarian"]).Ok?
    ensures r.Ok? ==> r.value == BorrowingStats(bs, now)
    ensures r.Err? ==> r.error == Auth.Guard(header, verify, users, ["admin", "librarian"]).error
  {
    match Auth.Guard(header, verify, users, ["admin", "librarian"])
    case Err(e) => Err(e)
    case Ok(_) => Ok(BorrowingStats(bs, now))
  }

  /** The three collections as the routes change them, one document write at a time. */
  class Library {
    var books: seq<BookModel.Book>
    var members: seq<MemberModel.Member>
    var borrowings: seq<Borrowing>

    /** The collections as a value. */
    function State(): Db
      reads this
    {
      Db(books, members, borrowings)
    }

    constructor (db: Db)
      ensures State() == db
    {
      books, members, borrowings := db.books, db.members, db.borrowings;
    }

    /** `POST /borrowings`: each guard returns before anything is written; then the record is
        created, the book saved as `Issued` and the member saved with one more loan. */
    method IssueBook(bookId: Id, memberId: Id, dueDate: Option<Millis>, newId: Id, now: Millis)
      returns (result: Result<Borrowing, ErrorValue>)
      modifies this
      ensures (var o := Issue(old(State()), bookId, memberId, dueDate, newId, now);
               State() == o.db && result == o.result)
    {
      var bi := BookModel.FindBook(books, bookId);
      if bi.None? {
        return Err(AppError(BookNotFound, 404));
      }
      var book := books[bi.value];
      if book.status != BookModel.Available {
        return Err(AppError(BookNotAvailable, 400));
      }
      var mi := MemberModel.FindMember(members, memberId);
      if mi.None? {
        return Err(AppError(MemberNotFound, 404));
      }
      var member := members[mi.value];
      if member.booksIssued >= MaxLoans {
        return Err(AppError(LimitReached, 400));
      }
      var created := Create(BorrowingFields(Some(bookId), Some(memberId), DueDateField(dueDate)), newId, now);
      if created.Err? {
        return Err(created.error);
      }
      if FindBorrowing(borrowings, newId).Some? {
        return Err(DuplicateKeyError("_id_"));
      }
      borrowings := borrowings + [created.value];
      books := books[bi.value := book.(status := BookModel.Issued)];
      members := members[mi.value := member.(booksIssued := member.booksIssued + 1)];
      result := Ok(created.value);
    }

    /** `PUT /borrowings/:id/return`: the record is closed and saved, then the book and the member
        are each saved if they are found. */
    method ReturnBook(id: Id, now: Millis) returns (result: Result<Borrowing, ErrorValue>)
      modifies this
      ensures (var o := Return(old(State()), id, now);
               State() == o.db && result == o.result)
    {
      var i := FindBorrowing(borrowings, id);
      if i.None? {
        return Err(AppError(RecordNotFound, 404));
      }
      var doc := new BorrowingDocument.Load(borrowings[i.value]);
      doc.status := BorrowingModel.Returned;
      doc.returnDate := Some(now);
      var _ := doc.CalculateFine();
      var rec := doc.Record();
      borrowings := borrowings[i.value := rec];
      var k := BookModel.FindBook(books, rec.book);
      if k.Some? {
        books := books[k.value := books[k.value].(status := BookModel.Available)];
      }
      var j := MemberModel.FindMember(members, rec.member);
      if j.Some? {
        members := members[j.value := members[j.value].(booksIssued := Decrement(members[j.value].booksIssued))];
      }
      result := Ok(rec);
    }
  }
}
