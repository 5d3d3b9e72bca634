/** The borrowing record: who borrowed which book until when, its schema defaults, and the
    fine rule of one unit per whole day late. */
module BorrowingModel {
  import opened Wrappers
  import opened Documents
  import opened Errors
  import opened Sequences

  /** A record's state; no other value can be stored. */
  datatype BorrowingStatus = Active | Returned | Overdue

  /** The enumeration value as stored. */
  function StatusName(s: BorrowingStatus): string
  {
    match s
    case Active => "active"
    case Returned => "returned"
    case Overdue => "overdue"
  }

  /** A stored borrowing record; `book` and `member` hold the ids of the documents they refer to. */
  datatype Borrowing = Borrowing(
    id: Id,
    book: Id,
    member: Id,
    borrowedDate: Millis,
    dueDate: Millis,
    returnDate: Option<Millis>,
    status: BorrowingStatus,
    fine: int,
    createdAt: Millis)

  function BorrowingId(b: Borrowing): Id { b.id }

  /** A date field as a request delivers it: missing, not a date, or a point in time. */
  datatype DateField = NoDate | InvalidDate | Date(millis: Millis)

  /** The fields a new record is created from. */
  datatype BorrowingFields = BorrowingFields(book: Option<Id>, member: Option<Id>, dueDate: DateField)

  /** The checks that fail, in schema order, each with the schema's message. */
  function Failures(f: BorrowingFields): seq<FieldError>
  {
    (if f.book.Some? then [] else [FieldError("book", "Book is required")])
    + (if f.member.Some? then [] else [FieldError("member", "Member is required")])
    + (match f.dueDate
       case NoDate => [FieldError("dueDate", "Due date is required")]
       case InvalidDate =>
         [FieldError("dueDate", "Cast to date failed for value \"Invalid Date\" (type Date) at path \"dueDate\"")]
       case Date(_) => [])
  }

  /** `Borrowing.create(fields)`: a record needs a book, a member and a valid due date; it starts
      `active`, with fine 0, no return date, and borrowed at the moment of creation. */
  function Create(f: BorrowingFields, id: Id, now: Millis): (r: Result<Borrowing, ErrorValue>)
    ensures r.Ok? <==> f.book.Some? && f.member.Some? && f.dueDate.Date?
    ensures r.Err? ==> r.error.Thrown? && r.error.name == "ValidationError"
    ensures r.Ok? ==> (&& r.value.id == id && r.value.book == f.book.value && r.value.member == f.member.value
                       && r.value.dueDate == f.dueDate.millis && r.value.status == Active && r.value.fine == 0
                       && r.value.returnDate.None? && r.value.borrowedDate == now && r.value.createdAt == now)
  {
    var failures := Failures(f);
    if failures != [] then Err(ValidationError("Borrowing", failures))
    else Ok(Borrowing(id, f.book.value, f.member.value, now, f.dueDate.millis, None, Active, 0, now))
  }

  /** The length of a day in milliseconds. */
  const MillisPerDay: int := 1000 * 60 * 60 * 24

  /** One unit of fine per day. */
  const FinePerDay: int := 1

  /** The fine for returning at `returned` what was due at `due`: whole days late, rounded down,
      and never negative. Dafny's `/` by a positive divisor rounds down, as `Math.floor` does. */
  function Fine(due: Millis, returned: Millis): (f: int)
    ensures f >= 0
    ensures returned - due < MillisPerDay ==> f == 0
    ensures returned - due >= 0 ==> f * MillisPerDay <= returned - due < (f + 1) * MillisPerDay
  {
    var days := (returned - due) / MillisPerDay;
    (if days > 0 then days else 0) * FinePerDay
  }

  /** Returning between `k` and `k + 1` whole days late costs exactly `k`. */
  lemma FineWholeDays(due: Millis, k: nat, part: int)
    requires 0 <= part < MillisPerDay
    ensures Fine(due, due + k * MillisPerDay + part) == k
  {
  }

  /** A later return never costs less. */
  lemma FineMonotone(due: Millis, r1: Millis, r2: Millis)
    requires r1 <= r2
    ensures Fine(due, r1) <= Fine(due, r2)
  {
  }

  /** `calculateFine` on a record: a returned record with a return date gets the fine of its
      dates; any other record keeps the fine it has. */
  function Recalculated(b: Borrowing): Borrowing
  {
    if b.status == Returned && b.returnDate.Some? then b.(fine := Fine(b.dueDate, b.returnDate.value)) else b
  }

  /** Recalculating changes the fine and nothing else, and only for a returned record with a
      return date, where the fine becomes the one its dates call for. */
  lemma RecalculatedChangesOnlyFine(b: Borrowing)
    ensures Recalculated(b).(fine := b.fine) == b
    ensures b.status != Returned || b.returnDate.None? ==> Recalculated(b) == b
    ensures b.status == Returned && b.returnDate.Some? ==>
      Recalculated(b).fine == Fine(b.dueDate, b.returnDate.value) >= 0
  {
  }

  /** Recalculating a second time gives the same record. */
  lemma RecalculatedIdempotent(b: Borrowing)
    ensures Recalculated(Recalculated(b)) == Recalculated(b)
  {
  }

  /** The borrowing records as stored: unique ids and no negative fine. */
  predicate ValidLedger(bs: seq<Borrowing>)
  {
    UniqueBy(bs, BorrowingId) && forall i :: 0 <= i < |bs| ==> bs[i].fine >= 0
  }

  /** `Borrowing.findById(id)`: the position of the record with that id. */
  function FindBorrowing(bs: seq<Borrowing>, id: Id): (r: Option<nat>)
    ensures r.Some? ==> r.value < |bs| && bs[r.value].id == id
    ensures r.None? <==> forall i :: 0 <= i < |bs| ==> bs[i].id != id
  {
    FindFirst((b: Borrowing) => b.id == id, bs)
  }

  /** A loaded borrowing document, whose `calculateFine` assigns its own `fine` field. */
  class BorrowingDocument {
    var id: Id
    var book: Id
    var member: Id
    var borrowedDate: Millis
    var dueDate: Millis
    var returnDate: Option<Millis>
    var status: BorrowingStatus
    var fine: int
    var createdAt: Millis

    /** The document's fields as a record value. */
    function Record(): Borrowing
      reads this
    {
      Borrowing(id, book, member, borrowedDate, dueDate, returnDate, status, fine, createdAt)
    }

    /** Loads a stored record. */
    constructor Load(r: Borrowing)
      ensures Record() == r
    {
      id, book, member := r.id, r.book, r.member;
      borrowedDate, dueDate, returnDate := r.borrowedDate, r.dueDate, r.returnDate;
      status, fine, createdAt := r.status, r.fine, r.createdAt;
    }

    /** `borrowing.calculateFine()`: updates the fine of a returned record and returns the
        current fine. */
    method CalculateFine() returns (f: int)
      modifies this`fine
      ensures Record() == Recalculated(old(Record()))
      ensures f == fine
    {
      if status == Returned && returnDate.Some? {
        var daysOverdue := (returnDate.value - dueDate) / MillisPerDay;
        if daysOverdue < 0 {
          daysOverdue := 0;
        }
        fine := daysOverdue * FinePerDay;
      }
      f := fine;
    }
  }
}
