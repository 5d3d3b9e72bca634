/** The loans page: a search box over the book title and the member name, a status drop-down,
    the status chip colours and the return button of each row.

    The page's vocabulary for a loan's status is `Borrowed`, `Returned` and `Overdue`, while the
    server stores `active`, `returned` and `overdue`; both are modelled as they are written. */
module BorrowingsListPage {
  import opened Wrappers
  import opened Text
  import opened Sequences
  import opened ClientSearch
  import opened Palette
  import BorrowingModel

  /** A loan as the page receives it, with the book and member populated. */
  datatype Borrowing = Borrowing(id: string, bookTitle: string, bookAuthor: string, memberName: string,
                                 memberEmail: string, borrowedDate: string, dueDate: string,
                                 returnDate: Option<string>, status: string)

  /** The search term matches the book title or the member name, ignoring case. */
  predicate MatchesSearch(b: Borrowing, term: string)
  {
    Matches(b.bookTitle, term) || Matches(b.memberName, term)
  }

  /** The two tests of `filteredBorrowings`, both of which must pass. */
  predicate Shown(b: Borrowing, term: string, status: string)
  {
    MatchesSearch(b, term) && Passes(b.status, status)
  }

  /** `filteredBorrowings`: the loans passing both tests, in their order, each kept as often as it occurs. */
  function Filtered(borrowings: seq<Borrowing>, term: string, status: string): (r: seq<Borrowing>)
    ensures IsSubsequence(r, borrowings)
    ensures forall b :: multiset(r)[b] == if Shown(b, term, status) then multiset(borrowings)[b] else 0
    ensures forall b :: b in r <==> b in borrowings && Shown(b, term, status)
    ensures status != All ==> forall i :: 0 <= i < |r| ==> r[i].status == status
  {
    var p := (b: Borrowing) => Shown(b, term, status);
    FilterIsSubsequence(p, borrowings);
    forall b ensures multiset(Filter(p, borrowings))[b] == if p(b) then multiset(borrowings)[b] else 0 {
      FilterMultiplicity(p, borrowings, b);
    }
    Filter(p, borrowings)
  }

  /** An empty search on `all` lists every loan, filtering twice is filtering once, and the case of
      the search term does not matter. */
  lemma FilteredProperties(borrowings: seq<Borrowing>, term: string, status: string)
    ensures Filtered(borrowings, "", All) == borrowings
    ensures Filtered(Filtered(borrowings, term, status), term, status) == Filtered(borrowings, term, status)
    ensures Filtered(borrowings, Lower(term), status) == Filtered(borrowings, term, status)
  {
    forall i | 0 <= i < |borrowings| ensures Shown(borrowings[i], "", All) {
      MatchesEmpty(borrowings[i].bookTitle);
    }
    FilterKeepsAll((b: Borrowing) => Shown(b, "", All), borrowings);
    FilterIdempotent((b: Borrowing) => Shown(b, term, status), borrowings);
    forall b: Borrowing ensures MatchesSearch(b, Lower(term)) == MatchesSearch(b, term) {
      MatchesIgnoresCase(b.bookTitle, term);
      MatchesIgnoresCase(b.memberName, term);
    }
    FilterCongruent((b: Borrowing) => Shown(b, Lower(term), status),
                    (b: Borrowing) => Shown(b, term, status), borrowings);
  }

  /** `statusColors[status]`: defined for the page's three statuses and undefined for any other string. */
  function StatusColour(status: string): (c: Option<Colour>)
    ensures c.Some? <==> status in {"Borrowed", "Returned", "Overdue"}
    ensures status == "Borrowed" ==> c == Some(Primary)
    ensures status == "Returned" ==> c == Some(Success)
    ensures status == "Overdue" ==> c == Some(Error)
  {
    match status
    case "Borrowed" => Some(Primary)
    case "Returned" => Some(Success)
    case "Overdue" => Some(Error)
    case _ => None
  }

  /** The return button a row offers: its colour and its title. */
  datatype ReturnButton = ReturnButton(colour: Colour, title: string)

  /** A return button for a borrowed loan, a red one for an overdue loan, none otherwise. */
  function ReturnAction(status: string): (r: Option<ReturnButton>)
    ensures r.Some? <==> status == "Borrowed" || status == "Overdue"
    ensures status == "Borrowed" ==> r == Some(ReturnButton(Primary, "Return Book"))
    ensures status == "Overdue" ==> r == Some(ReturnButton(Error, "Return Book (Overdue)"))
  {
    if status == "Borrowed" then Some(ReturnButton(Primary, "Return Book"))
    else if status == "Overdue" then Some(ReturnButton(Error, "Return Book (Overdue)"))
    else None
  }

  /** A returned loan never offers a return, and every loan that offers one has a chip colour. */
  lemma ReturnOnlyWhenOpen(status: string)
    ensures ReturnAction("Returned").None?
    ensures ReturnAction(status).Some? ==> StatusColour(status).Some? && StatusColour(status) != Some(Success)
  {
  }

  /** A status string as the server stores it. */
  predicate ServerStatus(status: string)
  {
    exists t :: status == BorrowingModel.StatusName(t)
  }

  /** A status as the server stores it has neither a chip colour nor a return button on this page. */
  lemma ServerStatusesUnmatched(s: BorrowingModel.BorrowingStatus)
    ensures StatusColour(BorrowingModel.StatusName(s)).None?
    ensures ReturnAction(BorrowingModel.StatusName(s)).None?
  {
  }

  /** A drop-down choice other than `all` lists none of the loans the server sends. */
  lemma ServerLoansNeverListed(borrowings: seq<Borrowing>, term: string, choice: string)
    requires forall i :: 0 <= i < |borrowings| ==> ServerStatus(borrowings[i].status)
    requires choice in {"Borrowed", "Returned", "Overdue"}
    ensures Filtered(borrowings, term, choice) == []
  {
    ChoiceNotStored(choice);
  }

  /** None of the page's status choices is a status the server stores. */
  lemma ChoiceNotStored(choice: string)
    requires choice in {"Borrowed", "Returned", "Overdue"}
    ensures !ServerStatus(choice)
  {
    forall t: BorrowingModel.BorrowingStatus ensures choice != BorrowingModel.StatusName(t) {
      ServerStatusesUnmatched(t);
    }
  }
}
