/** The dashboard statistics: collection sizes, books counted by status, members counted by
    tier, and the five newest books and members. */
module Dashboard {
  import opened Wrappers
  import opened Documents
  import opened Errors
  import opened Sequences
  import opened BookModel
  import opened MemberModel
  import Auth

  /** The fields of a book the dashboard lists: `select('title author status')`. */
  datatype BookSummary = BookSummary(id: Id, title: string, author: string, status: BookStatus)

  /** The fields of a member the dashboard lists: `select('name email membershipType')`. */
  datatype MemberSummary = MemberSummary(id: Id, name: string, email: string, membershipType: MembershipType)

  /** The JSON object the stats endpoint answers with. */
  datatype DashboardStats = DashboardStats(
    totalBooks: nat,
    booksByStatus: seq<Bucket<BookStatus>>,
    totalMembers: nat,
    membersByType: seq<Bucket<MembershipType>>,
    recentBooks: seq<BookSummary>,
    recentMembers: seq<MemberSummary>)

  /** How many of the newest documents are listed. */
  const RecentLimit: nat := 5

  function BookCreated(b: Book): int { b.createdAt }
  function MemberCreated(m: Member): int { m.createdAt }

  function SummariseBook(b: Book): BookSummary { BookSummary(b.id, b.title, b.author, b.status) }
  function SummariseMember(m: Member): MemberSummary { MemberSummary(m.id, m.name, m.email, m.membershipType) }

  /** The status of every book, in stored order. */
  function Statuses(books: seq<Book>): (r: seq<BookStatus>)
    ensures |r| == |books| && forall i :: 0 <= i < |books| ==> r[i] == books[i].status
  {
    if books == [] then [] else [books[0].status] + Statuses(books[1..])
  }

  /** The tier of every member, in stored order. */
  function Tiers(members: seq<Member>): (r: seq<MembershipType>)
    ensures |r| == |members| && forall i :: 0 <= i < |members| ==> r[i] == members[i].membershipType
  {
    if members == [] then [] else [members[0].membershipType] + Tiers(members[1..])
  }

  /** The summaries of a list of books, in its order. */
  function BookSummaries(books: seq<Book>): (r: seq<BookSummary>)
    ensures |r| == |books| && forall i :: 0 <= i < |books| ==> r[i] == SummariseBook(books[i])
  {
    if books == [] then [] else [SummariseBook(books[0])] + BookSummaries(books[1..])
  }

  /** The summaries of a list of members, in its order. */
  function MemberSummaries(members: seq<Member>): (r: seq<MemberSummary>)
    ensures |r| == |members| && forall i :: 0 <= i < |members| ==> r[i] == SummariseMember(members[i])
  {
    if members == [] then [] else [SummariseMember(members[0])] + MemberSummaries(members[1..])
  }

  /** The statistics over the stored books and members. `$group` returns its groups in no
      particular order; here they come in the order of each key's first occurrence. */
  function Compute(books: seq<Book>, members: seq<Member>): (d: DashboardStats)
    ensures d.totalBooks == |books| && d.totalMembers == |members|
    ensures DistinctKeys(d.booksByStatus) && TotalCount(d.booksByStatus) == d.totalBooks
    ensures DistinctKeys(d.membersByType) && TotalCount(d.membersByType) == d.totalMembers
    ensures |d.recentBooks| == if |books| < RecentLimit then |books| else RecentLimit
    ensures |d.recentMembers| == if |members| < RecentLimit then |members| else RecentLimit
    ensures d.recentBooks == BookSummaries(Newest(books, RecentLimit, BookCreated))
    ensures d.recentMembers == MemberSummaries(Newest(members, RecentLimit, MemberCreated))
  {
    NewestCorrect(books, RecentLimit, BookCreated);
    NewestCorrect(members, RecentLimit, MemberCreated);
    DashboardStats(|books|, GroupCount(Statuses(books)), |members|, GroupCount(Tiers(members)),
                   BookSummaries(Newest(books, RecentLimit, BookCreated)),
                   MemberSummaries(Newest(members, RecentLimit, MemberCreated)))
  }

  /** Each status group counts exactly the books with that status, and every status a book has
      has a group; likewise for the tiers of the members. */
  lemma GroupsCountExactly(books: seq<Book>, members: seq<Member>)
    ensures (var g := Compute(books, members).booksByStatus;
             && (forall i :: 0 <= i < |g| ==> g[i].count == multiset(Statuses(books))[g[i].key] > 0)
             && (forall k :: 0 <= k < |books| ==> exists i :: 0 <= i < |g| && g[i].key == books[k].status))
    ensures (var g := Compute(books, members).membersByType;
             && (forall i :: 0 <= i < |g| ==> g[i].count == multiset(Tiers(members))[g[i].key] > 0)
             && (forall k :: 0 <= k < |members| ==> exists i :: 0 <= i < |g| && g[i].key == members[k].membershipType))
  {
    GroupCountCorrect(Statuses(books));
    GroupCountCorrect(Tiers(members));
    var s, t := Statuses(books), Tiers(members);
    assert forall k :: 0 <= k < |books| ==> books[k].status == s[k] && s[k] in s;
    assert forall k :: 0 <= k < |members| ==> members[k].membershipType == t[k] && t[k] in t;
  }

  /** The recent lists are newest first, are drawn from the stored documents, and no document left
      out is newer than one listed. */
  lemma RecentAreNewest(books: seq<Book>, members: seq<Member>)
    ensures (var r := Newest(books, RecentLimit, BookCreated);
             && Compute(books, members).recentBooks == BookSummaries(r)
             && NewestFirst(r, BookCreated) && multiset(r) <= multiset(books)
             && forall x, y :: x in books && multiset(r)[x] < multiset(books)[x] && y in r ==> x.createdAt <= y.createdAt)
    ensures (var r := Newest(members, RecentLimit, MemberCreated);
             && Compute(books, members).recentMembers == MemberSummaries(r)
             && NewestFirst(r, MemberCreated) && multiset(r) <= multiset(members)
             && forall x, y :: x in members && multiset(r)[x] < multiset(members)[x] && y in r ==> x.createdAt <= y.createdAt)
  {
    NewestCorrect(books, RecentLimit, BookCreated);
    NewestCorrect(members, RecentLimit, MemberCreated);
  }

  /** The dashboard endpoint behind its gate: only a signed-in admin or librarian is answered;
      nothing is written either way. */
  function StatsRoute(header: Option<string>, verify: string -> Option<Id>, users: seq<Auth.User>,
                      books: seq<Book>, members: seq<Member>): (r: Result<DashboardStats, ErrorValue>)
    ensures r.Ok? <==> Auth.Guard(header, verify, users, ["admin", "librarian"]).Ok?
    ensures r.Ok? ==> r.value == Compute(books, members)
    ensures r.Err? ==> r.error == Auth.Guard(header, verify, users, ["admin", "librarian"]).error
  {
    match Auth.Guard(header, verify, users, ["admin", "librarian"])
    case Err(e) => Err(e)
    case Ok(_) => Ok(Compute(books, members))
  }

  /** A signed-in user whose role is neither admin nor librarian is refused with 403, and an
      unauthenticated request with 401. */
  lemma StatsRouteRefusals(header: Option<string>, verify: string -> Option<Id>, users: seq<Auth.User>,
                           books: seq<Book>, members: seq<Member>)
    ensures (Auth.Protect(header, verify, users).Err? ==>
               StatsRoute(header, verify, users, books, members) == Err(AppError(Auth.NotAuthorized, 401)))
    ensures (Auth.Protect(header, verify, users).Ok? && Auth.Protect(header, verify, users).value.role !in ["admin", "librarian"] ==>
               StatsRoute(header, verify, users, books, members).Err?
               && StatsRoute(header, verify, users, books, members).error.statusCode == 403)
  {
  }
}
