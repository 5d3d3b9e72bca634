/** The members page: a search box whose query is lower-cased as it is typed, matched against the
    lower-cased name and e-mail and against the phone as it is stored; the local removal of a
    deleted member; the colour of each membership type; and the highlight of members at the loan
    limit. */
module MembersPage {
  import opened Text
  import opened Sequences
  import opened ClientSearch
  import opened Palette
  import BorrowingRoutes

  /** A member as the members page stores it. */
  datatype Member = Member(id: string, name: string, email: string, phone: string, membershipType: string,
                           booksIssued: int, joinDate: string)

  /** The search test: name and e-mail lower-cased, phone as stored. */
  predicate MatchesSearch(m: Member, query: string)
  {
    Includes(Lower(m.name), query) || Includes(Lower(m.email), query) || Includes(m.phone, query)
  }

  /** `filteredMembers`: the members the query matches, in their order, each kept as often as it occurs. */
  function Filtered(members: seq<Member>, query: string): (r: seq<Member>)
    ensures IsSubsequence(r, members)
    ensures forall m :: multiset(r)[m] == if MatchesSearch(m, query) then multiset(members)[m] else 0
  {
    var p := (m: Member) => MatchesSearch(m, query);
    FilterIsSubsequence(p, members);
    forall m ensures multiset(Filter(p, members))[m] == if p(m) then multiset(members)[m] else 0 {
      FilterMultiplicity(p, members, m);
    }
    Filter(p, members)
  }

  /** Name and e-mail are found whatever the case of the typed query; the phone is found when it
      contains the lower-cased query; the empty query lists every member. */
  lemma FilteredMatches(members: seq<Member>, input: string)
    ensures forall m :: m in members ==>
              (m in Filtered(members, SearchQuery(input)) <==>
                 Matches(m.name, input) || Matches(m.email, input) || Includes(m.phone, Lower(input)))
    ensures Filtered(members, SearchQuery("")) == members
  {
    forall m | m in members
      ensures m in Filtered(members, SearchQuery(input)) <==>
                Matches(m.name, input) || Matches(m.email, input) || Includes(m.phone, Lower(input))
    {
      assert multiset(members)[m] > 0;
    }
    forall i | 0 <= i < |members| ensures MatchesSearch(members[i], "") {
      IncludesEmpty(Lower(members[i].name));
    }
    FilterKeepsAll((m: Member) => MatchesSearch(m, ""), members);
  }

  /** `handleDelete` after the server confirms: the members with any other id, in their order. */
  function RemoveMember(members: seq<Member>, id: string): (r: seq<Member>)
    ensures IsSubsequence(r, members)
    ensures forall m :: multiset(r)[m] == if m.id != id then multiset(members)[m] else 0
    ensures forall i :: 0 <= i < |r| ==> r[i].id != id
  {
    var p := (m: Member) => m.id != id;
    FilterIsSubsequence(p, members);
    forall m ensures multiset(Filter(p, members))[m] == if p(m) then multiset(members)[m] else 0 {
      FilterMultiplicity(p, members, m);
    }
    Filter(p, members)
  }

  /** Removing an id no member has changes nothing, and removing one twice is removing it once. */
  lemma RemoveMemberProperties(members: seq<Member>, id: string)
    ensures (forall i :: 0 <= i < |members| ==> members[i].id != id) ==> RemoveMember(members, id) == members
    ensures RemoveMember(RemoveMember(members, id), id) == RemoveMember(members, id)
  {
    if forall i :: 0 <= i < |members| ==> members[i].id != id {
      FilterKeepsAll((m: Member) => m.id != id, members);
    }
    FilterIdempotent((m: Member) => m.id != id, members);
  }

  /** `getMembershipColor`: one colour per membership type and grey for anything else. */
  function MembershipColour(membershipType: string): (c: Colour)
    ensures membershipType == "Premium" ==> c == Primary
    ensures membershipType == "Regular" ==> c == Success
    ensures membershipType == "Student" ==> c == Warning
    ensures c == Grey <==> membershipType !in {"Premium", "Regular", "Student"}
  {
    match membershipType
    case "Premium" => Primary
    case "Regular" => Success
    case "Student" => Warning
    case _ => Grey
  }

  /** The colour of the loan count: red above two, green otherwise. */
  function LoanColour(booksIssued: int): (c: Colour)
    ensures c == Error <==> booksIssued > 2
    ensures c != Error ==> c == Success
  {
    if booksIssued > 2 then Error else Success
  }

  /** The three membership types have three different colours, none of them grey, and the loan
      count turns red exactly when the member can borrow no more. */
  lemma ColoursDistinguish(booksIssued: int)
    ensures MembershipColour("Premium") != MembershipColour("Regular")
    ensures MembershipColour("Regular") != MembershipColour("Student")
    ensures MembershipColour("Premium") != MembershipColour("Student")
    ensures Grey !in {MembershipColour("Premium"), MembershipColour("Regular"), MembershipColour("Student")}
    ensures LoanColour(booksIssued) == Error <==> booksIssued >= BorrowingRoutes.MaxLoans
  {
  }
}
