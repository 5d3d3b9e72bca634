/** The member list page: a search box over name, e-mail and phone, a membership drop-down and
    a status drop-down, the chips of each row, and the delete button that is disabled while the
    member has books on loan. */
module MembersListPage {
  import opened Text
  import opened Sequences
  import opened ClientSearch
  import opened Palette

  /** A member as the list page receives it. */
  datatype Member = Member(id: string, name: string, email: string, phone: string, membershipType: string,
                           joinDate: string, booksIssued: int, status: string)

  /** The search term matches the name, the e-mail or the phone, ignoring case. */
  predicate MatchesSearch(m: Member, term: string)
  {
    Matches(m.name, term) || Matches(m.email, term) || Matches(m.phone, term)
  }

  /** The three tests of `filteredMembers`, all of which must pass. */
  predicate Shown(m: Member, term: string, membership: string, status: string)
  {
    MatchesSearch(m, term) && Passes(m.membershipType, membership) && Passes(m.status, status)
  }

  /** `filteredMembers`: the members passing all three tests, in their order, each kept as often
      as it occurs. */
  function Filtered(members: seq<Member>, term: string, membership: string, status: string): (r: seq<Member>)
    ensures IsSubsequence(r, members)
    ensures forall m :: multiset(r)[m] == if Shown(m, term, membership, status) then multiset(members)[m] else 0
    ensures forall m :: m in r <==> m in members && Shown(m, term, membership, status)
    ensures membership != All ==> forall i :: 0 <= i < |r| ==> r[i].membershipType == membership
    ensures status != All ==> forall i :: 0 <= i < |r| ==> r[i].status == status
  {
    var p := (m: Member) => Shown(m, term, membership, status);
    FilterIsSubsequence(p, members);
    forall m ensures multiset(Filter(p, members))[m] == if p(m) then multiset(members)[m] else 0 {
      FilterMultiplicity(p, members, m);
    }
    Filter(p, members)
  }

  /** An empty search with both drop-downs on `all` lists every member, and filtering the
      filtered list again changes nothing. */
  lemma FilteredProperties(members: seq<Member>, term: string, membership: string, status: string)
    ensures Filtered(members, "", All, All) == members
    ensures Filtered(Filtered(members, term, membership, status), term, membership, status)
            == Filtered(members, term, membership, status)
  {
    forall i | 0 <= i < |members| ensures Shown(members[i], "", All, All) {
      MatchesEmpty(members[i].name);
    }
    FilterKeepsAll((m: Member) => Shown(m, "", All, All), members);
    FilterIdempotent((m: Member) => Shown(m, term, membership, status), members);
  }

  /** The search ignores case: typing the term in any case lists the same members. */
  lemma SearchIgnoresCase(members: seq<Member>, term: string, membership: string, status: string)
    ensures Filtered(members, Lower(term), membership, status) == Filtered(members, term, membership, status)
  {
    forall m: Member ensures MatchesSearch(m, Lower(term)) == MatchesSearch(m, term) {
      MatchesIgnoresCase(m.name, term);
      MatchesIgnoresCase(m.email, term);
      MatchesIgnoresCase(m.phone, term);
    }
    FilterCongruent((m: Member) => Shown(m, Lower(term), membership, status),
                    (m: Member) => Shown(m, term, membership, status), members);
  }

  /** The delete button is disabled while the member has books on loan. */
  predicate DeleteDisabled(m: Member)
  {
    m.booksIssued > 0
  }

  /** The membership chip: purple for Premium, blue for Student, plain for anything else. */
  function MembershipChip(membershipType: string): (c: Colour)
    ensures c == Secondary <==> membershipType == "Premium"
    ensures c == Info <==> membershipType == "Student"
    ensures c in {Secondary, Info, Default}
  {
    if membershipType == "Premium" then Secondary
    else if membershipType == "Student" then Info
    else Default
  }

  /** The loan-count chip: highlighted while books are on loan. */
  function LoansChip(m: Member): (c: Colour)
    ensures c == Primary <==> m.booksIssued > 0
    ensures c != Primary ==> c == Default
  {
    if m.booksIssued > 0 then Primary else Default
  }

  /** The status chip: green for Active, red for anything else. */
  function StatusChip(status: string): (c: Colour)
    ensures c == Success <==> status == "Active"
    ensures c != Success ==> c == Error
  {
    if status == "Active" then Success else Error
  }

  /** A row's delete button is disabled exactly when its loan chip is highlighted: neither can be
      seen without the other. */
  lemma DeleteDisabledIffHighlighted(m: Member)
    ensures DeleteDisabled(m) <==> LoansChip(m) == Primary
    ensures !DeleteDisabled(m) <==> m.booksIssued <= 0
  {
  }
}
