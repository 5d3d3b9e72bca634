/** The member record and the checks its schema applies when a member is saved: required fields,
    the membership enumeration with its default, a non-negative loan count, and an e-mail address
    stored trimmed, lower-cased and unique. */
module MemberModel {
  import opened Wrappers
  import opened Documents
  import opened Text
  import opened Errors
  import opened Sequences

  /** A member's tier; no other value can be stored. */
  datatype MembershipType = Regular | Premium | Student

  /** The enumeration value as stored. */
  function MembershipName(t: MembershipType): string
  {
    match t
    case Regular => "Regular"
    case Premium => "Premium"
    case Student => "Student"
  }

  /** The tier a string names, if it is one of the enumeration's values. */
  function ParseMembership(name: string): (r: Option<MembershipType>)
    ensures r.Some? ==> MembershipName(r.value) == name
    ensures r.None? ==> forall t: MembershipType :: MembershipName(t) != name
  {
    if name == "Regular" then Some(Regular)
    else if name == "Premium" then Some(Premium)
    else if name == "Student" then Some(Student)
    else None
  }

  /** A stored member; `booksIssued` is the count of books currently on loan. */
  datatype Member = Member(
    id: Id,
    name: string,
    email: string,
    phone: string,
    membershipType: MembershipType,
    booksIssued: nat,
    joinDate: Millis,
    address: Option<string>,
    dateOfBirth: Option<Millis>,
    createdAt: Millis)

  /** The fields a request supplies for a member; any of them may be missing. */
  datatype MemberFields = MemberFields(
    name: Option<string>,
    email: Option<string>,
    phone: Option<string>,
    membershipType: Option<string>,
    booksIssued: Option<int>,
    joinDate: Option<Millis>,
    address: Option<string>,
    dateOfBirth: Option<Millis>)

  function MemberId(m: Member): Id { m.id }
  function MemberEmail(m: Member): string { m.email }

  /** The `trim` and `lowercase` setters of the e-mail field, in that order. */
  function NormaliseEmail(s: string): string
  {
    Lower(Trim(s))
  }

  /** A normalised address is trimmed and lower-case, and normalising it again changes nothing. */
  lemma NormaliseEmailIdempotent(s: string)
    ensures IsTrimmed(NormaliseEmail(s))
    ensures Lower(NormaliseEmail(s)) == NormaliseEmail(s)
    ensures NormaliseEmail(NormaliseEmail(s)) == NormaliseEmail(s)
  {
    TrimIsTrimmed(s);
    LowerKeepsTrimmed(Trim(s));
    TrimmedIsFixed(NormaliseEmail(s));
    LowerIdempotent(Trim(s));
  }

  /** The record invariants the schema guarantees for every stored member. */
  predicate WellFormed(m: Member)
  {
    && m.name != "" && IsTrimmed(m.name)
    && m.email != "" && IsTrimmed(m.email) && Lower(m.email) == m.email
    && m.phone != "" && IsTrimmed(m.phone)
    && TrimmedOption(m.address)
  }

  /** A membership field passes when it is absent (the default applies) or names an enumeration value. */
  predicate MembershipAccepted(v: Option<string>)
  {
    v.None? || ParseMembership(v.value).Some?
  }

  /** A loan count passes when it is absent (the default 0 applies) or not negative. */
  predicate LoansAccepted(v: Option<int>)
  {
    v.None? || v.value >= 0
  }

  /** The checks that fail, in schema order, each with the schema's message. */
  function Failures(f: MemberFields): (r: seq<FieldError>)
    ensures r == [] <==> (&& Present(f.name) && f.email.Some? && NormaliseEmail(f.email.value) != ""
                          && Present(f.phone) && MembershipAccepted(f.membershipType)
                          && LoansAccepted(f.booksIssued))
  {
    Check(Present(f.name), FieldError("name", "Member name is required"))
    + Check(f.email.Some? && NormaliseEmail(f.email.value) != "", FieldError("email", "Email is required"))
    + Check(Present(f.phone), FieldError("phone", "Phone number is required"))
    + Check(MembershipAccepted(f.membershipType),
            FieldError("membershipType",
                       "`" + (if f.membershipType.Some? then f.membershipType.value else "")
                       + "` is not a valid enum value for path `membershipType`."))
    + Check(LoansAccepted(f.booksIssued), FieldError("booksIssued", "Books issued cannot be negative"))
  }

  /** Building and validating a new member document: strings are trimmed, the e-mail is also
      lower-cased, tier and loan count and join date take their defaults, and a missing required
      field, an unknown tier or a negative loan count is a `ValidationError`. */
  function Validate(f: MemberFields, id: Id, now: Millis): (r: Result<Member, ErrorValue>)
    ensures r.Ok? <==> (&& Present(f.name) && f.email.Some? && NormaliseEmail(f.email.value) != ""
                        && Present(f.phone) && MembershipAccepted(f.membershipType)
                        && LoansAccepted(f.booksIssued))
    ensures r.Err? ==> r.error.Thrown? && r.error.name == "ValidationError"
    ensures r.Ok? ==> WellFormed(r.value)
    ensures r.Ok? ==> (&& r.value.id == id && r.value.createdAt == now
                       && r.value.name == Trim(f.name.value) && r.value.email == NormaliseEmail(f.email.value)
                       && r.value.phone == Trim(f.phone.value) && r.value.address == TrimOption(f.address)
                       && r.value.dateOfBirth == f.dateOfBirth)
    ensures r.Ok? ==> (r.value.membershipType ==
                       if f.membershipType.None? then Regular else ParseMembership(f.membershipType.value).value)
    ensures r.Ok? ==> r.value.booksIssued == if f.booksIssued.None? then 0 else f.booksIssued.value
    ensures r.Ok? ==> r.value.joinDate == if f.joinDate.None? then now else f.joinDate.value
  {
    var failures := Failures(f);
    if failures != [] then Err(ValidationError("Member", failures))
    else
      TrimIsTrimmed(f.name.value);
      NormaliseEmailIdempotent(f.email.value);
      TrimIsTrimmed(f.phone.value);
      TrimOptionTrimmed(f.address);
      Ok(Member(id, Trim(f.name.value), NormaliseEmail(f.email.value), Trim(f.phone.value),
                if f.membershipType.None? then Regular else ParseMembership(f.membershipType.value).value,
                if f.booksIssued.None? then 0 else f.booksIssued.value,
                if f.joinDate.None? then now else f.joinDate.value,
                TrimOption(f.address), f.dateOfBirth, now))
  }

  /** The fields of a stored member, as they would be sent back to be saved again. */
  function FieldsOf(m: Member): MemberFields
  {
    MemberFields(Some(m.name), Some(m.email), Some(m.phone), Some(MembershipName(m.membershipType)),
                 Some(m.booksIssued), Some(m.joinDate), m.address, m.dateOfBirth)
  }

  /** Saving a stored member's own fields again gives the same member: the stored strings are
      already normalised and the stored tier and count are accepted. */
  lemma RevalidateStored(m: Member)
    requires WellFormed(m)
    ensures Validate(FieldsOf(m), m.id, m.createdAt) == Ok(m)
  {
    TrimmedIsFixed(m.name);
    TrimmedIsFixed(m.email);
    TrimmedIsFixed(m.phone);
    TrimmedOptionIsFixed(m.address);
    assert ParseMembership(MembershipName(m.membershipType)) == Some(m.membershipType) by {
      match m.membershipType
      case Regular =>
      case Premium =>
      case Student =>
    }
  }

  /** The members collection as stored: unique ids, unique e-mail addresses, well-formed records. */
  predicate ValidMembers(members: seq<Member>)
  {
    && UniqueBy(members, MemberId)
    && UniqueBy(members, MemberEmail)
    && forall i :: 0 <= i < |members| ==> WellFormed(members[i])
  }

  /** `Member.findById(id)`: the position of the member with that id. */
  function FindMember(members: seq<Member>, id: Id): (r: Option<nat>)
    ensures r.Some? ==> r.value < |members| && members[r.value].id == id
    ensures r.None? <==> forall i :: 0 <= i < |members| ==> members[i].id != id
  {
    FindFirst((m: Member) => m.id == id, members)
  }

  /** The position of the member holding an e-mail address. */
  function FindEmail(members: seq<Member>, email: string): (r: Option<nat>)
    ensures r.Some? ==> r.value < |members| && members[r.value].email == email
    ensures r.None? <==> forall i :: 0 <= i < |members| ==> members[i].email != email
  {
    FindFirst((m: Member) => m.email == email, members)
  }

  /** `new Member(fields).save()`: validation first, then the unique indexes on `_id` and `email`;
      a successful save appends the member, a failed one leaves the collection as it was. */
  function Insert(members: seq<Member>, f: MemberFields, id: Id, now: Millis): (r: Result<seq<Member>, ErrorValue>)
    ensures r.Ok? <==> (&& Validate(f, id, now).Ok? && FindMember(members, id).None?
                        && FindEmail(members, Validate(f, id, now).value.email).None?)
    ensures r.Ok? ==> r.value == members + [Validate(f, id, now).value]
    ensures Validate(f, id, now).Ok? && r.Err? ==> r.error.Thrown? && r.error.code == Some(DuplicateKeyCode)
    ensures ValidMembers(members) && r.Ok? ==> ValidMembers(r.value)
  {
    match Validate(f, id, now)
    case Err(e) => Err(e)
    case Ok(m) =>
      if FindMember(members, id).Some? then Err(DuplicateKeyError("_id_"))
      else if FindEmail(members, m.email).Some? then Err(DuplicateKeyError("email_1"))
      else
        AppendKeepsMembers(members, m);
        Ok(members + [m])
  }

  /** Appending a well-formed member whose id and e-mail are new keeps the collection valid. */
  lemma AppendKeepsMembers(members: seq<Member>, m: Member)
    requires WellFormed(m)
    requires forall i :: 0 <= i < |members| ==> members[i].id != m.id && members[i].email != m.email
    ensures ValidMembers(members) ==> ValidMembers(members + [m])
  {
    var r := members + [m];
    assert forall i :: 0 <= i < |members| ==> r[i] == members[i];
  }

  /** Two addresses differing only in case or surrounding space are the same address once stored,
      so the unique index rejects the second. */
  lemma EmailCaseIsIgnored(members: seq<Member>, f: MemberFields, g: MemberFields, id1: Id, id2: Id, now: Millis)
    requires Insert(members, f, id1, now).Ok?
    requires g.email.Some? && f.email.Some? && NormaliseEmail(g.email.value) == NormaliseEmail(f.email.value)
    requires id2 != id1
    ensures Insert(Insert(members, f, id1, now).value, g, id2, now).Err?
  {
    var ms := Insert(members, f, id1, now).value;
    var m := Validate(f, id1, now).value;
    assert ms[|members|] == m;
    if Validate(g, id2, now).Ok? {
      assert FindEmail(ms, Validate(g, id2, now).value.email).Some?;
    }
  }

  /** Changing one member's loan count keeps the collection valid: ids, addresses and the checked fields stay as they are. */
  lemma SetLoansKeepsMembers(members: seq<Member>, j: nat, n: nat)
    requires j < |members|
    ensures ValidMembers(members) ==> ValidMembers(members[j := members[j].(booksIssued := n)])
  {
    var r := members[j := members[j].(booksIssued := n)];
    assert forall i :: 0 <= i < |members| ==> MemberId(r[i]) == MemberId(members[i]) && MemberEmail(r[i]) == MemberEmail(members[i]);
  }
}
