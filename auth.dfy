/** Access control: `protect` admits a request that carries a bearer token naming an existing
    user, and `authorize` admits a user whose role is in a route's list. Verifying the token's
    signature is done outside this model: it is the `verify` parameter, which maps a token to the
    user id it names, or to nothing when the token does not verify. */
module Auth {
  import opened Wrappers
  import opened Documents
  import opened Text
  import opened Errors
  import opened Sequences

  /** A registered user, without the password. */
  datatype User = User(id: Id, name: string, email: string, role: string)

  const NotAuthorized := "Not authorized to access this route"
  const Scheme := "Bearer "

  /** `User.findById(id)`. */
  function FindUser(users: seq<User>, id: Id): (r: Option<User>)
    ensures r.Some? ==> r.value.id == id && r.value in users
    ensures r.None? <==> forall i :: 0 <= i < |users| ==> users[i].id != id
  {
    match FindFirst((u: User) => u.id == id, users)
    case None => None
    case Some(i) => Some(users[i])
  }

  /** `authHeader.split(' ')[1]`: the second space-separated segment of a header that has the
      bearer prefix. */
  function Token(header: string): (t: string)
    requires Scheme <= header
    ensures ' ' !in t
  {
    assert header == Scheme + header[|Scheme|..];
    TokenOfBearer(header[|Scheme|..]);
    Split(header, ' ')[1]
  }

  /** A header with the bearer prefix splits into `Bearer` followed by the segments of what follows it. */
  lemma TokenOfBearer(rest: string)
    ensures Split(Scheme + rest, ' ') == ["Bearer"] + Split(rest, ' ')
  {
    SplitConcat("Bearer", rest, ' ');
    assert "Bearer" + [' '] + rest == Scheme + rest;
    assert Split("Bearer", ' ') == ["Bearer"] by {
      SplitNoSeparator("Bearer", ' ');
    }
  }

  /** The token of `Bearer <t>` is `t` when `t` has no space, and otherwise the part of `t` before its first space. */
  lemma TokenRoundTrip(t: string)
    ensures Token(Scheme + t) == Split(t, ' ')[0]
    ensures ' ' !in t ==> Token(Scheme + t) == t
  {
    assert (Scheme + t)[|Scheme|..] == t;
    TokenOfBearer(t);
    if ' ' !in t {
      SplitNoSeparator(t, ' ');
    }
  }

  /** `protect`: a missing header, one without the bearer prefix, a token that does not verify and
      a user that no longer exists are all answered by the same 401; otherwise the request goes on
      as the user the token names. */
  function Protect(header: Option<string>, verify: string -> Option<Id>, users: seq<User>): (r: Result<User, ErrorValue>)
    ensures r.Err? ==> r.error == AppError(NotAuthorized, 401)
    ensures (header.None? || !(Scheme <= header.value)) ==> r.Err?
    ensures (r.Ok? <==> && header.Some? && Scheme <= header.value
                        && verify(Token(header.value)).Some?
                        && FindUser(users, verify(Token(header.value)).value).Some?)
    ensures r.Ok? ==> r.value.id == verify(Token(header.value)).value && r.value in users
  {
    if header.None? || !(Scheme <= header.value) then Err(AppError(NotAuthorized, 401))
    else match verify(Token(header.value))
      case None => Err(AppError(NotAuthorized, 401))
      case Some(userId) =>
        match FindUser(users, userId)
        case None => Err(AppError(NotAuthorized, 401))
        case Some(u) => Ok(u)
  }

  /** `authorize(...roles)`: nothing to report (`next()`) for a user whose role is listed, a 401
      without a user, and a 403 naming the role otherwise. */
  function Authorize(roles: seq<string>, user: Option<User>): (r: Option<ErrorValue>)
    ensures r.None? <==> user.Some? && user.value.role in roles
    ensures user.None? ==> r == Some(AppError(NotAuthorized, 401))
    ensures (user.Some? && user.value.role !in roles ==>
               r == Some(AppError("User role " + user.value.role + " is not authorized to access this route", 403)))
  {
    if user.None? then Some(AppError(NotAuthorized, 401))
    else if user.value.role !in roles then
      Some(AppError("User role " + user.value.role + " is not authorized to access this route", 403))
    else None
  }

  /** `protect` followed by `authorize(...roles)`, as a route mounts them. */
  function Guard(header: Option<string>, verify: string -> Option<Id>, users: seq<User>, roles: seq<string>): (r: Result<User, ErrorValue>)
    ensures r.Ok? <==> Protect(header, verify, users).Ok? && Protect(header, verify, users).value.role in roles
    ensures r.Ok? ==> r == Protect(header, verify, users)
    ensures Protect(header, verify, users).Err? ==> r == Protect(header, verify, users)
    ensures (Protect(header, verify, users).Ok? && r.Err? ==>
               r.error.AppError? && r.error.statusCode == 403)
  {
    match Protect(header, verify, users)
    case Err(e) => Err(e)
    case Ok(u) =>
      match Authorize(roles, Some(u))
      case Some(e) => Err(e)
      case None => Ok(u)
  }

  /** The `protect` test without a header: the request is refused with 401. */
  lemma ProtectRefusesMissingHeader(verify: string -> Option<Id>, users: seq<User>)
    ensures Protect(None, verify, users) == Err(AppError(NotAuthorized, 401))
  {
  }

  /** The `protect` test with a header lacking the bearer prefix: refused with 401. */
  lemma ProtectRefusesOtherScheme(verify: string -> Option<Id>, users: seq<User>)
    ensures Protect(Some("InvalidToken"), verify, users) == Err(AppError(NotAuthorized, 401))
  {
    assert !(Scheme <= "InvalidToken") by {
      assert "InvalidToken"[1] != Scheme[1];
    }
  }

  /** A bearer header whose token has no space and does not verify is refused with 401. */
  lemma ProtectRefusesUnverified(t: string, verify: string -> Option<Id>, users: seq<User>)
    requires ' ' !in t && verify(t).None?
    ensures Protect(Some(Scheme + t), verify, users) == Err(AppError(NotAuthorized, 401))
  {
    TokenRoundTrip(t);
  }

  /** The `protect` test with a token that does not verify: refused with 401. */
  lemma ProtectRefusesBadToken(verify: string -> Option<Id>, users: seq<User>)
    requires verify("invalid.token.here").None?
    ensures Protect(Some("Bearer invalid.token.here"), verify, users) == Err(AppError(NotAuthorized, 401))
  {
    SampleTokenHasNoSpace();
    SampleHeader();
    ProtectRefusesUnverified("invalid.token.here", verify, users);
  }

  lemma SampleTokenHasNoSpace()
    ensures ' ' !in "invalid.token.here"
  {
    var t := "invalid.token.here";
    assert forall i :: 0 <= i < |t| ==> t[i] != ' ';
  }

  lemma SampleHeader()
    ensures Scheme + "invalid.token.here" == "Bearer invalid.token.here"
  {
  }

  /** The `authorize` tests: an anonymous request is refused with 401, a `member` is refused a route
      for `admin` with 403, and an `admin` passes. */
  lemma AuthorizeExamples()
    ensures Authorize(["admin"], None) == Some(AppError(NotAuthorized, 401))
    ensures Authorize(["admin"], Some(User("u", "", "", "member"))).value.statusCode == 403
    ensures Authorize(["admin"], Some(User("u", "", "", "admin"))).None?
  {
    assert "member" != "admin";
  }

  /** An incoming request as the middleware sees it: its `Authorization` header, the user the
      middleware attaches, and every call made to `next` (with the error passed, if any). */
  class Request {
    var authorization: Option<string>
    var user: Option<User>
    var nextCalls: seq<Option<ErrorValue>>

    constructor (authorization: Option<string>)
      ensures this.authorization == authorization && user.None? && nextCalls == []
    {
      this.authorization := authorization;
      user := None;
      nextCalls := [];
    }

    /** `protect(req, res, next)`: attaches the user on success and calls `next` exactly once,
        with no error on success and with the 401 otherwise. */
    method RunProtect(verify: string -> Option<Id>, users: seq<User>)
      modifies this`user, this`nextCalls
      ensures (var r := Protect(authorization, verify, users);
               && user == (if r.Ok? then Some(r.value) else old(user))
               && nextCalls == old(nextCalls) + [if r.Ok? then None else Some(r.error)])
    {
      if authorization.None? || !(Scheme <= authorization.value) {
        nextCalls := nextCalls + [Some(AppError(NotAuthorized, 401))];
        return;
      }
      var token := Token(authorization.value);
      var decoded := verify(token);
      if decoded.None? {
        nextCalls := nextCalls + [Some(AppError(NotAuthorized, 401))];
        return;
      }
      var found := FindUser(users, decoded.value);
      if found.None? {
        nextCalls := nextCalls + [Some(AppError(NotAuthorized, 401))];
        return;
      }
      user := found;
      nextCalls := nextCalls + [None];
    }

    /** `authorize(...roles)(req, res, next)`: calls `next` exactly once and changes nothing else. */
    method RunAuthorize(roles: seq<string>)
      modifies this`nextCalls
      ensures nextCalls == old(nextCalls) + [Authorize(roles, user)]
    {
      if user.None? {
        nextCalls := nextCalls + [Some(AppError(NotAuthorized, 401))];
        return;
      }
      if user.value.role !in roles {
        nextCalls := nextCalls + [Some(AppError("User role " + user.value.role + " is not authorized to access this route", 403))];
        return;
      }
      nextCalls := nextCalls + [None];
    }
  }
}
