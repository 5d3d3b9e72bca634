/** The client's `auth` slice: the signed-in user and the progress of a login request. The user
    payload is kept as the JSON text the login endpoint answers with; reading the stored user when
    the page loads and removing it on logout are browser storage, which is left out, so the
    initial user is a parameter. */
module AuthSlice {
  import opened Wrappers

  /** The slice's state; `message` is `None` where the source stores `undefined`. */
  datatype AuthState = AuthState(user: Option<string>, isLoading: bool, isError: bool, isSuccess: bool,
                                 message: Option<string>)

  /** The actions the slice handles. `LoginRejected` carries the thunk's payload, which is absent
      because `loginUser` does not reject with a value. */
  datatype AuthAction = Logout | LoginPending | LoginFulfilled(user: string) | LoginRejected(payload: Option<string>)

  /** The initial state, with the user found in storage if any. */
  function Initial(stored: Option<string>): (s: AuthState)
    ensures s.user == stored && !s.isLoading && !s.isError && !s.isSuccess && s.message == Some("")
  {
    AuthState(stored, false, false, false, Some(""))
  }

  /** The reducer, each case assigning only the fields the source assigns. */
  function Reduce(s: AuthState, a: AuthAction): (r: AuthState)
    ensures a.Logout? ==> r == s.(user := None)
    ensures a.LoginPending? ==> r == s.(isLoading := true)
    ensures a.LoginFulfilled? ==> r == s.(isLoading := false, user := Some(a.user), isSuccess := true)
    ensures a.LoginRejected? ==> r == s.(isLoading := false, isError := true, message := a.payload)
  {
    match a
    case Logout => s.(user := None)
    case LoginPending => s.(isLoading := true)
    case LoginFulfilled(u) => s.(isLoading := false, user := Some(u), isSuccess := true)
    case LoginRejected(p) => s.(isLoading := false, isError := true, message := p)
  }

  /** The state after a run of actions, in order. */
  function ReduceAll(s: AuthState, actions: seq<AuthAction>): AuthState
    decreases |actions|
  {
    if actions == [] then s else ReduceAll(Reduce(s, actions[0]), actions[1..])
  }

  /** A settled login (fulfilled or rejected) is never loading, whatever came before it. */
  lemma {:induction false} SettledIsNotLoading(s: AuthState, actions: seq<AuthAction>)
    requires actions != [] && (actions[|actions| - 1].LoginFulfilled? || actions[|actions| - 1].LoginRejected?)
    ensures !ReduceAll(s, actions).isLoading
    decreases |actions|
  {
    if |actions| > 1 {
      SettledIsNotLoading(Reduce(s, actions[0]), actions[1..]);
    }
  }

  /** Neither flag is ever cleared: once set, `isError` and `isSuccess` stay set through any run. */
  lemma {:induction false} FlagsStaySet(s: AuthState, actions: seq<AuthAction>)
    ensures s.isError ==> ReduceAll(s, actions).isError
    ensures s.isSuccess ==> ReduceAll(s, actions).isSuccess
    decreases |actions|
  {
    if actions != [] {
      FlagsStaySet(Reduce(s, actions[0]), actions[1..]);
    }
  }

  /** A failed login followed by a successful one leaves both `isError` and `isSuccess` set,
      and the message of the failure in place. */
  lemma RetryAfterFailure(stored: Option<string>, failure: Option<string>, user: string)
    ensures (var r := ReduceAll(Initial(stored), [LoginPending, LoginRejected(failure), LoginPending, LoginFulfilled(user)]);
             r == AuthState(Some(user), false, true, true, failure))
  {
    var s0 := Initial(stored);
    var s1 := Reduce(s0, LoginPending);
    var s2 := Reduce(s1, LoginRejected(failure));
    var s3 := Reduce(s2, LoginPending);
    assert ReduceAll(s0, [LoginPending, LoginRejected(failure), LoginPending, LoginFulfilled(user)])
        == ReduceAll(s1, [LoginRejected(failure), LoginPending, LoginFulfilled(user)]);
    assert ReduceAll(s1, [LoginRejected(failure), LoginPending, LoginFulfilled(user)])
        == ReduceAll(s2, [LoginPending, LoginFulfilled(user)]);
    assert ReduceAll(s2, [LoginPending, LoginFulfilled(user)]) == ReduceAll(s3, [LoginFulfilled(user)]);
  }

  /** The state as Immer's draft lets the reducer change it in place. */
  class AuthDraft {
    var user: Option<string>
    var isLoading: bool
    var isError: bool
    var isSuccess: bool
    var message: Option<string>

    function State(): AuthState
      reads this
    {
      AuthState(user, isLoading, isError, isSuccess, message)
    }

    /** The slice's initial state. */
    constructor (stored: Option<string>)
      ensures State() == Initial(stored)
    {
      user := stored;
      isLoading := false;
      isError := false;
      isSuccess := false;
      message := Some("");
    }

    /** `logout`: `state.user = null`. */
    method RunLogout()
      modifies this`user
      ensures State() == Reduce(old(State()), Logout)
    {
      user := None;
    }

    /** `loginUser.pending`: `state.isLoading = true`. */
    method RunPending()
      modifies this`isLoading
      ensures State() == Reduce(old(State()), LoginPending)
    {
      isLoading := true;
    }

    /** `loginUser.fulfilled`: not loading, the payload as the user, success set. */
    method RunFulfilled(payload: string)
      modifies this`isLoading, this`user, this`isSuccess
      ensures State() == Reduce(old(State()), LoginFulfilled(payload))
    {
      isLoading := false;
      user := Some(payload);
      isSuccess := true;
    }

    /** `loginUser.rejected`: not loading, error set, the payload as the message. */
    method RunRejected(payload: Option<string>)
      modifies this`isLoading, this`isError, this`message
      ensures State() == Reduce(old(State()), LoginRejected(payload))
    {
      isLoading := false;
      isError := true;
      message := payload;
    }
  }
}
