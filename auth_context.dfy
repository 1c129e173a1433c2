/**
 * The client's authentication state (frontend/src/contexts/AuthContext.jsx):
 * the reducer, and the provider whose bootstrap, login, register and logout
 * write browser storage and dispatch actions. The API's answers and JSON
 * parsing and rendering are parameters.
 */
module AuthContext {
  import opened Wrappers
  import opened Text

  /** The user object the API returns and the client stores. */
  datatype ClientUser = ClientUser(id: int, name: string, email: string, role: string)

  datatype AuthState = AuthState(
    user: Option<ClientUser>, token: Option<string>,
    isAuthenticated: bool, isLoading: bool, error: Option<string>)

  const InitialState := AuthState(None, None, false, true, None)

  /** `{ type, payload }`; `Other` is any type the reducer does not know. */
  datatype Action =
    | AuthStart
    | AuthSuccess(user: Option<ClientUser>, token: string)
    | AuthFailure(payload: Option<string>)
    | Logout
    | ClearError
    | Other(tag: string)

  /** `authReducer`. */
  function Reduce(s: AuthState, a: Action): AuthState {
    match a
    case AuthStart => s.(isLoading := true, error := None)
    case AuthSuccess(u, t) => s.(user := u, token := Some(t), isAuthenticated := true, isLoading := false, error := None)
    case AuthFailure(p) => s.(user := None, token := None, isAuthenticated := false, isLoading := false, error := p)
    case Logout => s.(user := None, token := None, isAuthenticated := false, isLoading := false, error := None)
    case ClearError => s.(error := None)
    case Other(_) => s
  }

  /**
   * What each action does and leaves: AUTH_START and CLEAR_ERROR keep the
   * session, AUTH_FAILURE and LOGOUT differ only in the error they leave,
   * CLEAR_ERROR changes only the error, an unknown action nothing.
   */
  lemma ReduceActions(s: AuthState, a: Action)
    ensures a.AuthStart? ==>
      var r := Reduce(s, a);
      r.isLoading && r.error.None? && r.user == s.user && r.token == s.token && r.isAuthenticated == s.isAuthenticated
    ensures a.AuthSuccess? ==>
      var r := Reduce(s, a);
      r.user == a.user && r.token == Some(a.token) && r.isAuthenticated && !r.isLoading && r.error.None?
    ensures a.AuthFailure? ==>
      Reduce(s, a) == Reduce(s, Logout).(error := a.payload) && Reduce(s, a).user.None? && Reduce(s, a).token.None?
    ensures a.ClearError? ==> Reduce(s, a) == s.(error := None) && Reduce(s, a).(error := s.error) == s
    ensures a.Other? ==> Reduce(s, a) == s
  {
  }

  /** The actions that decide whether the client is signed in. */
  predicate Decisive(a: Action) {
    a.AuthSuccess? || a.AuthFailure? || a.Logout?
  }

  /** Dispatch the actions in order. */
  function Run(s: AuthState, actions: seq<Action>): AuthState
    decreases |actions|
  {
    if actions == [] then s else Run(Reduce(s, actions[0]), actions[1..])
  }

  /**
   * `isAuthenticated` is true exactly when the last decisive action was
   * AUTH_SUCCESS, or there was none and it was true before.
   */
  lemma {:induction false} AuthenticatedIffLastSuccess(s: AuthState, actions: seq<Action>)
    ensures Run(s, actions).isAuthenticated <==>
      if exists i :: 0 <= i < |actions| && Decisive(actions[i]) then
        exists i :: 0 <= i < |actions| && actions[i].AuthSuccess?
                    && forall j :: i < j < |actions| ==> !Decisive(actions[j])
      else s.isAuthenticated
    decreases |actions|
  {
    if actions != [] {
      var rest := actions[1..];
      AuthenticatedIffLastSuccess(Reduce(s, actions[0]), rest);
      assert forall i :: 1 <= i < |actions| ==> actions[i] == rest[i - 1];
      if exists i :: 0 <= i < |rest| && Decisive(rest[i]) {
        var k :| 0 <= k < |rest| && Decisive(rest[k]);
        assert Decisive(actions[k + 1]);
        if Run(s, actions).isAuthenticated {
          var i :| 0 <= i < |rest| && rest[i].AuthSuccess? && forall j :: i < j < |rest| ==> !Decisive(rest[j]);
          assert actions[i + 1].AuthSuccess?;
          assert forall j :: i + 1 < j < |actions| ==> !Decisive(actions[j]) by {
            forall j | i + 1 < j < |actions| ensures !Decisive(actions[j]) {
              assert actions[j] == rest[j - 1];
            }
          }
        } else {
          forall i | 0 <= i < |actions| && actions[i].AuthSuccess?
            ensures exists j :: i < j < |actions| && Decisive(actions[j])
          {
            if i == 0 {
              assert Decisive(actions[k + 1]);
            } else {
              assert rest[i - 1].AuthSuccess?;
              var j :| i - 1 < j < |rest| && Decisive(rest[j]);
              assert Decisive(actions[j + 1]);
            }
          }
        }
      } else {
        forall j | 1 <= j < |actions| ensures !Decisive(actions[j]) {
          assert !Decisive(rest[j - 1]);
        }
        if Decisive(actions[0]) {
          if actions[0].AuthSuccess? {
            assert forall j :: 0 < j < |actions| ==> !Decisive(actions[j]);
          }
        }
      }
    }
  }

  /** Signed out means no user and no token; signed in means a token. */
  predicate Consistent(s: AuthState) {
    (s.isAuthenticated <==> s.token.Some?) && (!s.isAuthenticated ==> s.user.None?)
  }

  /** The initial state is consistent and every action keeps a state consistent. */
  lemma {:induction false} RunKeepsConsistent(s: AuthState, actions: seq<Action>)
    requires Consistent(s)
    ensures Consistent(Run(s, actions))
    decreases |actions|
  {
    if actions != [] {
      RunKeepsConsistent(Reduce(s, actions[0]), actions[1..]);
    }
  }

  /** `isAdmin()`: the user's role is `ADMIN`. */
  predicate IsAdmin(s: AuthState) {
    s.user.Some? && s.user.value.role == "ADMIN"
  }

  /** In a consistent state only a signed-in client can be an administrator. */
  lemma AdminIsAuthenticated(s: AuthState)
    requires Consistent(s)
    ensures IsAdmin(s) ==> s.isAuthenticated
    ensures !s.isAuthenticated ==> !IsAdmin(s)
  {
  }

  /** One step of the provider: a storage write or removal, or a dispatch. */
  datatype Effect = SetItem(key: string, value: string) | RemoveItem(key: string) | Dispatch(action: Action)

  /** `JSON.parse` of the stored user: a syntax error, or a value (`null` is `None`). */
  datatype Parsed = Malformed | Value(user: Option<ClientUser>)

  /** The API's answer: the user and token, or an error with the server's message (empty if none). */
  datatype ApiResult = Ok(user: Option<ClientUser>, token: string) | Err(message: string)

  /** `{ success, error }`. */
  datatype Outcome = Outcome(success: bool, error: Option<string>)

  class AuthProvider {
    var state: AuthState
    var storage: map<string, string>
    var effects: seq<Effect>

    constructor (saved: map<string, string>)
      ensures state == InitialState && storage == saved && effects == []
    {
      state := InitialState;
      storage := saved;
      effects := [];
    }

    method Apply(a: Action)
      modifies this
      ensures state == Reduce(old(state), a) && storage == old(storage)
      ensures effects == old(effects) + [Dispatch(a)]
    {
      state := Reduce(state, a);
      effects := effects + [Dispatch(a)];
    }

    method Set(key: string, value: string)
      modifies this
      ensures storage == old(storage)[key := value] && state == old(state)
      ensures effects == old(effects) + [SetItem(key, value)]
    {
      storage := storage[key := value];
      effects := effects + [SetItem(key, value)];
    }

    method Remove(key: string)
      modifies this
      ensures storage == old(storage) - {key} && state == old(state)
      ensures effects == old(effects) + [RemoveItem(key)]
    {
      storage := storage - {key};
      effects := effects + [RemoveItem(key)];
    }

    /**
     * The mount effect: a stored token and user (both non-empty) that parse
     * sign the client in; a user that does not parse clears both keys and
     * fails with "Invalid token"; otherwise it fails with no message.
     */
    method Bootstrap(parse: string -> Parsed)
      modifies this
      ensures var hasBoth := "token" in old(storage) && old(storage)["token"] != []
                             && "user" in old(storage) && old(storage)["user"] != [];
        && (hasBoth && parse(old(storage)["user"]).Value? ==>
              var a := AuthSuccess(parse(old(storage)["user"]).user, old(storage)["token"]);
              state == Reduce(old(state), a) && storage == old(storage) && effects == old(effects) + [Dispatch(a)])
        && (hasBoth && parse(old(storage)["user"]).Malformed? ==>
              && state == Reduce(old(state), AuthFailure(Some("Invalid token")))
              && storage == old(storage) - {"token"} - {"user"}
              && effects == old(effects) + [RemoveItem("token"), RemoveItem("user"), Dispatch(AuthFailure(Some("Invalid token")))])
        && (!hasBoth ==>
              state == Reduce(old(state), AuthFailure(None)) && storage == old(storage)
              && effects == old(effects) + [Dispatch(AuthFailure(None))])
    {
      var token := if "token" in storage then storage["token"] else "";
      var user := if "user" in storage then storage["user"] else "";
      if token != [] && user != [] {
        match parse(user)
        case Value(u) =>
          Apply(AuthSuccess(u, token));
        case Malformed =>
          Remove("token");
          Remove("user");
          Apply(AuthFailure(Some("Invalid token")));
      } else {
        Apply(AuthFailure(None));
      }
    }

    /**
     * `login` and `register`: AUTH_START, then on success the token and the
     * rendered user are stored before AUTH_SUCCESS; on failure storage is
     * untouched and AUTH_FAILURE carries the server's message or the default.
     */
    method SignIn(answer: ApiResult, stringify: Option<ClientUser> -> string, fallback: string)
      returns (outcome: Outcome)
      modifies this
      ensures answer.Ok? ==>
        && outcome == Outcome(true, None)
        && storage == old(storage)["token" := answer.token]["user" := stringify(answer.user)]
        && state == Reduce(Reduce(old(state), AuthStart), AuthSuccess(answer.user, answer.token))
        && effects == old(effects) + [Dispatch(AuthStart), SetItem("token", answer.token),
                                      SetItem("user", stringify(answer.user)),
                                      Dispatch(AuthSuccess(answer.user, answer.token))]
      ensures answer.Err? ==>
        var m := OrElse(answer.message, fallback);
        && outcome == Outcome(false, Some(m))
        && storage == old(storage)
        && state == Reduce(Reduce(old(state), AuthStart), AuthFailure(Some(m)))
        && effects == old(effects) + [Dispatch(AuthStart), Dispatch(AuthFailure(Some(m)))]
    {
      Apply(AuthStart);
      match answer
      case Ok(u, t) =>
        Set("token", t);
        Set("user", stringify(u));
        Apply(AuthSuccess(u, t));
        outcome := Outcome(true, None);
      case Err(message) =>
        var m := OrElse(message, fallback);
        Apply(AuthFailure(Some(m)));
        outcome := Outcome(false, Some(m));
    }

    method Login(answer: ApiResult, stringify: Option<ClientUser> -> string) returns (outcome: Outcome)
      modifies this
      ensures answer.Err? ==> outcome == Outcome(false, Some(OrElse(answer.message, "Login failed")))
      ensures answer.Ok? ==> outcome.success && state.isAuthenticated && state.token == Some(answer.token)
      ensures answer.Err? ==> storage == old(storage) && !state.isAuthenticated
    {
      outcome := SignIn(answer, stringify, "Login failed");
    }

    method Register(answer: ApiResult, stringify: Option<ClientUser> -> string) returns (outcome: Outcome)
      modifies this
      ensures answer.Err? ==> outcome == Outcome(false, Some(OrElse(answer.message, "Registration failed")))
      ensures answer.Ok? ==> outcome.success && state.isAuthenticated && state.token == Some(answer.token)
      ensures answer.Err? ==> storage == old(storage) && !state.isAuthenticated
    {
      outcome := SignIn(answer, stringify, "Registration failed");
    }

    /** `logout`: both keys removed, then LOGOUT. */
    method SignOut()
      modifies this
      ensures storage == old(storage) - {"token"} - {"user"}
      ensures state == Reduce(old(state), Logout)
      ensures effects == old(effects) + [RemoveItem("token"), RemoveItem("user"), Dispatch(Logout)]
    {
      Remove("token");
      Remove("user");
      Apply(Logout);
    }

    method ClearErrorAction()
      modifies this
      ensures state == old(state).(error := None) && storage == old(storage)
      ensures effects == old(effects) + [Dispatch(ClearError)]
    {
      Apply(ClearError);
    }
  }
}
