/**
 * The route guard (frontend/src/components/ProtectedRoute.jsx): one
 * outcome from the authentication state and the route's flags, decided by
 * a chain of early returns.
 */
module ProtectedRoute {
  import opened Wrappers
  import AuthContext

  /** What the guard renders; `Crash` is the `TypeError` of calling a function the context does not have. */
  datatype Outcome = Spinner | ToLogin | AdminDenied | ModerDenied | Children | Crash

  /**
   * What the guard reads from `useAuth()`. `admin` is the value of
   * `isAdmin()`; `isModer` is `None` when the context has no such function.
   */
  datatype Context = Context(isAuthenticated: bool, isLoading: bool, admin: bool, isModer: Option<bool>)

  datatype Props = Props(adminOnly: bool, moderOnly: bool)

  /**
   * The condition of the second denial as JavaScript parses it: `|` binds
   * tighter than `&&`, so it reads
   * `moderOnly && ((!isModer()) | adminOnly) && !isAdmin()`. `None` is the
   * `TypeError` of calling a missing `isModer`; `|` on two booleans is 0 or
   * 1, truthy when either is true.
   */
  function ModerCondition(ctx: Context, props: Props): (r: Option<bool>)
    ensures !props.moderOnly ==> r == Some(false)
    ensures props.moderOnly && ctx.isModer.None? ==> r.None?
    ensures props.moderOnly && ctx.isModer.Some? ==>
              r == Some((!ctx.isModer.value || props.adminOnly) && !ctx.admin)
  {
    if !props.moderOnly then Some(false)
    else match ctx.isModer
      case None => None
      case Some(m) => Some((!m || props.adminOnly) && !ctx.admin)
  }

  /** The guard: spinner, then the login redirect, then the two denials, then the children. */
  function Guard(ctx: Context, props: Props): Outcome {
    if ctx.isLoading then Spinner
    else if !ctx.isAuthenticated then ToLogin
    else if props.adminOnly && !ctx.admin then AdminDenied
    else match ModerCondition(ctx, props)
      case None => Crash
      case Some(deny) => if deny then ModerDenied else Children
  }

  /** While loading, the spinner shows whatever the other inputs are. */
  lemma LoadingShowsSpinner(ctx: Context, props: Props)
    requires ctx.isLoading
    ensures Guard(ctx, props) == Spinner
  {
  }

  /** Not loading and not signed in: the redirect to `/login`, whatever the flags. */
  lemma SignedOutGoesToLogin(ctx: Context, props: Props)
    requires !ctx.isLoading && !ctx.isAuthenticated
    ensures Guard(ctx, props) == ToLogin
  {
  }

  /** A signed-in non-administrator is refused an administrators' route. */
  lemma NonAdminDenied(ctx: Context, props: Props)
    requires !ctx.isLoading && ctx.isAuthenticated && props.adminOnly && !ctx.admin
    ensures Guard(ctx, props) == AdminDenied
  {
  }

  /** The condition is evaluated when no earlier check returned. */
  predicate ReachesModerCheck(ctx: Context, props: Props) {
    !ctx.isLoading && ctx.isAuthenticated && !(props.adminOnly && !ctx.admin)
  }

  /**
   * When the second check is reached its `adminOnly && !isAdmin()` part is
   * false, so the condition is the same with that part dropped.
   */
  lemma AdminPartDeadWhenReached(ctx: Context, props: Props)
    requires ReachesModerCheck(ctx, props)
    ensures !(props.adminOnly && !ctx.admin)
    ensures props.moderOnly && ctx.isModer.Some? ==>
              ModerCondition(ctx, props) == Some(!ctx.isModer.value && !ctx.admin)
  {
  }

  /**
   * The children render exactly when signed in, not loading, an
   * administrator if the route demands one, and, on a moderators' route,
   * a moderator or an administrator (the parse lets administrators through).
   */
  lemma ChildrenIff(ctx: Context, props: Props)
    ensures Guard(ctx, props) == Children <==>
      && !ctx.isLoading && ctx.isAuthenticated
      && (props.adminOnly ==> ctx.admin)
      && (props.moderOnly ==> ctx.isModer.Some? && (ctx.isModer.value || ctx.admin))
  {
  }

  /** The context the provider hands out: its state, `isAdmin()`, and no `isModer`. */
  function FromState(s: AuthContext.AuthState): (r: Context)
    ensures r.isModer.None? && (r.admin <==> AuthContext.IsAdmin(s))
    ensures r.isAuthenticated == s.isAuthenticated && r.isLoading == s.isLoading
  {
    Context(s.isAuthenticated, s.isLoading, AuthContext.IsAdmin(s), None)
  }

  /**
   * Under the provider, a moderators' route throws for every signed-in
   * visitor who passes the administrator check, and renders its children
   * for nobody.
   */
  lemma ModerRouteUnderProvider(s: AuthContext.AuthState, props: Props)
    requires props.moderOnly
    ensures ReachesModerCheck(FromState(s), props) ==> Guard(FromState(s), props) == Crash
    ensures Guard(FromState(s), props) != Children
  {
  }

  /** Under the provider, whoever an administrators' route lets through is a signed-in administrator. */
  lemma AdminRouteUnderProvider(s: AuthContext.AuthState, props: Props)
    requires AuthContext.Consistent(s) && props.adminOnly
    ensures Guard(FromState(s), props) == Children ==> AuthContext.IsAdmin(s) && s.isAuthenticated && s.token.Some?
  {
  }
}
