/** The client's route table and its two guards. `AuthProtected` wraps the private pages and
    `PublicRoute` the login and register pages; the common pages and the catch-all have no
    guard. The token is what `localStorage.getItem('token')` returns: `None` for null. */
module Routes {
  import opened Common

  /** A stored token counts as present exactly when it is a non-empty string (JavaScript
      truthiness), whatever it holds: the string "undefined" counts. */
  predicate HasToken(token: Option<string>) {
    token.Some? && token.value != ""
  }

  datatype Decision = Render | Redirect(to: string)

  /** `['/login', '/register'].includes(pathname)`. */
  predicate IsPublicPath(path: string) {
    path == "/login" || path == "/register"
  }

  /** `AuthProtected`: a token on a public path goes to `/dashboard`; no token on any other
      path but `/dashboard` goes to `/login`; everything else renders. */
  function AuthProtectedGuard(token: Option<string>, path: string): (d: Decision)
    ensures d == Redirect("/dashboard") <==> HasToken(token) && IsPublicPath(path)
    ensures d == Redirect("/login") <==> !HasToken(token) && !IsPublicPath(path) && path != "/dashboard"
    ensures d.Render? <==> (HasToken(token) && !IsPublicPath(path)) || (!HasToken(token) && (IsPublicPath(path) || path == "/dashboard"))
  {
    if HasToken(token) && IsPublicPath(path) then Redirect("/dashboard")
    else if !HasToken(token) && !IsPublicPath(path) && path != "/dashboard" then Redirect("/login")
    else Render
  }

  /** `PublicRoute`: a token goes to `/dashboard`, otherwise the page renders. */
  function PublicGuard(token: Option<string>): (d: Decision)
    ensures d == Redirect("/dashboard") <==> HasToken(token)
    ensures d == Render <==> !HasToken(token)
  {
    if HasToken(token) then Redirect("/dashboard") else Render
  }

  /** `path` is `prefix` followed by one non-empty segment (a `:param` route). */
  predicate ParamPath(path: string, prefix: string) {
    && |path| > |prefix| && path[..|prefix|] == prefix
    && forall i :: |prefix| <= i < |path| ==> path[i] != '/'
  }

  /** Which group of the route table a path falls in. */
  datatype RouteGroup = CommonRoute | PublicOnlyRoute | PrivateRoute | DefaultRoute

  predicate IsCommonPath(path: string) {
    path == "/dashboard" || ParamPath(path, "/blog/")
  }

  predicate IsPrivatePath(path: string) {
    || path == "/categories" || path == "/my-blogs" || path == "/myprofile"
    || path == "/study-material" || ParamPath(path, "/study-material/")
  }

  /** A `:param` path agrees with its prefix character by character. */
  lemma ParamPathChar(path: string, prefix: string, i: nat)
    requires ParamPath(path, prefix) && i < |prefix|
    ensures path[i] == prefix[i]
  {
    assert path[..|prefix|][i] == path[i];
  }

  /** The second character tells the groups apart, so no path belongs to two of them. */
  lemma GroupsDisjoint(path: string)
    ensures IsCommonPath(path) ==> !IsPublicPath(path) && !IsPrivatePath(path)
    ensures IsPublicPath(path) ==> !IsPrivatePath(path)
  {
    if ParamPath(path, "/blog/") {
      ParamPathChar(path, "/blog/", 1);
    }
    if ParamPath(path, "/study-material/") {
      ParamPathChar(path, "/study-material/", 1);
    }
  }

  /** The route table: common pages, the two public pages, the private pages, and the
      catch-all for everything else. */
  function GroupOf(path: string): (g: RouteGroup)
    ensures g == CommonRoute <==> IsCommonPath(path)
    ensures g == PublicOnlyRoute <==> IsPublicPath(path)
    ensures g == PrivateRoute <==> IsPrivatePath(path)
  {
    GroupsDisjoint(path);
    if IsCommonPath(path) then CommonRoute
    else if IsPublicPath(path) then PublicOnlyRoute
    else if IsPrivatePath(path) then PrivateRoute
    else DefaultRoute
  }

  /** What navigating to `path` does: the guard of its group decides, and unguarded groups
      render. */
  function Resolve(token: Option<string>, path: string): (d: Decision)
    ensures d == Render <==>
      || (IsPublicPath(path) && !HasToken(token))
      || (IsPrivatePath(path) && HasToken(token))
      || (!IsPublicPath(path) && !IsPrivatePath(path))
    ensures d.Redirect? ==> d.to == (if IsPublicPath(path) then "/dashboard" else "/login")
  {
    GroupsDisjoint(path);
    match GroupOf(path)
    case CommonRoute => Render
    case DefaultRoute => Render
    case PublicOnlyRoute => PublicGuard(token)
    case PrivateRoute => AuthProtectedGuard(token, path)
  }

  /** Only private paths reach `AuthProtected`, and none of them is public, so its redirect
      to `/dashboard` never fires: it only ever sends a visitor without a token to `/login`. */
  lemma AuthProtectedPublicBranchUnreachable(token: Option<string>, path: string)
    requires GroupOf(path) == PrivateRoute
    ensures !IsPublicPath(path)
    ensures AuthProtectedGuard(token, path) != Redirect("/dashboard")
    ensures AuthProtectedGuard(token, path) == (if HasToken(token) then Render else Redirect("/login"))
  {
  }

  /** Every redirect lands on a page that renders, so no redirect loop is possible. */
  lemma NoRedirectCycle(token: Option<string>, path: string)
    ensures Resolve(token, path).Redirect? ==> Resolve(token, Resolve(token, path).to) == Render
  {
    GroupsDisjoint("/login");
  }

  /** A private page renders exactly when a token is present. */
  lemma PrivateNeedsToken(token: Option<string>, path: string)
    requires IsPrivatePath(path)
    ensures Resolve(token, path) == Render <==> HasToken(token)
  {
    GroupsDisjoint(path);
  }

  /** The login and register pages render exactly when no token is present. */
  lemma PublicNeedsNoToken(token: Option<string>, path: string)
    requires IsPublicPath(path)
    ensures Resolve(token, path) == Render <==> !HasToken(token)
  {
    GroupsDisjoint(path);
  }

  /** The dashboard and the catch-all render with or without a token. */
  lemma DashboardAlwaysRenders(token: Option<string>, path: string)
    requires path == "/dashboard" || GroupOf(path) == DefaultRoute
    ensures Resolve(token, path) == Render
  {
  }
}
