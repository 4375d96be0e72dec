/**
 * The `/_protected` route's layout: every gated page (the tweet list and the
 * tweet detail) renders inside it, and it decides from the session hook's
 * state whether to wait, send the visitor away, or show the nested page.
 */
module ProtectedLayout {
  import opened Wrappers

  datatype User = User(id: string, name: string)

  /** The session object; `user` is absent when nobody is signed in. */
  datatype Session = Session(user: Option<User>)

  datatype GateOutcome = Spinner | Redirect(to: string) | Outlet

  /** The public route the gate sends signed-out visitors to. */
  const RedirectTarget := "/"

  /** `session?.user` is truthy. */
  predicate HasUser(session: Option<Session>) {
    session.Some? && session.value.user.Some?
  }

  /**
   * `Layout`: pending wins over everything; otherwise an absent session or
   * user redirects to `"/"`, and only a present user reaches the nested page.
   */
  function Layout(isPending: bool, session: Option<Session>): (r: GateOutcome)
    ensures r == Spinner <==> isPending
    ensures r.Redirect? <==> !isPending && !HasUser(session)
    ensures r.Redirect? ==> r.to == RedirectTarget
    ensures r == Outlet <==> !isPending && HasUser(session)
  {
    if isPending then Spinner
    else if !HasUser(session) then Redirect(RedirectTarget)
    else Outlet
  }

  /** The outcome depends on the session only through whether a user is present. */
  lemma LayoutDependsOnUserOnly(isPending: bool, s1: Option<Session>, s2: Option<Session>)
    requires HasUser(s1) == HasUser(s2)
    ensures Layout(isPending, s1) == Layout(isPending, s2)
  {
  }
}
