/** `AdminLayout`: the gate in front of every admin screen, and the admin-only sub-gate the
    settings and staff screens put in front of their own content. */
module AdminLayout {
  import opened Wrappers
  import opened Store
  import opened UserRole

  /** What the layout renders. */
  datatype View = Spinner | RedirectToAuth | AccessDenied | Outlet

  /** Loading first, then no user, then no admin/staff role, then the protected outlet. */
  function LayoutView(authLoading: bool, user: Option<Id>, roleLoading: bool, isAdminOrStaff: bool)
    : (v: View)
    ensures v == Spinner <==> authLoading || roleLoading
    ensures v == RedirectToAuth <==> !authLoading && !roleLoading && user.None?
    ensures v == AccessDenied <==> !authLoading && !roleLoading && user.Some? && !isAdminOrStaff
    ensures v == Outlet <==> !authLoading && !roleLoading && user.Some? && isAdminOrStaff
  {
    if authLoading || roleLoading then Spinner
    else if user.None? then RedirectToAuth
    else if !isAdminOrStaff then AccessDenied
    else Outlet
  }

  /** The layout fed by the role hook's state. */
  function Gate(authLoading: bool, user: Option<Id>, s: RoleState): View {
    LayoutView(authLoading, user, s.loading, IsAdminOrStaff(s.role))
  }

  /** With the corrected hook, the outlet opens only on a role that the latest query returned,
      and never while the query for a newly signed-in user is in flight. */
  lemma {:induction false} GateNeverGrantsUnresolved(events: seq<Event>, user: Option<Id>)
    ensures Gate(false, user, Run(events)) == Outlet ==>
              |events| > 0 && events[|events| - 1].QuerySettled?
              && events[|events| - 1].q.RoleRow?
    ensures (|events| > 0 && events[|events| - 1] == UserChanged(user) && user.Some?)
            ==> Gate(false, user, Run(events)) == Spinner
  {
    RoleComesFromLatestQuery(events);
  }

  /** As written, the layout opens the outlet for user `b` on the role resolved for user `a`
      before `b`'s role query has settled. */
  lemma GateGrantsStaleRoleAsWritten()
    ensures var events := [UserChanged(Some("a")), QuerySettled(RoleRow(Schema.Admin)), UserChanged(Some("b"))];
      && Gate(false, Some("b"), RunAsWritten(events)) == Outlet
      && Gate(false, Some("b"), Run(events)) == Spinner
  {
    StaleRoleAsWritten();
  }

  /** The settings and staff screens: an admin-only check first, then their own query's
      loading state, then the content. */
  datatype PageView = PageDenied | PageLoading | PageContent

  function AdminPageView(isAdmin: bool, isLoading: bool): (v: PageView)
    ensures v == PageDenied <==> !isAdmin
    ensures v == PageLoading <==> isAdmin && isLoading
    ensures v == PageContent <==> isAdmin && !isLoading
  {
    if !isAdmin then PageDenied else if isLoading then PageLoading else PageContent
  }

  /** The settings and staff screens call `useUserRole()` themselves, so their `isAdmin`
      comes from a fresh hook instance: null on the first render, and still null while the
      instance's query is in flight (in either version of the hook).  An admin is therefore
      shown the denial until that query settles.  With the corrected hook, the page opens
      exactly when the instance's latest event is a query that returned admin. */
  lemma PageDeniesUntilOwnQuerySettles(u: Id, events: seq<Event>, isLoading: bool)
    ensures AdminPageView(IsAdmin(Initial.role), isLoading) == PageDenied
    ensures AdminPageView(IsAdmin(RunAsWritten([UserChanged(Some(u))]).role), isLoading) == PageDenied
    ensures AdminPageView(IsAdmin(Run(events).role), isLoading) != PageDenied <==>
              |events| > 0 && events[|events| - 1] == QuerySettled(RoleRow(Schema.Admin))
  {
    assert [UserChanged(Some(u))][..0] == [];
    RoleComesFromLatestQuery(events);
    if |events| > 0 {
      assert Run(events) == Step(Run(events[..|events| - 1]), events[|events| - 1]);
    }
  }

  /** Staff pass the layout but not the admin-only pages. */
  lemma StaffStopAtAdminPages(user: Id, loading: bool)
    ensures Gate(false, Some(user), RoleState(Some(Schema.Staff), false)) == Outlet
    ensures AdminPageView(IsAdmin(Some(Schema.Staff)), loading) == PageDenied
  {
  }
}
