/** `AdminSidebar`: the navigation entries, with the admin-only ones hidden from staff. */
module AdminSidebar {
  import opened Wrappers
  import opened Seqs
  import opened Store
  import opened UserRole
  import opened AdminLayout

  datatype NavItem = NavItem(name: string, href: string, exactMatch: bool, adminOnly: bool)

  /** `navigation`, in order. */
  const Navigation: seq<NavItem> := [
    NavItem("Dashboard", "/admin", true, false),
    NavItem("Menu Management", "/admin/menu", false, false),
    NavItem("Reservations", "/admin/reservations", false, false),
    NavItem("Specials", "/admin/specials", false, false),
    NavItem("Gallery", "/admin/gallery", false, false),
    NavItem("Settings", "/admin/settings", false, true)
  ]

  /** `filteredNavigation`: an entry stays when it is not admin-only or the viewer is admin. */
  function VisibleItems(nav: seq<NavItem>, isAdmin: bool): (r: seq<NavItem>)
    ensures IsSubsequence(r, nav)
    ensures forall i :: 0 <= i < |nav| && !nav[i].adminOnly ==> nav[i] in r
    ensures forall i :: 0 <= i < |r| ==> isAdmin || !r[i].adminOnly
    ensures isAdmin ==> r == nav
  {
    Filter(nav, (item: NavItem) => !item.adminOnly || isAdmin)
  }

  /** When only the last entry is admin-only, a non-admin sees every entry but the last. */
  lemma HidesOnlyLast(nav: seq<NavItem>)
    requires |nav| > 0 && nav[|nav| - 1].adminOnly
    requires forall i :: 0 <= i < |nav| - 1 ==> !nav[i].adminOnly
    ensures VisibleItems(nav, false) == nav[..|nav| - 1]
  {
    var n := |nav| - 1;
    var p := (item: NavItem) => !item.adminOnly || false;
    assert nav == nav[..n] + [nav[n]];
    FilterAppend(nav[..n], [nav[n]], p);
    assert Filter([nav[n]], p) == [];
  }

  /** An admin sees all six entries. */
  lemma AdminSeesAll()
    ensures VisibleItems(Navigation, true) == Navigation && |Navigation| == 6
  {
  }

  /** Anyone else sees the first five, everything but Settings, which is the only admin-only
      entry. */
  lemma OthersSeeAllButSettings()
    ensures VisibleItems(Navigation, false) == Navigation[..5]
    ensures Navigation[5].name == "Settings"
    ensures forall i :: 0 <= i < |Navigation| ==> (Navigation[i].adminOnly <==> i == 5)
  {
    HidesOnlyLast(Navigation);
  }

  /** The sidebar calls `useUserRole()` itself and is mounted only once the layout's gate has
      opened, so its `isAdmin` comes from a fresh hook instance that starts with no role.  An
      admin therefore sees the five entries without Settings on the first render, and, with
      the hook as written, still after the mount effect.  With the corrected hook the whole
      list shows exactly when the instance's latest event is a query that returned admin. */
  lemma SidebarFollowsOwnHook(u: Id, events: seq<Event>)
    ensures VisibleItems(Navigation, IsAdmin(Initial.role)) == Navigation[..5]
    ensures VisibleItems(Navigation, IsAdmin(RunAsWritten([UserChanged(Some(u))]).role)) == Navigation[..5]
    ensures VisibleItems(Navigation, IsAdmin(Run(events).role)) == Navigation <==>
              |events| > 0 && events[|events| - 1] == QuerySettled(RoleRow(Schema.Admin))
  {
    OthersSeeAllButSettings();
    AdminSeesAll();
    PageDeniesUntilOwnQuerySettles(u, events, false);
  }
}
