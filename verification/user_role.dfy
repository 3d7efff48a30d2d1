/** `useUserRole`: the signed-in user's role, read from `user_roles`, and the flags derived
    from it.  The hook is a small state machine driven by two events: the signed-in user
    changes, or the role query settles. */
module UserRole {
  import opened Wrappers
  import opened Schema
  import opened Store
  import opened Seqs

  /** What `.from('user_roles').select('role').eq('user_id', id).single()` comes back with. */
  datatype RoleQuery = RoleRow(role: AppRole) | QueryError(code: string)

  /** PostgREST's code for a `.single()` query that did not match exactly one row: no rows,
      or more than one. */
  const NoRowsCode := "PGRST116"

  /** A `user_roles` row. */
  datatype UserRoleRow = UserRoleRow(userId: Id, role: AppRole)

  /** The filter `.eq('user_id', u)`. */
  function Owns(u: Id): UserRoleRow -> bool {
    (r: UserRoleRow) => r.userId == u
  }

  /** The role query against the table's rows: `.single()` yields a role only when exactly
      one row belongs to the user, and `PGRST116` when none or several do. */
  function RoleQueryOf(rows: seq<UserRoleRow>, u: Id): (q: RoleQuery)
    ensures q.RoleRow? <==> Count(rows, Owns(u)) == 1
    ensures q.RoleRow? ==> exists i :: 0 <= i < |rows| && rows[i].userId == u && rows[i].role == q.role
    ensures q.QueryError? ==> q.code == NoRowsCode
  {
    var mine := Filter(rows, Owns(u));
    if |mine| == 1 then
      assert mine[0] in rows && Owns(u)(mine[0]);
      RoleRow(mine[0].role)
    else QueryError(NoRowsCode)
  }

  /** The hook's state: the role (null when unknown or absent) and the loading flag. */
  datatype RoleState = RoleState(role: Option<AppRole>, loading: bool)

  /** `useState(null)`, `useState(true)`. */
  const Initial := RoleState(None, true)

  /** What a settled query yields: the role, and whether the error path (`catch`) was taken. */
  datatype Settled = Settled(role: Option<AppRole>, failed: bool)

  /** A role row gives its role; "no rows" gives no role without being an error; any other
      error gives no role too, through the `catch` branch. */
  function SettleQuery(q: RoleQuery): (r: Settled)
    ensures r.role.Some? <==> q.RoleRow?
    ensures q.RoleRow? ==> r.role == Some(q.role)
    ensures r.failed <==> q.QueryError? && q.code != NoRowsCode
  {
    match q
    case RoleRow(role) => Settled(Some(role), false)
    case QueryError(code) => if code == NoRowsCode then Settled(None, false) else Settled(None, true)
  }

  predicate IsAdmin(role: Option<AppRole>) { role == Some(Admin) }
  predicate IsStaff(role: Option<AppRole>) { role == Some(Staff) }
  predicate IsAdminOrStaff(role: Option<AppRole>) { IsAdmin(role) || IsStaff(role) }

  /** The flags never both hold, and "admin or staff" is the same as "has a role": the
      vocabulary has only those two. */
  lemma RoleFlags(role: Option<AppRole>)
    ensures !(IsAdmin(role) && IsStaff(role))
    ensures IsAdminOrStaff(role) <==> role.Some?
    ensures IsAdminOrStaff(role) <==> (IsAdmin(role) != IsStaff(role))
  {
    if role.Some? {
      assert role.value == Admin || role.value == Staff;
    }
  }

  datatype Event = UserChanged(user: Option<Id>) | QuerySettled(q: RoleQuery)

  /** The effect as the hook writes it.  No user: role null, loading false.  A user: the
      fetch starts and nothing is set until it settles, so the previous role and loading
      flag stay.  Settled: the role it yields, and loading false on every path (`finally`). */
  function StepAsWritten(s: RoleState, e: Event): RoleState {
    match e
    case UserChanged(None) => RoleState(None, false)
    case UserChanged(Some(_)) => s
    case QuerySettled(q) => RoleState(SettleQuery(q).role, false)
  }

  /** The effect with the role cleared and loading raised when a fetch starts, so that a
      fetch in flight always shows as loading. */
  function Step(s: RoleState, e: Event): (t: RoleState)
    ensures e.UserChanged? && e.user.Some? ==> t == RoleState(None, true)
    ensures e.UserChanged? && e.user.None? ==> t == RoleState(None, false)
    ensures e.QuerySettled? ==> !t.loading && t.role == SettleQuery(e.q).role
  {
    match e
    case UserChanged(None) => RoleState(None, false)
    case UserChanged(Some(_)) => RoleState(None, true)
    case QuerySettled(q) => RoleState(SettleQuery(q).role, false)
  }

  function RunAsWritten(events: seq<Event>): RoleState {
    if |events| == 0 then Initial
    else StepAsWritten(RunAsWritten(events[..|events| - 1]), events[|events| - 1])
  }

  function Run(events: seq<Event>): RoleState {
    if |events| == 0 then Initial
    else Step(Run(events[..|events| - 1]), events[|events| - 1])
  }

  /** Both versions agree on what a settled query and a sign-out do: loading ends on every
      path, and an error never yields a role. */
  lemma SettledPaths(s: RoleState, q: RoleQuery, code: string)
    ensures !StepAsWritten(s, QuerySettled(q)).loading && !Step(s, QuerySettled(q)).loading
    ensures StepAsWritten(s, QuerySettled(QueryError(code))).role.None?
    ensures StepAsWritten(s, UserChanged(None)) == RoleState(None, false)
    ensures StepAsWritten(s, QuerySettled(q)) == Step(s, QuerySettled(q))
  {
  }

  /** With the correction, the hook reports a role only when the latest event is a query
      that returned that role: after a user change the role is unknown and loading until the
      query for that user settles. */
  lemma {:induction false} RoleComesFromLatestQuery(events: seq<Event>)
    ensures Run(events).role.Some? ==>
              |events| > 0 && events[|events| - 1] == QuerySettled(RoleRow(Run(events).role.value))
    ensures (|events| > 0 && events[|events| - 1].UserChanged? && events[|events| - 1].user.Some?)
            ==> Run(events).loading
  {
    if |events| > 0 {
      var last := events[|events| - 1];
      assert Run(events) == Step(Run(events[..|events| - 1]), last);
    }
  }

  /** The hook as written can report a role that no query for the current user produced:
      after user `a` resolves as admin and the signed-in user becomes `b`, the state says
      admin and not loading while `b`'s query is still in flight. */
  lemma StaleRoleAsWritten()
    ensures var events := [UserChanged(Some("a")), QuerySettled(RoleRow(Admin)), UserChanged(Some("b"))];
      && RunAsWritten(events) == RoleState(Some(Admin), false)
      && Run(events) == RoleState(None, true)
  {
    var events := [UserChanged(Some("a")), QuerySettled(RoleRow(Admin)), UserChanged(Some("b"))];
    assert events[..2] == [UserChanged(Some("a")), QuerySettled(RoleRow(Admin))];
    assert events[..2][..1] == [UserChanged(Some("a"))];
    assert events[..2][..1][..0] == [];
  }
}
