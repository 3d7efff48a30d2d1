/** The staff screen (admin only): which of promote / demote / delete a profile offers,
    given how many admins there are (the last-admin rule), the two-step role change, and the
    create-account form. */
module Staff {
  import opened Wrappers
  import opened Seqs
  import opened Store
  import opened Schema
  import opened AdminLayout
  import opened UserRole

  /** A `profiles` row. */
  datatype Profile = Profile(
    id: Id,
    userId: Id,
    email: string,
    firstName: Option<string>,
    lastName: Option<string>,
    role: AppRole,
    createdAt: Option<int>)

  predicate IsAdminProfile(p: Profile) { p.role == Admin }

  /** `profiles.filter(p => p.role === 'admin').length`. */
  function AdminCount(profiles: seq<Profile>): nat {
    Count(profiles, IsAdminProfile)
  }

  /** The controls a profile's card shows. */
  datatype Controls = Controls(promote: bool, demote: bool, delete: bool, lastAdminLabel: bool)

  /** Promote unless already admin; demote an admin only while there is another admin;
      delete while there is another admin or the profile is not an admin, and otherwise the
      "Last admin" label in its place. */
  function ControlsFor(profiles: seq<Profile>, p: Profile): (c: Controls)
    ensures c.promote <==> p.role != Admin
    ensures c.demote <==> p.role == Admin && AdminCount(profiles) > 1
    ensures c.delete <==> AdminCount(profiles) > 1 || p.role != Admin
    ensures c.lastAdminLabel <==> !c.delete
  {
    var admins := AdminCount(profiles);
    var delete := admins > 1 || p.role != Admin;
    Controls(p.role != Admin, p.role == Admin && admins > 1, delete, !delete)
  }

  /** On a listed admin, the last-admin label shows exactly when that admin is the only one;
      promote and demote are never offered together. */
  lemma LastAdminLabel(profiles: seq<Profile>, i: nat)
    requires i < |profiles| && profiles[i].role == Admin
    ensures ControlsFor(profiles, profiles[i]).lastAdminLabel <==> AdminCount(profiles) == 1
    ensures !(ControlsFor(profiles, profiles[i]).promote && ControlsFor(profiles, profiles[i]).demote)
  {
    assert profiles[i] in Filter(profiles, IsAdminProfile);
  }

  /** Every profile belongs to a different user. */
  predicate DistinctUsers(profiles: seq<Profile>) {
    forall i, j :: 0 <= i < j < |profiles| ==> profiles[i].userId != profiles[j].userId
  }

  /** `.from('profiles').update({ role }).eq('user_id', userId)`. */
  function SetRole(profiles: seq<Profile>, userId: Id, role: AppRole): (r: seq<Profile>)
    ensures |r| == |profiles|
    ensures forall i :: 0 <= i < |r| ==>
              r[i] == (if profiles[i].userId == userId then profiles[i].(role := role) else profiles[i])
  {
    if |profiles| == 0 then []
    else
      var head := if profiles[0].userId == userId then profiles[0].(role := role) else profiles[0];
      [head] + SetRole(profiles[1..], userId, role)
  }

  /** The profiles left once the account `userId` is deleted (the cascade removes its
      profile). */
  function RemoveUser(profiles: seq<Profile>, userId: Id): (r: seq<Profile>)
    ensures IsSubsequence(r, profiles)
    ensures forall i :: 0 <= i < |r| ==> r[i].userId != userId
    ensures forall i :: 0 <= i < |profiles| && profiles[i].userId != userId ==> profiles[i] in r
  {
    Filter(profiles, (p: Profile) => p.userId != userId)
  }

  /** The admin count, one profile at a time. */
  lemma AdminCountStep(profiles: seq<Profile>)
    requires |profiles| > 0
    ensures AdminCount(profiles) == (if profiles[0].role == Admin then 1 else 0) + AdminCount(profiles[1..])
  {
  }

  /** `RemoveUser`, one profile at a time. */
  lemma RemoveUserStep(profiles: seq<Profile>, userId: Id)
    requires |profiles| > 0
    ensures RemoveUser(profiles, userId) ==
              (if profiles[0].userId == userId then [] else [profiles[0]]) + RemoveUser(profiles[1..], userId)
  {
  }

  /** Demoting one user removes at most one admin when users are distinct. */
  lemma {:induction false} DemoteCount(profiles: seq<Profile>, userId: Id)
    requires DistinctUsers(profiles)
    ensures AdminCount(SetRole(profiles, userId, Staff)) + 1 >= AdminCount(profiles)
  {
    if |profiles| > 0 {
      var rest := profiles[1..];
      assert SetRole(profiles, userId, Staff)[1..] == SetRole(rest, userId, Staff);
      if profiles[0].userId == userId {
        assert SetRole(rest, userId, Staff) == rest;
      } else {
        DemoteCount(rest, userId);
      }
    }
  }

  /** Deleting a user who has no profile changes nothing. */
  lemma {:induction false} RemoveAbsent(profiles: seq<Profile>, userId: Id)
    requires forall i :: 0 <= i < |profiles| ==> profiles[i].userId != userId
    ensures RemoveUser(profiles, userId) == profiles
  {
  }

  /** Deleting a user leaves a first profile of someone else, and its admin, in place. */
  lemma RemoveKeepsHead(profiles: seq<Profile>, userId: Id)
    requires |profiles| > 0 && profiles[0].userId != userId
    ensures AdminCount(RemoveUser(profiles, userId)) ==
              (if profiles[0].role == Admin then 1 else 0) + AdminCount(RemoveUser(profiles[1..], userId))
  {
    RemoveUserStep(profiles, userId);
    AdminCountStep(RemoveUser(profiles, userId));
    assert RemoveUser(profiles, userId)[1..] == RemoveUser(profiles[1..], userId);
  }

  /** Deleting the user of the first profile, whose id no other profile shares, drops just it. */
  lemma RemoveDropsHead(profiles: seq<Profile>, userId: Id)
    requires |profiles| > 0 && profiles[0].userId == userId && DistinctUsers(profiles)
    ensures AdminCount(RemoveUser(profiles, userId)) + 1 >= AdminCount(profiles)
  {
    RemoveUserStep(profiles, userId);
    AdminCountStep(profiles);
    RemoveAbsent(profiles[1..], userId);
  }

  /** Deleting one user removes at most one admin when users are distinct. */
  lemma {:induction false} RemoveCount(profiles: seq<Profile>, userId: Id)
    requires DistinctUsers(profiles)
    ensures AdminCount(RemoveUser(profiles, userId)) + 1 >= AdminCount(profiles)
  {
    if |profiles| > 0 {
      if profiles[0].userId == userId {
        RemoveDropsHead(profiles, userId);
      } else {
        RemoveCount(profiles[1..], userId);
        AdminCountStep(profiles);
        RemoveKeepsHead(profiles, userId);
      }
    }
  }

  /** Deleting a user who is not an admin keeps every admin. */
  lemma {:induction false} RemoveNonAdminCount(profiles: seq<Profile>, userId: Id)
    requires forall i :: 0 <= i < |profiles| && profiles[i].userId == userId ==> profiles[i].role != Admin
    ensures AdminCount(RemoveUser(profiles, userId)) == AdminCount(profiles)
  {
    if |profiles| > 0 {
      var rest := profiles[1..];
      RemoveUserStep(profiles, userId);
      AdminCountStep(profiles);
      RemoveNonAdminCount(rest, userId);
      if profiles[0].userId != userId {
        RemoveKeepsHead(profiles, userId);
      }
    }
  }

  /** The last-admin rule holds: removing or demoting through a control the card offers
      never leaves the team without an admin. */
  lemma {:induction false} OfferedActionsKeepAnAdmin(profiles: seq<Profile>, i: nat)
    requires i < |profiles| && DistinctUsers(profiles) && AdminCount(profiles) >= 1
    ensures ControlsFor(profiles, profiles[i]).demote ==>
              AdminCount(SetRole(profiles, profiles[i].userId, Staff)) >= 1
    ensures ControlsFor(profiles, profiles[i]).delete ==>
              AdminCount(RemoveUser(profiles, profiles[i].userId)) >= 1
  {
    var u := profiles[i].userId;
    DemoteCount(profiles, u);
    RemoveCount(profiles, u);
    if profiles[i].role != Admin {
      forall j | 0 <= j < |profiles| && profiles[j].userId == u
        ensures profiles[j].role != Admin
      {
        assert j == i;
      }
      RemoveNonAdminCount(profiles, u);
    }
  }

  /** Promoting never lowers the number of admins. */
  lemma {:induction false} PromoteKeepsAdmins(profiles: seq<Profile>, userId: Id)
    ensures AdminCount(SetRole(profiles, userId, Admin)) >= AdminCount(profiles)
  {
    if |profiles| > 0 {
      assert SetRole(profiles, userId, Admin)[1..] == SetRole(profiles[1..], userId, Admin);
      PromoteKeepsAdmins(profiles[1..], userId);
    }
  }

  /** The role write as the screen sends it.  `.upsert({ user_id, role })` names no conflict
      target and no `id`, so the store looks for a conflict on the primary key `id`, whose
      default is fresh: the row is added beside any row the user already has.  (If the
      database made `user_id` unique, the write would be refused instead: the `Fail`
      outcome.)  The table is a bag of rows here. */
  function UpsertRoleAsWritten(rows: seq<UserRoleRow>, userId: Id, role: AppRole, outcome: Outcome)
    : (r: seq<UserRoleRow>)
    ensures outcome.Fail? ==> r == rows
    ensures outcome.Ok? ==> multiset(r) == multiset(rows) + multiset{UserRoleRow(userId, role)}
  {
    if outcome.Ok? then rows + [UserRoleRow(userId, role)] else rows
  }

  /** As written, changing the role of a user who already has a role row leaves two rows
      for that user.  The hook's `.single()` then answers `PGRST116`, which it reads as "no
      role", so the user whose role was changed is shut out of the admin pages. */
  lemma RoleChangeLocksOutAsWritten(rows: seq<UserRoleRow>, i: nat, role: AppRole)
    requires i < |rows|
    ensures var u := rows[i].userId;
            var q := RoleQueryOf(UpsertRoleAsWritten(rows, u, role, Ok), u);
            q == QueryError(NoRowsCode) && !IsAdminOrStaff(SettleQuery(q).role)
  {
    var u := rows[i].userId;
    var row := UserRoleRow(u, role);
    FilterAppend(rows, [row], Owns(u));
    assert Owns(u)(rows[i]);
    assert Filter([row], Owns(u)) == [row];
  }

  /** The filter `.neq('user_id', u)`. */
  function OtherUsers(u: Id): UserRoleRow -> bool {
    (r: UserRoleRow) => r.userId != u
  }

  /** The role write as evidently intended, `upsert(..., { onConflict: 'user_id' })`: the
      user's rows give way to the one new row, and the role query then finds that role.
      `ChangeRole` below reads the table this way, as a map from user to role. */
  function UpsertRoleByUser(rows: seq<UserRoleRow>, userId: Id, role: AppRole, outcome: Outcome)
    : (r: seq<UserRoleRow>)
    ensures outcome.Fail? ==> r == rows
    ensures outcome.Ok? ==> RoleQueryOf(r, userId) == RoleRow(role)
  {
    if outcome.Fail? then rows
    else
      var kept := Filter(rows, OtherUsers(userId));
      var row := UserRoleRow(userId, role);
      FilterAppend(kept, [row], Owns(userId));
      assert Filter([row], Owns(userId)) == [row];
      assert forall j :: 0 <= j < |kept| ==> !Owns(userId)(kept[j]);
      assert Filter(kept, Owns(userId)) == [];
      kept + [row]
  }

  /** The keyed write leaves every other user's role rows as they were. */
  lemma ByUserKeepsOthers(rows: seq<UserRoleRow>, userId: Id, role: AppRole, other: Id)
    requires other != userId
    ensures Filter(UpsertRoleByUser(rows, userId, role, Ok), Owns(other)) == Filter(rows, Owns(other))
  {
    var kept := Filter(rows, OtherUsers(userId));
    var row := UserRoleRow(userId, role);
    FilterAppend(kept, [row], Owns(other));
    assert !Owns(other)(row);
    assert Filter([row], Owns(other)) == [];
    FilterOfFilter(rows, OtherUsers(userId), Owns(other));
  }

  /** The two tables the role change writes: the profiles, and the authoritative
      user_id -> role assignment, one role per user as the keyed write keeps it. */
  datatype StaffDb = StaffDb(profiles: seq<Profile>, userRoles: map<Id, AppRole>)

  /** Every profile's role mirrors its user's role assignment. */
  predicate Mirrored(db: StaffDb) {
    forall i :: 0 <= i < |db.profiles| ==>
      db.profiles[i].userId in db.userRoles && db.userRoles[db.profiles[i].userId] == db.profiles[i].role
  }

  /** `updateRoleMutation`: write the profile first and stop on error; then write the role
      assignment, keyed on the user as `UpsertRoleByUser` does.  Nothing is rolled back when
      the second write fails. */
  function ChangeRole(db: StaffDb, userId: Id, role: AppRole, profileWrite: Outcome, roleWrite: Outcome)
    : (w: (StaffDb, Outcome))
    ensures w.1.Ok? <==> profileWrite.Ok? && roleWrite.Ok?
    ensures profileWrite.Fail? ==> w.0 == db
    ensures profileWrite.Ok? ==> w.0.profiles == SetRole(db.profiles, userId, role)
    ensures profileWrite.Ok? && roleWrite.Fail? ==> w.0.userRoles == db.userRoles
    ensures w.1.Ok? ==> w.0.userRoles == db.userRoles[userId := role]
  {
    if profileWrite.Fail? then (db, Fail)
    else
      var afterProfiles := db.(profiles := SetRole(db.profiles, userId, role));
      if roleWrite.Fail? then (afterProfiles, Fail)
      else (afterProfiles.(userRoles := db.userRoles[userId := role]), Ok)
  }

  /** A role change that goes through keeps the two tables in step; one that fails at the
      first write changes neither. */
  lemma ChangeRoleKeepsMirror(db: StaffDb, userId: Id, role: AppRole, first: Outcome)
    requires Mirrored(db)
    ensures Mirrored(ChangeRole(db, userId, role, Ok, Ok).0)
    ensures Mirrored(ChangeRole(db, userId, role, Fail, first).0)
  {
  }

  /** What the role query answers when the role table is read as `ChangeRole`'s map: the
      user's role, or `PGRST116` for a user without one. */
  function MapQuery(m: map<Id, AppRole>, u: Id): RoleQuery {
    if u in m then RoleRow(m[u]) else QueryError(NoRowsCode)
  }

  /** `ChangeRole`'s map is the keyed row write seen through the role query: when the rows
      answer every user's query as the map does, they still do after the role change,
      whether the role write goes through or fails. */
  lemma ChangeRoleMatchesKeyedRows(db: StaffDb, rows: seq<UserRoleRow>, userId: Id, role: AppRole,
                                   roleWrite: Outcome, u: Id)
    requires forall v :: RoleQueryOf(rows, v) == MapQuery(db.userRoles, v)
    ensures RoleQueryOf(UpsertRoleByUser(rows, userId, role, roleWrite), u)
            == MapQuery(ChangeRole(db, userId, role, Ok, roleWrite).0.userRoles, u)
  {
    assert RoleQueryOf(rows, u) == MapQuery(db.userRoles, u);
    if roleWrite.Ok? && u != userId {
      ByUserKeepsOthers(rows, userId, role, u);
    }
  }

  /** When the second write fails, a profile that changed role no longer mirrors its role
      assignment: the change is half-applied, and only the error notice says so. */
  lemma HalfAppliedRoleChange(db: StaffDb, i: nat, role: AppRole)
    requires Mirrored(db) && i < |db.profiles| && db.profiles[i].role != role
    ensures !Mirrored(ChangeRole(db, db.profiles[i].userId, role, Ok, Fail).0)
  {
    var after := ChangeRole(db, db.profiles[i].userId, role, Ok, Fail).0;
    assert after.profiles[i].role == role;
  }

  /** The staff screen shows nothing but the denial to a non-admin, and does not even run
      the profiles query for one.  Its `isAdmin` comes from the screen's own hook instance,
      so on the first render an admin is denied too and the query is off until that
      instance's role query settles. */
  function ProfilesQueryEnabled(isAdmin: bool): bool { isAdmin }

  lemma NonAdminSeesNoProfiles(isAdmin: bool, isLoading: bool, events: seq<Event>)
    ensures !isAdmin ==> AdminPageView(isAdmin, isLoading) == PageDenied && !ProfilesQueryEnabled(isAdmin)
    ensures isAdmin ==> ProfilesQueryEnabled(isAdmin) && AdminPageView(isAdmin, isLoading) != PageDenied
    ensures AdminPageView(IsAdmin(Initial.role), isLoading) == PageDenied
            && !ProfilesQueryEnabled(IsAdmin(Initial.role))
    ensures ProfilesQueryEnabled(IsAdmin(Run(events).role)) <==>
              |events| > 0 && events[|events| - 1] == QuerySettled(RoleRow(Admin))
  {
    PageDeniesUntilOwnQuerySettles("", events, isLoading);
  }

  /** The create-account form. */
  datatype StaffForm = StaffForm(email: string, password: string, firstName: string, lastName: string, role: AppRole)

  /** The form's initial value, which `resetForm` restores. */
  const DefaultStaffForm := StaffForm("", "", "", "", Staff)

  /** After a create: success empties the form back to a staff account and closes the
      dialog; failure keeps every typed field. */
  lemma CreateFormSettles(f: FormState<StaffForm>, outcome: Outcome)
    ensures outcome.Ok? ==> var g := Settle(f, DefaultStaffForm, outcome);
              g.draft.role == Staff && g.draft.email == "" && g.draft.password == ""
              && g.draft.firstName == "" && g.draft.lastName == "" && !g.open
    ensures outcome.Fail? ==> Settle(f, DefaultStaffForm, outcome).draft == f.draft
  {
  }
}
