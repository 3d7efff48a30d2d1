# Riad Ice admin site, modelled in Dafny

This project models the decision rules of the admin site of the Riad Ice restaurant. That
site is a React front end over a hosted PostgreSQL database (Supabase). The model takes the
database as a set of finite maps from row id to row. Every request either goes through (`Ok`)
or comes back with an error (`Fail`). Once the store is abstracted that way, each screen is a
set of pure functions, and this project states and proves what they promise:

- **Vocabularies and insert shapes** (`Schema`). These are the four enumerations and their
  run-time constant arrays, plus the columns an insert must name.
- **Role resolution and gates**:
  - `UserRole`: the `useUserRole` hook as a small state machine.
  - `AdminLayout`: the four-way gate in front of every admin screen, and the admin-only
    sub-gate of the settings and staff screens.
  - `AdminSidebar`: the navigation entries, with admin-only ones hidden.
- **Reservations** (`Reservations`). This covers the status buttons as a transition table,
  the single-column status write, the badge colour, and the pending and upcoming summaries.
- **Staff** (`Staff`). This covers the promote, demote and delete controls under the
  last-admin rule, the two-step role change, and the create-account form.
- **Settings** (`Settings`). This covers the key/value fold, the three forms it fills, the
  opening-hours editor and the three upserts.
- **Menu, specials and gallery** (`Menu`, `Specials`, `Gallery`). Each has:
  - the row and draft types;
  - the edit prefill and the write-back;
  - create-or-update on submit;
  - the visibility and status switches;
  - the label helpers.
- **Dashboard** (`Dashboard`). This covers the four stat counts and the five most recent
  reservations. Their order is PostgreSQL's `DESC`, which puts nulls first.
- **WhatsApp deep link** (`WhatsApp`). This covers the booking message with its defaults and
  the `wa.me` URL. The message is percent-encoded with ECMAScript `encodeURIComponent`, which
  is modelled in `UriComponent` over Unicode scalar values. That module follows section 19.2.6
  of ECMA-262: UTF-8 bytes, upper-case hex, and the unreserved marks of section 2.3 of
  RFC 2396. `decodeURIComponent` is modelled alongside it, so the round trip can be stated.

Shared modules:
- `Wrappers`: `Option`.
- `Seqs`: `filter`, counting, subsequences.
- `Store`: the tables, `Ok`/`Fail`, and the create/edit dialog state every resource manager
  keeps.
- `Text`: ASCII `toUpperCase`, first-match `replace`, capitalising, and `split('.').pop()`.
- `Decimal`: how a template literal writes an integer.

The effects and inputs below are not part of the model. Each is either left out or given as
a parameter:
- network calls: an `Outcome` parameter;
- the current time: `now`, with a `string -> Option<int>` for `new Date(...)`;
- `Math.random()` file names and storage public URLs: parameters;
- the signed-in user id: a parameter.

## Model

| member | source | states |
|---|---|---|
| Schema.AppRoleEnum | src/integrations/supabase/types.ts:282 | `app_role` has exactly two members. The constant array lists their names, distinct and in union order. A string parses as a role exactly when it is one of those names. |
| Schema.GalleryCategoryEnum | src/integrations/supabase/types.ts:283 | `gallery_category` has exactly five distinct members. The constant array agrees with the union in order. Only those names parse. |
| Schema.MenuCategoryEnum | src/integrations/supabase/types.ts:284-292 | `menu_category` has exactly eight distinct members. The constant array agrees with the union in order. Only those names parse. |
| Schema.ReservationStatusEnum | src/integrations/supabase/types.ts:293 | `reservation_status` has exactly four distinct members. The constant array agrees with the union in order. Only those names parse. |
| Schema.EnumAgreesFrom | src/integrations/supabase/types.ts:418-434 | Suppose a `Constants` array has one distinct name per union member, in union order. Then the array equals the names of the members, and name lookup is a bijection onto the array. |
| Schema.FindByNameRoundTrip | src/integrations/supabase/types.ts:418-434 | When names are distinct, looking up a member's name finds that member. |
| Schema.MenuItemsRequiredColumns | src/integrations/supabase/types.ts:66-80 | A `menu_items` insert must name category, name and price, and no other column. |
| Schema.ReservationsRequiredColumns | src/integrations/supabase/types.ts:145-157 | A `reservations` insert must name the customer's name and phone, the guest count, the date and the time, and nothing else. |
| Schema.ReservationStatusOptional | src/integrations/supabase/types.ts:155 | `status` may be left out of a reservation insert, and may be null when given. |
| Schema.UserRolesInsertShape | src/integrations/supabase/types.ts:248-252 | A `user_roles` insert names exactly its user and its one role, and neither may be null. |
| UserRole.SettleQuery | src/hooks/useUserRole.ts:20-34 | A settled role query yields a role iff a row came back, and then it yields that row's role. `PGRST116` (`.single()` matched no row, or more than one) yields no role without taking the error path. Any other error yields no role through `catch`. |
| UserRole.RoleQueryOf | src/hooks/useUserRole.ts:20-24 | Against the table's rows, the query yields a role iff exactly one row belongs to the user, and that role is the role of one of the user's rows. With no rows, or with several, it yields `PGRST116`. |
| UserRole.RoleFlags | src/hooks/useUserRole.ts:42-44 | `isAdmin` and `isStaff` never both hold. `isAdminOrStaff` holds iff a role is present, and iff exactly one of the two flags holds. |
| UserRole.SettledPaths | src/hooks/useUserRole.ts:11-36 | No user gives role null and loading false. Every settled query ends loading. An error never yields a role. The corrected hook agrees with the hook as written on all of these. |
| UserRole.Step | src/hooks/useUserRole.ts:10-40 | The corrected effect. Signing a user in clears the role and raises loading. Signing out gives null and not loading. A settled query sets the role it yields and ends loading. |
| UserRole.RoleComesFromLatestQuery | src/hooks/useUserRole.ts:10-40 | Under the corrected effect, a role is reported only when the latest event is a query that returned that role. Right after a user change, loading is reported. |
| UserRole.StaleRoleAsWritten | src/hooks/useUserRole.ts:10-40 | As written, the following sequence leaves the hook reporting admin and not loading while user b's query is still in flight: user a signs in, a resolves as admin, then the user becomes b. |
| AdminLayout.LayoutView | src/components/admin/AdminLayout.tsx:13-48 | Exactly one of spinner, redirect, denied or outlet is shown. The spinner shows iff either flag is loading. The redirect shows iff nothing is loading and there is no user. Denied shows iff there is a user without admin or staff role. The outlet shows iff there is a user with such a role and nothing is loading. |
| AdminLayout.GateNeverGrantsUnresolved | src/components/admin/AdminLayout.tsx:13-48 | With the corrected hook, the outlet opens only when the latest event is a query that returned a role. A freshly signed-in user sees the spinner. |
| AdminLayout.GateGrantsStaleRoleAsWritten | src/components/admin/AdminLayout.tsx:13-48 | With the hook as written, the layout opens the outlet for user b on the role resolved for user a. With the corrected hook it shows the spinner. |
| AdminLayout.AdminPageView | src/pages/admin/SettingsManagement.tsx:139-152 | Given the `isAdmin` flag of the page's own hook and the page query's loading flag, the settings and staff screens deny iff that flag is false. The role check comes before the loading check, so a denied viewer never sees the loading view. |
| AdminLayout.PageDeniesUntilOwnQuerySettles | src/pages/admin/SettingsManagement.tsx:32-148 | Each screen's `isAdmin` comes from its own fresh `useUserRole()` instance. On the first render that instance reports no role, and the hook as written still reports none after the mount effect, so an admin is denied until the instance's query settles. With the corrected hook, the screen opens exactly when the instance's latest event is a query that returned admin. |
| AdminLayout.StaffStopAtAdminPages | src/pages/admin/StaffManagement.tsx:156-163 | A staff member passes the layout gate but is denied by the admin-only page gate. |
| AdminSidebar.VisibleItems | src/components/admin/AdminSidebar.tsx:26-28 | The visible entries are an order-preserving subsequence of `navigation`. Every entry that is not admin-only stays. An admin-only entry stays only when the flag is set, and with the flag set the whole list shows. The flag is the sidebar's own hook instance (see `AdminSidebar.SidebarFollowsOwnHook`). |
| AdminSidebar.HidesOnlyLast | src/components/admin/AdminSidebar.tsx:26-28 | When only the last entry is admin-only, a non-admin sees every entry but the last. |
| AdminSidebar.AdminSeesAll | src/components/admin/AdminSidebar.tsx:14-21 | With the admin flag set, all six entries show. The sidebar's own hook instance sets it only once its query has settled (see `AdminSidebar.SidebarFollowsOwnHook`). |
| AdminSidebar.OthersSeeAllButSettings | src/components/admin/AdminSidebar.tsx:20 | Settings is the only admin-only entry, and everyone else sees the first five entries. |
| AdminSidebar.SidebarFollowsOwnHook | src/components/admin/AdminSidebar.tsx:24-28 | The sidebar is mounted only after the layout's gate opens (src/components/admin/AdminLayout.tsx:38), and its `isAdmin` comes from its own fresh `useUserRole()` instance. So an admin sees the five entries without Settings on the first render, and with the hook as written still sees them after the mount effect. With the corrected hook, the whole list shows exactly when the instance's latest event is a query that returned admin. |
| Reservations.TransitionTable | src/pages/admin/ReservationsManagement.tsx:190-261 | Pending offers exactly confirmed and cancelled. Confirmed offers exactly completed and cancelled. Cancelled and completed offer exactly pending (Reopen). A row without a status offers nothing. |
| Reservations.NoSelfTransition | src/pages/admin/ReservationsManagement.tsx:190-261 | No button writes the status a row already has. |
| Reservations.PendingToCompletedNeedsConfirm | src/pages/admin/ReservationsManagement.tsx:190-246 | Pending to completed is never offered in one step, but is a run through confirmed. |
| Reservations.AllStatusesReachable | src/pages/admin/ReservationsManagement.tsx:190-261 | From every status, every status is reachable through offered buttons in at most three steps. |
| Reservations.UpdateStatus | src/pages/admin/ReservationsManagement.tsx:41-49 | The status write keeps the set of ids and every other row. On success it gives the row the new status. On error it changes nothing. |
| Reservations.UpdateStatusScoped | src/pages/admin/ReservationsManagement.tsx:41-49 | Every column of the row but `status` keeps its value, whatever the outcome. |
| Reservations.StatusColorDistinguishes | src/pages/admin/ReservationsManagement.tsx:66-79 | `getStatusColor` is total. It is gray exactly for strings that are not a status name, and it gives the four statuses four different colours. |
| Reservations.PendingList | src/pages/admin/ReservationsManagement.tsx:98 | The pending list is an order-preserving subsequence of the rows. It holds every pending row and only pending rows. |
| Reservations.UpcomingList | src/pages/admin/ReservationsManagement.tsx:94-96 | The upcoming list holds exactly the confirmed rows whose date parses and is not before now, in their original order. |
| Reservations.SummaryBounds | src/pages/admin/ReservationsManagement.tsx:94-131 | The upcoming list is a subsequence of the confirmed rows, so it is no longer than them. The pending count never exceeds the total. |
| Staff.LastAdminLabel | src/pages/admin/StaffManagement.tsx:314-326 | On a listed admin, the label shows iff that admin is the only one. Promote and demote are never offered together. |
| Staff.SetRole | src/pages/admin/StaffManagement.tsx:105-108 | The profile write sets the role of exactly the profiles of that user and changes no other profile. |
| Staff.RemoveUser | src/pages/admin/StaffManagement.tsx:84-88 | Deleting an account leaves, in order, exactly the profiles of other users. |
| Staff.DemoteCount | src/pages/admin/StaffManagement.tsx:301-312 | With distinct users, a demotion removes at most one admin. |
| Staff.RemoveCount | src/pages/admin/StaffManagement.tsx:314-321 | With distinct users, deleting one account removes at most one admin. |
| Staff.RemoveNonAdminCount | src/pages/admin/StaffManagement.tsx:314-321 | Deleting a user who is not an admin keeps the admin count. |
| Staff.OfferedActionsKeepAnAdmin | src/pages/admin/StaffManagement.tsx:301-326 | Suppose at least one admin exists and users are distinct. Then any demote or delete the card offers leaves at least one admin. |
| Staff.PromoteKeepsAdmins | src/pages/admin/StaffManagement.tsx:288-299 | Promoting never lowers the admin count. |
| Staff.ChangeRole | src/pages/admin/StaffManagement.tsx:102-118 | The role change reports success iff both writes succeed. If the profile write fails, nothing changes. If it succeeds, the profiles carry the new role. If the second write then fails, the role assignments keep their old value. The role write is the keyed one of `Staff.UpsertRoleByUser` (see Findings). |
| Staff.ChangeRoleKeepsMirror | src/pages/admin/StaffManagement.tsx:102-118 | With the keyed role write, a role change that succeeds, or one that fails at the first write, keeps every profile's role equal to its user's role assignment. |
| Staff.HalfAppliedRoleChange | src/pages/admin/StaffManagement.tsx:110-117 | A change that fails at the second write leaves the tables disagreeing. Nothing is rolled back. |
| Staff.ChangeRoleMatchesKeyedRows | src/pages/admin/StaffManagement.tsx:113-115 | Suppose the role rows answer every user's `.single()` role query the way `ChangeRole`'s user-to-role map does. Then they still do after the role change, whether the role write succeeds or fails. So the map is a faithful reading of the keyed row write. |
| Staff.UpsertRoleAsWritten | src/pages/admin/StaffManagement.tsx:113-115 | As sent, with no conflict target and no `id`: on success the table gains the new row beside the user's existing ones. On error it is unchanged. |
| Staff.RoleChangeLocksOutAsWritten | src/pages/admin/StaffManagement.tsx:113-115 | As sent, changing the role of any user who already has a role row leaves that user's role query answering `PGRST116`. The hook then reports no role, so the layout denies that user. |
| Staff.UpsertRoleByUser | src/pages/admin/StaffManagement.tsx:113-115 | Keyed on `user_id`: on success the role query for the user yields exactly the new role. On error the rows are unchanged. |
| Staff.ByUserKeepsOthers | src/pages/admin/StaffManagement.tsx:113-115 | The keyed role write leaves every other user's role rows exactly as they were. |
| Staff.NonAdminSeesNoProfiles | src/pages/admin/StaffManagement.tsx:37-49 | A non-admin gets the denial and the profiles query is switched off (`enabled: isAdmin`). An admin gets the query and is not denied. Because the flag comes from the screen's own hook instance, on the first render an admin is denied too and the query is off. With the corrected hook, the query is on exactly when the instance's latest event is a query that returned admin. |
| Staff.CreateFormSettles | src/pages/admin/StaffManagement.tsx:132-141 | After a successful create, the form returns to an empty staff account and the dialog closes. A failed create keeps every typed field. |
| Settings.SettingsMap | src/pages/admin/SettingsManagement.tsx:66-69 | Every key of a row is in the folded map. |
| Settings.LastRowWins | src/pages/admin/SettingsManagement.tsx:66-69 | Each key of the folded map holds the value of the last row with that key. |
| Settings.LoadedValues | src/pages/admin/SettingsManagement.tsx:66-69 | When the rows list a table one row per key, in any order, every stored key maps to its stored value. |
| Settings.ReloadIsIdempotent | src/pages/admin/SettingsManagement.tsx:71-79 | Loading the same rows twice gives the same forms as loading them once. A form whose stored value is missing or falsy keeps what it had, and the three forms are loaded from their own keys. |
| Settings.DefaultSchedule | src/pages/admin/SettingsManagement.tsx:42-50 | Until a truthy schedule is loaded, the schedule holds exactly the seven days, each open 09:00-22:00 and not closed. |
| Settings.UpdateOpeningHours | src/pages/admin/SettingsManagement.tsx:125-137 | The edited field of the edited day takes the new value. Every other field of that day, and every other day, keeps its value. No key disappears. |
| Settings.UpdateLastWins | src/pages/admin/SettingsManagement.tsx:125-137 | Editing the same field twice keeps only the second value. |
| Settings.UpdatesCommute | src/pages/admin/SettingsManagement.tsx:125-137 | Edits to different days, or to different fields of one day, give the same schedule in either order. |
| Settings.Upsert | src/pages/admin/SettingsManagement.tsx:85-96 | Keyed on `key` (see Findings): on success the key holds exactly the value and the updating user, and no other key changes. On error the table is unchanged. |
| Settings.UpsertAsWritten | src/pages/admin/SettingsManagement.tsx:89-93 | As sent, with no conflict target and no `id`: on success the table gains the new row beside any row with the same key. On error it is unchanged. |
| Settings.ReloadMayShowOldValueAsWritten | src/pages/admin/SettingsManagement.tsx:58-93 | As sent, saving a new value under a key that already has a row leaves a listing of the table, in some order `select('*')` may return, from which the reload shows a value other than the one saved. |
| Settings.SubmitContact | src/pages/admin/SettingsManagement.tsx:110-113 | Saves the contact form under `contact_info` through the write keyed on `key` (see Findings), and leaves every other key alone. |
| Settings.SubmitHours | src/pages/admin/SettingsManagement.tsx:115-118 | Saves the schedule under `opening_hours` through the write keyed on `key` (see Findings), and leaves every other key alone. |
| Settings.SubmitSocial | src/pages/admin/SettingsManagement.tsx:120-123 | Saves the social links under `social_links` through the write keyed on `key` (see Findings), and leaves every other key alone. |
| Settings.SaveThenReload | src/pages/admin/SettingsManagement.tsx:58-118 | With the keyed write, saving the schedule and reloading, in whatever order the rows come back, brings the saved schedule back into the form. The contact form is left to what is stored for it. |
| Settings.NonAdminDenied | src/pages/admin/SettingsManagement.tsx:139-152 | A non-admin is denied whatever the loading state. Unlike on the staff screen, the query is not switched off. On the first render an admin is denied too, because the flag comes from the screen's own hook instance. With the corrected hook, the screen opens exactly when that instance's latest event is a query that returned admin. |
| Gallery.ApplyDraft | src/pages/admin/GalleryManagement.tsx:162-177 | The update writes the five form columns, and prefilling from the result gives the draft back. Id, uploader and creation time are kept. |
| Gallery.EditUnchangedIsNoop | src/pages/admin/GalleryManagement.tsx:162-172 | Saving an untouched edit writes the row back unchanged, null flags and unoffered categories included. |
| Gallery.NewImage | src/pages/admin/GalleryManagement.tsx:51-57 | A created image carries the draft's five columns and the current user as uploader. |
| Gallery.Commit | src/pages/admin/GalleryManagement.tsx:174-181 | Submitting while editing updates that row's five columns and keeps uploader and creation time. Otherwise the insert succeeds iff the store answers and the id is fresh. It then adds exactly that one row, holding the draft with the current user as uploader. Other rows are untouched, and an error changes nothing. |
| Gallery.SaveSettles | src/pages/admin/GalleryManagement.tsx:150-160 | A successful save closes the dialog and clears editing. The next submit creates an untitled, shown, unfeatured dishes image. A failed save keeps the form. |
| Gallery.ToggleStatus | src/pages/admin/GalleryManagement.tsx:106-114 | A switch writes only its own flag of its own row. Every other column and row is kept, and an error changes nothing. |
| Gallery.FlipTwice | src/pages/admin/GalleryManagement.tsx:355-369 | Flipping a switch inverts what it shows, and flipping twice shows the original state again. A null flag comes back as `false`, not null. |
| Gallery.CategoryOptionsShape | src/pages/admin/GalleryManagement.tsx:183-187 | The dialog offers three distinct categories of the five. Drinks and exterior are not offered. |
| Gallery.CategoryColorDistinguishes | src/pages/admin/GalleryManagement.tsx:189-200 | The badge is gray exactly for the categories the dialog does not offer, and the three offered ones get three colours. |
| Gallery.Upload | src/pages/admin/GalleryManagement.tsx:121-148 | With no file nothing happens. Otherwise the path is the random name, a dot and the text after the file name's last dot (the whole name if it has no dot). On success only the image url changes, to that path's public url. On failure the form is left alone. |
| Text.AfterLastDot | src/pages/admin/GalleryManagement.tsx:127 | `split('.').pop()` returns a dot-free suffix of the name. It is the whole name when there is no dot, and otherwise it starts right after a dot. |
| Menu.InitialDraft | src/pages/admin/MenuManagement.tsx:161-172 | Adding starts from the default draft. Editing keeps a stored `false` for `is_active` (`??`), and treats only a stored `true` as special (`||`). |
| Menu.WriteDraft | src/pages/admin/MenuManagement.tsx:395-397 | Editing writes every form column under the edited id. Reopening the result gives the draft back. |
| Menu.UntouchedEdit | src/pages/admin/MenuManagement.tsx:161-172 | An untouched save writes a row without nulls back unchanged. Any other row loses its nulls, and after that it is stable. |
| Menu.UntouchedEditOfNullActive | src/pages/admin/MenuManagement.tsx:169 | A null `is_active` shows as hidden, yet an untouched save makes the item visible. |
| Menu.UntickedSpecialKeepsDay | src/pages/admin/MenuManagement.tsx:264-275 | Unticking "Special Item" still writes the special day. |
| Menu.ToggleVisibility | src/pages/admin/MenuManagement.tsx:131-139 | The toggle sends the opposite of what the card last showed: the item ends hidden iff the card showed it visible. Only `is_active` of that row is written, other rows are untouched, and an error changes nothing. |
| Menu.ToggleTwice | src/pages/admin/MenuManagement.tsx:334-338 | With the list refetched between two clicks, toggling twice restores what the card shows. It restores the table exactly iff `is_active` was not null. |
| Menu.DoubleClickBeforeRefetch | src/pages/admin/MenuManagement.tsx:334-338 | Two clicks on the same rendered card, before the refetch, send the same value twice: the second click leaves the table as the first left it. |
| Menu.AddSettled | src/pages/admin/MenuManagement.tsx:60-62 | A successful add closes the add dialog. A failed one leaves it as it was. |
| Menu.UpdateSettled | src/pages/admin/MenuManagement.tsx:89-91 | A successful edit closes the edit dialog. A failed one leaves it open. |
| Menu.CommitAdd | src/pages/admin/MenuManagement.tsx:49-58 | An add succeeds iff the store answers and the id is fresh. It then adds exactly one row under that id, and reopening it gives the draft back. Existing rows are untouched, and a failed add changes nothing. |
| Menu.CommitEdit | src/pages/admin/MenuManagement.tsx:77-87 | An edit succeeds iff the store answers and the edited row still exists: `.select().single()` turns a missing row into an error. On success it rewrites that row from the draft and keeps its creation time. Other rows are untouched, and a failure changes nothing. |
| Menu.EditOfMissingItemKeepsDialog | src/pages/admin/MenuManagement.tsx:77-91 | Saving an edit of an item that is no longer stored fails, changes no row, and leaves the edit dialog open on the same item. |
| Menu.CategoryOptionsAreTheEnum | src/pages/admin/MenuManagement.tsx:145-154 | The select offers exactly the enum's constant array, in order. A string is an option iff it parses as a menu category. |
| Menu.LabelHasNoUnderscore | src/pages/admin/MenuManagement.tsx:233 | For a name with at most one underscore, replacing the first underscore and upper-casing leaves no underscore and keeps the length. |
| Menu.CategoryLabelHasNoUnderscore | src/pages/admin/MenuManagement.tsx:369 | Every category label is free of underscores and as long as its name. |
| Text.ReplaceFirst | src/pages/admin/MenuManagement.tsx:233 | `replace('_', ' ')` changes only the first underscore, if any, and keeps the length. |
| Text.ToUpper | src/pages/admin/MenuManagement.tsx:233 | Upper-casing keeps the length and maps each character on its own. |
| Specials.ApplyDraft | src/pages/admin/SpecialsManagement.tsx:145-166 | A save writes all nine form columns, with "" kept as "". Prefilling from the result gives the draft back. The day line shows iff the draft's day is not empty. The period line shows iff both dates are not empty, and then reads "Period: start to end" with the draft's dates. |
| Specials.UntouchedEdit | src/pages/admin/SpecialsManagement.tsx:145-157 | An untouched save keeps title and active flag, and keeps what the card shows. A second untouched save is a no-op. |
| Specials.Commit | src/pages/admin/SpecialsManagement.tsx:161-168 | Submitting while editing rewrites that row from the draft and keeps its creation time. Otherwise the insert succeeds iff the store answers and the id is fresh. It then adds exactly that one row, holding the draft. Other rows are untouched, and an error changes nothing. |
| Specials.SaveSettles | src/pages/admin/SpecialsManagement.tsx:129-143 | A successful save resets every text to "", active to true and editing to none, and closes the dialog, so the next submit is a create. A failed save keeps the form. |
| Specials.ToggleActive | src/pages/admin/SpecialsManagement.tsx:114-122 | The switch writes only `is_active` of its row, to the state it was switched to. An error changes nothing. |
| Specials.PickedDayShowsItsCaption | src/pages/admin/SpecialsManagement.tsx:170-179 | A weekday picked in the select comes back on the card as "Day: " and that option's caption. "No specific day" shows no day line. |
| Specials.CaptionIsCapitalized | src/pages/admin/SpecialsManagement.tsx:170-179 | Each weekday caption is its value with the first letter upper-cased. |
| Text.Capitalize | src/pages/admin/SpecialsManagement.tsx:350 | The first character is upper-cased, the rest is unchanged, and the length is kept. |
| Dashboard.StatCount | src/pages/admin/Dashboard.tsx:18-21 | A count is the number of matching rows, or 0 when its query fails. It never exceeds the row count. |
| Dashboard.CountsAgreeWithScreens | src/pages/admin/Dashboard.tsx:11-14 | The pending count equals the length of the reservations screen's pending list. The active-menu count equals the number of items the menu screen does not mark hidden. |
| Dashboard.FailureReadsAsZero | src/pages/admin/Dashboard.tsx:18-21 | A failed count reads the same as a genuine zero. |
| Dashboard.Latest | src/pages/admin/Dashboard.tsx:29-33 | The recent list holds min(k, n) rows, all drawn from the table without repetition. |
| Dashboard.LatestDescending | src/pages/admin/Dashboard.tsx:32 | The recent list is ordered by creation time, newest first, with null timestamps first. |
| Dashboard.LatestAreLatest | src/pages/admin/Dashboard.tsx:29-33 | No row left out is newer than a row shown, so the rows shown are the k latest. |
| Dashboard.RecentReservations | src/pages/admin/Dashboard.tsx:26-35 | At most five rows, drawn from the table; none when the query fails. |
| Dashboard.BadgeColors | src/pages/admin/Dashboard.tsx:127-133 | The badge is orange iff pending, green iff confirmed, and red otherwise. Completed therefore looks like cancelled here, while the reservations screen tells them apart. |
| WhatsApp.Defaults | src/utils/whatsapp.ts:13 | No details, an empty record and an empty name all give the default message. Each default replaces only an absent field. |
| WhatsApp.MessageEndsWithTail | src/utils/whatsapp.ts:16 | The message ends with the time, the date and the closing words as given, with "" kept as "". |
| WhatsApp.MessageStartsWithGreeting | src/utils/whatsapp.ts:15-16 | The message opens with the greeting. |
| WhatsApp.MessageNamesCustomer | src/utils/whatsapp.ts:15-16 | A non-empty name appears verbatim right after "Hi, my name is ". |
| WhatsApp.EmptyTimeKept | src/utils/whatsapp.ts:13 | An explicit empty time is not replaced by the default "7 PM". |
| WhatsApp.GuestsReadBack | src/utils/whatsapp.ts:16 | The party size appears in decimal right after the request, and reads back as the number given. |
| WhatsApp.WhatsAppUrl | src/utils/whatsapp.ts:21-24 | Every link starts with `https://wa.me/212693254604?text=`. |
| WhatsApp.EncodedText | src/utils/whatsapp.ts:18 | An encoded message holds no space, `&`, `#`, `?`, `=` or `+`, and decodes back to the message. |
| WhatsApp.UrlCarriesMessage | src/utils/whatsapp.ts:12-24 | The text after `?text=` is a single query-safe parameter that decodes to the composed message. |
| UriComponent.EncodeAlphabet | src/utils/whatsapp.ts:18 | `encodeURIComponent` output holds only letters, digits, the marks `-_.!~*'()` and `%` escapes with upper-case hex. |
| UriComponent.DecodeEncode | src/utils/whatsapp.ts:18 | `decodeURIComponent(encodeURIComponent(s)) == s` for every string of Unicode scalar values. |
| UriComponent.TruncatedEscapeRejected | src/utils/whatsapp.ts:18 | Decoding rejects a `%` that is not followed by two hex digits. |
| UriComponent.OverlongRejected | src/utils/whatsapp.ts:18 | Decoding rejects the overlong lead bytes `%C0` and `%C1`. |
| Decimal.IntString | src/utils/whatsapp.ts:16 | The party size is written as one or more characters: a leading digit for a non-negative number, and a minus sign followed by at least one more character for a negative one. |
| UriComponent.Utf8 | src/utils/whatsapp.ts:18 | Each character is encoded as one to four UTF-8 bytes, each below 256. |
| Decimal.IntStringRoundTrip | src/utils/whatsapp.ts:16 | The decimal text a template literal gives an integer reads back as that integer, so different party sizes give different messages. |
| Store.InsertRow | src/pages/admin/MenuManagement.tsx:49-58 | An insert succeeds iff the store accepts it and the id is fresh. Then it adds exactly that row. Otherwise the table is unchanged. Existing rows are always kept. |
| Store.UpdateById | src/pages/admin/SpecialsManagement.tsx:77-85 | `.update(patch).eq('id', id)` without `.select().single()` patches only the matching row, and only on success. A missing id is not an error. The menu edit, which does select, is modelled separately by `Menu.CommitEdit`. |
| Store.DeleteById | src/pages/admin/MenuManagement.tsx:106-114 | On success a delete removes exactly that id. On error it changes nothing. Surviving rows are unchanged. |
| Store.DeleteIdempotent | src/pages/admin/GalleryManagement.tsx:88-96 | Deleting an id twice is the same as deleting it once. |
| Store.Submission | src/pages/admin/GalleryManagement.tsx:174-181 | Submit is an update of the edited id iff an edit is open, and a create otherwise. The draft is sent as it stands. |
| Store.RetryAfterFailure | src/pages/admin/SpecialsManagement.tsx:72-89 | A failed submit followed by a retry sends the same request, and the retry's success resets the form. |
| Store.SubmitAfterEditOrReset | src/pages/admin/SpecialsManagement.tsx:129-168 | Saving an edit untouched asks for an update of that row with the values it was opened with. Saving the reset form asks for a create of the defaults. |
| Store.SetOpen | src/pages/admin/GalleryManagement.tsx:213-220 | The dialog's own open and close (the "Add" trigger, the close button, Escape) change only `open`, so the dialog keeps asking for the same update or create. |
| Store.AddAfterDismissedEditAsWritten | src/pages/admin/GalleryManagement.tsx:213-220 | As written, edit a row, dismiss the dialog, then press "Add": the dialog that opens submits an update of the row edited before. |
| Store.OpenAdd | src/pages/admin/SpecialsManagement.tsx:192-199 | "Add" as intended opens the empty form, with nothing being edited, so its submit is always a create of the defaults. |
| Store.AddAfterDismissedEdit | src/pages/admin/SpecialsManagement.tsx:192-199 | With that "Add", a dismissed edit does not leak into the next create. |

## Left out

- Network, auth, storage and cache calls are replaced by the table maps and an `Ok`/`Fail` outcome. Query invalidation and refetching are not modelled. A reload is modelled as reading the table again (`Settings.SaveThenReload`).
- Toasts, spinners' markup, icons and every other rendering detail.
- Concurrency: two admin sessions racing on the admin count, or overlapping role queries. The model is one sequential session. `UserRole` receives each query's result as one event and does not model out-of-order completions.
- The database side: server functions `has_role` / `is_admin` (signatures only), triggers that create profiles and roles for new accounts, row-level security, and the cascade from a deleted account to its profile. The cascade is assumed by `Staff.RemoveUser`.
- Whether the database makes `settings.key` or `user_roles.user_id` unique is not visible. The as-written writes cover that case only as a `Fail` outcome.
- Staff.ChangeRoleKeepsMirror: holds for the role write keyed on `user_id`, the corrected one under Findings. The write as sent adds a row instead, and `Staff.RoleChangeLocksOutAsWritten` states what follows.
- Settings.SaveThenReload: holds for the settings write keyed on `key`, the corrected one under Findings. The write as sent keeps old rows, and `Settings.ReloadMayShowOldValueAsWritten` states what follows.
- Dashboard.StatCount: the counts are lengths of `select('id')` row lists, so the API's maximum-rows setting caps them. That cap is not modelled, and neither is row-level security.
- `Staff.DemoteCount`, `Staff.RemoveCount` and `Staff.OfferedActionsKeepAnAdmin` assume that no two profiles share a user. The code does not enforce that.
- Prices are integers. `parseFloat`, NaN, and non-integral prices are not modelled, and no sign is assumed.
- Dates and times are abstract. `new Date(...)` is a parameter, and `toLocaleDateString` is not modelled. Creation timestamps are optional integers.
- Upper-casing maps ASCII letters only. Unicode case mapping, and the locale, are not modelled.
- JSON numbers in settings are integers. Spreading a string or an array into the schedule (`...prev[day]`) is modelled as spreading nothing, which is the behaviour for null, numbers and booleans.
- Strings are sequences of Unicode scalar values. Lone surrogates, which `encodeURIComponent` rejects with a `URIError`, cannot occur.
- `MenuItemForm` is declared inside its parent component, so React remounts it on every parent render. This can drop typed input, and that effect is not modelled. The form is treated as stable state.
- `openWhatsApp` (`window.open`), the random number behind upload file names, and storage public URLs. The latter two are parameters of `Gallery.Upload`.
- Row ordering of the list queries (`order(...)`) other than the dashboard's recent list. The lists are taken in the order the store returns them. When a refetch lands relative to a click is not modelled either: a card's toggle takes the value the card last rendered as a parameter.
- The loading and empty-state views of each list screen, beyond the admin gates.
- `Settings.SettingsMap`: its contract states only that every row's key is present. Which value wins is stated separately by `Settings.LastRowWins`.
- Decimal.IntString: the party size is a JavaScript number, modelled as an integer. `IntString` matches `${n}` only for integers below 10^21: from 10^21 on, JavaScript writes exponent form (`1e+21`), and it writes fractions for non-integral numbers. The callers pass `parseInt` of a choice from 1 to 8 or, in the full form, of 1 to 8, 10 or 12 (src/components/WhatsAppReservation.tsx:67-73, 175-181).
- Specials.ApplyDraft: writes `""` for an empty start or end date, as the form sends it. The column types only say `string | null`, so whether the database would reject `""` in a date column is not visible. The model treats the write as accepted or failed only through the store's outcome.

## Findings

| source | as written | input that shows it | evidently intended | confidence | as-written member | corrected member |
|---|---|---|---|---|---|---|
| src/hooks/useUserRole.ts:10-40 | When the signed-in user changes, the effect starts a new fetch without resetting `role` to null or `loading` to true. | User a signs in and resolves as admin, then the user becomes b. Until b's query settles, the hook reports admin and not loading, so `AdminLayout` opens the admin outlet for b. | A new user's role is unknown and loading until that user's query settles. | not executed | UserRole.StaleRoleAsWritten | UserRole.RoleComesFromLatestQuery |
| src/pages/admin/SettingsManagement.tsx:89-93 | `upsert({ key, value, updated_by })` names no conflict target and sends no `id`. The primary key `id` has a default, so no conflict arises and the row is inserted. | Save the opening hours twice with different schedules. Two `opening_hours` rows exist, and `select('*')` may list the older one last, so the reload shows the old schedule. If `key` is unique in the database, the second save fails instead. | Each save replaces the row with that key (`onConflict: 'key'`), so a reload shows the last saved value. | not executed | Settings.ReloadMayShowOldValueAsWritten | Settings.SaveThenReload |
| src/pages/admin/StaffManagement.tsx:113-115 | `upsert({ user_id, role })` names no conflict target and sends no `id`, so it inserts a second role row for a user who already has one. | Promote a staff member who has a `staff` row in `user_roles`. The table then holds two rows for that user. The hook's `.single()` query answers `PGRST116`, which it reads as no role, so the promoted user is denied the admin pages. | The user's role row is replaced (`onConflict: 'user_id'`), and the role query returns the new role. | not executed | Staff.RoleChangeLocksOutAsWritten | Staff.UpsertRoleByUser |
| src/pages/admin/GalleryManagement.tsx:213-220 | "Add Image" is a bare `DialogTrigger`, and closing the dialog only sets `dialogOpen`. Neither clears `editingImage` or the draft. The same holds for "Add Special" (src/pages/admin/SpecialsManagement.tsx:192-199). | Edit an image, close the dialog with its close button, then press "Add Image". The dialog is titled "Edit Image", is prefilled, and saving updates the image edited before. | "Add" opens the empty form and saving creates a new row. | not executed | Store.AddAfterDismissedEditAsWritten | Store.OpenAdd |
