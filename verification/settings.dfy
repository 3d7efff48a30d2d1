/** The settings screen (admin only): the key/value `settings` rows folded into a map, the
    three forms loaded from it, the opening-hours editor, and the three upserts. */
module Settings {
  import opened Wrappers
  import opened Store
  import opened AdminLayout
  import opened UserRole
  import Schema

  /** A JSON value as the `settings.value` column holds it.  Numbers are integers here. */
  datatype Json =
    | JNull
    | JBool(b: bool)
    | JNum(n: int)
    | JStr(s: string)
    | JArr(items: seq<Json>)
    | JObj(fields: map<string, Json>)

  /** JavaScript truthiness of a JSON value. */
  predicate Truthy(j: Json) {
    match j
    case JNull => false
    case JBool(b) => b
    case JNum(n) => n != 0
    case JStr(s) => s != ""
    case JArr(_) => true
    case JObj(_) => true
  }

  /** A `settings` row; a null value is `JNull`. */
  datatype SettingRow = SettingRow(key: string, value: Json, updatedBy: Option<Id>)

  /** `data.reduce((acc, s) => { acc[s.key] = s.value; return acc }, {})`. */
  function SettingsMap(rows: seq<SettingRow>): (m: map<string, Json>)
    ensures forall i :: 0 <= i < |rows| ==> rows[i].key in m
  {
    if |rows| == 0 then map[]
    else
      var last := rows[|rows| - 1];
      var m := SettingsMap(rows[..|rows| - 1]);
      assert forall i :: 0 <= i < |rows| - 1 ==> rows[..|rows| - 1][i] == rows[i];
      m[last.key := last.value]
  }

  /** Row `i` is the last row with key `k`. */
  predicate LastWith(rows: seq<SettingRow>, k: string, i: int) {
    0 <= i < |rows| && rows[i].key == k && forall j :: i < j < |rows| ==> rows[j].key != k
  }

  /** Of several rows with the same key, the one listed last wins. */
  lemma {:induction false} LastRowWins(rows: seq<SettingRow>, k: string)
    requires k in SettingsMap(rows)
    ensures exists i :: LastWith(rows, k, i) && SettingsMap(rows)[k] == rows[i].value
  {
    var n := |rows| - 1;
    if rows[n].key == k {
      assert LastWith(rows, k, n);
    } else {
      var init := rows[..n];
      assert SettingsMap(rows) == SettingsMap(init)[rows[n].key := rows[n].value];
      LastRowWins(init, k);
      var i :| LastWith(init, k, i) && SettingsMap(init)[k] == init[i].value;
      assert init[i] == rows[i];
      assert forall j :: i < j < n ==> init[j] == rows[j];
      assert LastWith(rows, k, i);
    }
  }

  /** The rows list the table exactly: one row per key, each the stored one. */
  predicate Lists(rows: seq<SettingRow>, table: map<string, SettingRow>) {
    (forall i, j :: 0 <= i < j < |rows| ==> rows[i].key != rows[j].key)
    && (forall i :: 0 <= i < |rows| ==> rows[i].key in table && table[rows[i].key] == rows[i])
    && (forall k :: k in table ==> exists i :: 0 <= i < |rows| && rows[i].key == k)
  }

  /** Whatever order the rows arrive in, every stored key maps to its stored value. */
  lemma LoadedValues(rows: seq<SettingRow>, table: map<string, SettingRow>, k: string)
    requires Lists(rows, table) && k in table
    ensures k in SettingsMap(rows) && SettingsMap(rows)[k] == table[k].value
  {
    var m := SettingsMap(rows);
    var i :| 0 <= i < |rows| && rows[i].key == k;
    LastRowWins(rows, k);
    var j :| LastWith(rows, k, j) && m[k] == rows[j].value;
    assert i == j;
  }

  const ContactKey := "contact_info"
  const HoursKey := "opening_hours"
  const SocialKey := "social_links"

  /** The three form states. */
  datatype Forms = Forms(contact: Json, hours: Json, social: Json)

  /** A loaded value replaces a form's state only when it is truthy. */
  function Loaded(current: Json, m: map<string, Json>, key: string): (r: Json)
    ensures key in m && Truthy(m[key]) ==> r == m[key]
    ensures !(key in m && Truthy(m[key])) ==> r == current
  {
    if key in m && Truthy(m[key]) then m[key] else current
  }

  /** What the query function does to the three forms once the rows arrive. */
  function ApplyLoaded(f: Forms, m: map<string, Json>): (g: Forms)
    ensures g.contact == Loaded(f.contact, m, ContactKey)
    ensures g.hours == Loaded(f.hours, m, HoursKey)
    ensures g.social == Loaded(f.social, m, SocialKey)
  {
    Forms(Loaded(f.contact, m, ContactKey), Loaded(f.hours, m, HoursKey), Loaded(f.social, m, SocialKey))
  }

  /** The query runs again whenever the list is refetched; loading the same rows a second
      time changes no form, and a form whose stored value is missing or falsy keeps what it
      had. */
  lemma ReloadIsIdempotent(f: Forms, m: map<string, Json>)
    ensures ApplyLoaded(ApplyLoaded(f, m), m) == ApplyLoaded(f, m)
    ensures !(ContactKey in m && Truthy(m[ContactKey])) ==> ApplyLoaded(f, m).contact == f.contact
    ensures !(HoursKey in m && Truthy(m[HoursKey])) ==> ApplyLoaded(f, m).hours == f.hours
    ensures !(SocialKey in m && Truthy(m[SocialKey])) ==> ApplyLoaded(f, m).social == f.social
  {
  }

  /** The map `{ k: v }` for each `k` of `keys`. */
  function Uniform(keys: seq<string>, v: Json): (m: map<string, Json>)
    ensures forall k :: k in m <==> k in keys
    ensures forall k :: k in m ==> m[k] == v
  {
    if |keys| == 0 then map[] else Uniform(keys[1..], v)[keys[0] := v]
  }

  const Days := ["monday", "tuesday", "wednesday", "thursday", "friday", "saturday", "sunday"]

  /** One day of the default schedule. */
  const StandardDay := JObj(map["open" := JStr("09:00"), "close" := JStr("22:00"), "closed" := JBool(false)])

  const DefaultContact := JObj(Uniform(["phone", "email", "address", "whatsapp"], JStr("")))
  const DefaultHours := JObj(Uniform(Days, StandardDay))
  const DefaultSocial := JObj(Uniform(["facebook", "instagram", "website"], JStr("")))
  const DefaultForms := Forms(DefaultContact, DefaultHours, DefaultSocial)

  /** Until something truthy is loaded, every listed day opens 09:00-22:00, and only
      the listed days are in the schedule. */
  lemma DefaultSchedule(m: map<string, Json>, d: string)
    requires !(HoursKey in m && Truthy(m[HoursKey]))
    ensures var hours := ApplyLoaded(DefaultForms, m).hours;
            hours.JObj? && (d in hours.fields <==> d in Days)
            && (d in Days ==> hours.fields[d] == StandardDay)
  {
  }

  /** The own properties that spreading a value contributes (`{ ...j }`). */
  function Fields(j: Json): map<string, Json> {
    if j.JObj? then j.fields else map[]
  }

  /** `j[k]` for a property lookup; a missing property reads as null. */
  function Member(j: Json, k: string): Json {
    if j.JObj? && k in j.fields then j.fields[k] else JNull
  }

  /** `updateOpeningHours(day, field, value)`:
      `{ ...prev, [day]: { ...prev[day], [field]: value } }`. */
  function UpdateOpeningHours(prev: Json, day: string, field: string, v: Json): (r: Json)
    ensures r.JObj? && r.fields.Keys == Fields(prev).Keys + {day}
    ensures Member(Member(r, day), field) == v
    ensures Fields(Member(r, day)).Keys == Fields(Member(prev, day)).Keys + {field}
    ensures forall g :: g in Fields(Member(prev, day)) && g != field ==>
              Member(Member(r, day), g) == Fields(Member(prev, day))[g]
    ensures forall d :: d in Fields(prev) && d != day ==> r.fields[d] == Fields(prev)[d]
  {
    JObj(Fields(prev)[day := JObj(Fields(Member(prev, day))[field := v])])
  }

  /** Editing the same field twice keeps only the second value. */
  lemma UpdateLastWins(prev: Json, day: string, field: string, v: Json, w: Json)
    ensures UpdateOpeningHours(UpdateOpeningHours(prev, day, field, v), day, field, w)
            == UpdateOpeningHours(prev, day, field, w)
  {
    var a := UpdateOpeningHours(UpdateOpeningHours(prev, day, field, v), day, field, w);
    var b := UpdateOpeningHours(prev, day, field, w);
    assert a.fields[day] == b.fields[day];
  }

  /** Edits to different days, or to different fields, do not interfere. */
  lemma UpdatesCommute(prev: Json, d1: string, f1: string, v1: Json, d2: string, f2: string, v2: Json)
    requires d1 != d2 || f1 != f2
    ensures UpdateOpeningHours(UpdateOpeningHours(prev, d1, f1, v1), d2, f2, v2)
            == UpdateOpeningHours(UpdateOpeningHours(prev, d2, f2, v2), d1, f1, v1)
  {
    if d1 == d2 {
      SameDayCommute(prev, d1, f1, v1, f2, v2);
    } else {
      OtherDayCommute(prev, d1, f1, v1, d2, f2, v2);
    }
  }

  lemma SameDayCommute(prev: Json, d: string, f1: string, v1: Json, f2: string, v2: Json)
    requires f1 != f2
    ensures UpdateOpeningHours(UpdateOpeningHours(prev, d, f1, v1), d, f2, v2)
            == UpdateOpeningHours(UpdateOpeningHours(prev, d, f2, v2), d, f1, v1)
  {
    var day := Fields(Member(prev, d));
    assert day[f1 := v1][f2 := v2] == day[f2 := v2][f1 := v1];
  }

  lemma OtherDayCommute(prev: Json, d1: string, f1: string, v1: Json, d2: string, f2: string, v2: Json)
    requires d1 != d2
    ensures UpdateOpeningHours(UpdateOpeningHours(prev, d1, f1, v1), d2, f2, v2)
            == UpdateOpeningHours(UpdateOpeningHours(prev, d2, f2, v2), d1, f1, v1)
  {
    var x1 := JObj(Fields(Member(prev, d1))[f1 := v1]);
    var x2 := JObj(Fields(Member(prev, d2))[f2 := v2]);
    assert Member(UpdateOpeningHours(prev, d1, f1, v1), d2) == Member(prev, d2);
    assert Member(UpdateOpeningHours(prev, d2, f2, v2), d1) == Member(prev, d1);
    assert Fields(prev)[d1 := x1][d2 := x2] == Fields(prev)[d2 := x2][d1 := x1];
  }

  /** The settings write as the screen sends it.  `upsert({ key, value, updated_by })` names
      no conflict target and no `id`, so the store looks for a conflict on the primary key
      `id`, whose default is fresh: the row is added beside any row with the same key.  (If
      the database made `key` unique, the write would be refused instead: the `Fail`
      outcome.)  The table is a bag of rows here. */
  function UpsertAsWritten(rows: seq<SettingRow>, key: string, value: Json, user: Option<Id>, outcome: Outcome)
    : (r: seq<SettingRow>)
    ensures outcome.Fail? ==> r == rows
    ensures outcome.Ok? ==> multiset(r) == multiset(rows) + multiset{SettingRow(key, value, user)}
  {
    if outcome.Ok? then rows + [SettingRow(key, value, user)] else rows
  }

  /** As written, saving a new value under a key that already has a row keeps the old row,
      and `select('*')` promises no order: some listing of the table reloads a value other
      than the one just saved. */
  lemma ReloadMayShowOldValueAsWritten(rows: seq<SettingRow>, i: nat, v: Json, user: Option<Id>)
    requires i < |rows| && rows[i].value != v
    ensures var after := UpsertAsWritten(rows, rows[i].key, v, user, Ok);
            exists listing :: multiset(listing) == multiset(after)
              && rows[i].key in SettingsMap(listing) && SettingsMap(listing)[rows[i].key] != v
  {
    var k := rows[i].key;
    var row := SettingRow(k, v, user);
    var listing := [row] + rows[..i] + rows[i + 1..] + [rows[i]];
    assert rows == rows[..i] + [rows[i]] + rows[i + 1..];
    assert multiset(listing) == multiset(rows) + multiset{row};
    assert listing[..|listing| - 1] == [row] + rows[..i] + rows[i + 1..];
    assert SettingsMap(listing) == SettingsMap(listing[..|listing| - 1])[k := rows[i].value];
  }

  /** The `settings` table keyed by `key`. */
  type SettingsTable = map<string, SettingRow>

  /** `updateSettingMutation` as evidently intended, `upsert(..., { onConflict: 'key' })`:
      the row with this key is replaced; on error nothing is written. */
  function Upsert(table: SettingsTable, key: string, value: Json, user: Option<Id>, outcome: Outcome)
    : (w: Written<SettingRow>)
    ensures w.outcome == outcome
    ensures outcome.Fail? ==> w.table == table
    ensures outcome.Ok? ==> w.table.Keys == table.Keys + {key} && w.table[key] == SettingRow(key, value, user)
    ensures forall k :: k in table && k != key ==> k in w.table && w.table[k] == table[k]
  {
    if outcome.Ok? then Written(table[key := SettingRow(key, value, user)], Ok) else Written(table, Fail)
  }

  /** The three submit buttons, each writing its form under its own key. */
  function SubmitContact(f: Forms, table: SettingsTable, user: Option<Id>, outcome: Outcome): (w: Written<SettingRow>)
    ensures outcome.Ok? ==> ContactKey in w.table && w.table[ContactKey].value == f.contact && w.table[ContactKey].updatedBy == user
    ensures forall k :: k in table && (k != ContactKey || outcome.Fail?) ==> k in w.table && w.table[k] == table[k]
  {
    Upsert(table, ContactKey, f.contact, user, outcome)
  }

  function SubmitHours(f: Forms, table: SettingsTable, user: Option<Id>, outcome: Outcome): (w: Written<SettingRow>)
    ensures outcome.Ok? ==> HoursKey in w.table && w.table[HoursKey].value == f.hours && w.table[HoursKey].updatedBy == user
    ensures forall k :: k in table && (k != HoursKey || outcome.Fail?) ==> k in w.table && w.table[k] == table[k]
  {
    Upsert(table, HoursKey, f.hours, user, outcome)
  }

  function SubmitSocial(f: Forms, table: SettingsTable, user: Option<Id>, outcome: Outcome): (w: Written<SettingRow>)
    ensures outcome.Ok? ==> SocialKey in w.table && w.table[SocialKey].value == f.social && w.table[SocialKey].updatedBy == user
    ensures forall k :: k in table && (k != SocialKey || outcome.Fail?) ==> k in w.table && w.table[k] == table[k]
  {
    Upsert(table, SocialKey, f.social, user, outcome)
  }

  /** Saving the opening hours and reloading brings the saved schedule back into the
      form (a truthy value, as every object is), and leaves the other two forms to
      whatever is stored for them. */
  lemma SaveThenReload(f: Forms, table: SettingsTable, user: Option<Id>, rows: seq<SettingRow>, g: Forms)
    requires Truthy(f.hours)
    requires Lists(rows, SubmitHours(f, table, user, Ok).table)
    ensures ApplyLoaded(g, SettingsMap(rows)).hours == f.hours
    ensures ContactKey in table ==>
              ApplyLoaded(g, SettingsMap(rows)).contact == Loaded(g.contact, map[ContactKey := table[ContactKey].value], ContactKey)
  {
    var t := SubmitHours(f, table, user, Ok).table;
    LoadedValues(rows, t, HoursKey);
    if ContactKey in table {
      LoadedValues(rows, t, ContactKey);
    }
  }

  /** The page checks the role before the loading flag, so a non-admin sees the denial
      even while loading; unlike the staff page, the query itself is not switched off.  The
      role comes from the page's own hook instance, so an admin is denied as well until
      that instance's role query settles. */
  function SettingsQueryEnabled(isAdmin: bool): bool { true }

  lemma NonAdminDenied(isAdmin: bool, isLoading: bool, events: seq<Event>)
    ensures AdminPageView(isAdmin, isLoading) == PageDenied <==> !isAdmin
    ensures SettingsQueryEnabled(isAdmin)
    ensures AdminPageView(IsAdmin(Initial.role), isLoading) == PageDenied
    ensures AdminPageView(IsAdmin(Run(events).role), isLoading) != PageDenied <==>
              |events| > 0 && events[|events| - 1] == QuerySettled(RoleRow(Schema.Admin))
  {
    PageDeniesUntilOwnQuerySettles("", events, isLoading);
  }
}
