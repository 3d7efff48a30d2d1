/** The fixed vocabularies of the database (`app_role`, `gallery_category`, `menu_category`,
    `reservation_status`), the `Constants` arrays that list them at run time, and the column
    shapes of the inserts the admin screens issue. */
module Schema {
  import opened Wrappers
  import opened Seqs

  datatype AppRole = Admin | Staff
  datatype GalleryCategory = Interior | Dishes | Events | Drinks | Exterior
  datatype MenuCategory =
    | Breakfast | Tajines | Juices | Pastries | DailySpecials | Coffee | Desserts | Sandwiches
  datatype ReservationStatus = Pending | Confirmed | Cancelled | Completed

  /** The members of each union type, in the order the union lists them. */
  const AppRoles: seq<AppRole> := [Admin, Staff]
  const GalleryCategories: seq<GalleryCategory> := [Interior, Dishes, Events, Drinks, Exterior]
  const MenuCategories: seq<MenuCategory> :=
    [Breakfast, Tajines, Juices, Pastries, DailySpecials, Coffee, Desserts, Sandwiches]
  const ReservationStatuses: seq<ReservationStatus> := [Pending, Confirmed, Cancelled, Completed]

  /** The string literal of each union member. */
  function AppRoleName(r: AppRole): string {
    match r
    case Admin => "admin"
    case Staff => "staff"
  }

  function GalleryCategoryName(c: GalleryCategory): string {
    match c
    case Interior => "interior"
    case Dishes => "dishes"
    case Events => "events"
    case Drinks => "drinks"
    case Exterior => "exterior"
  }

  function MenuCategoryName(c: MenuCategory): string {
    match c
    case Breakfast => "breakfast"
    case Tajines => "tajines"
    case Juices => "juices"
    case Pastries => "pastries"
    case DailySpecials => "daily_specials"
    case Coffee => "coffee"
    case Desserts => "desserts"
    case Sandwiches => "sandwiches"
  }

  function ReservationStatusName(s: ReservationStatus): string {
    match s
    case Pending => "pending"
    case Confirmed => "confirmed"
    case Cancelled => "cancelled"
    case Completed => "completed"
  }

  /** `Constants.public.Enums`: the run-time arrays, written out as the source writes them. */
  const AppRoleConstants: seq<string> := ["admin", "staff"]
  const GalleryCategoryConstants: seq<string> := ["interior", "dishes", "events", "drinks", "exterior"]
  const MenuCategoryConstants: seq<string> :=
    ["breakfast", "tajines", "juices", "pastries", "daily_specials", "coffee", "desserts", "sandwiches"]
  const ReservationStatusConstants: seq<string> := ["pending", "confirmed", "cancelled", "completed"]

  /** The names of `order`, element by element. */
  function Names<E>(order: seq<E>, name: E -> string): (r: seq<string>)
    ensures |r| == |order|
    ensures forall i :: 0 <= i < |order| ==> r[i] == name(order[i])
  {
    if |order| == 0 then [] else [name(order[0])] + Names(order[1..], name)
  }

  /** The member of `order` whose name is `s`, if any: how a string read from the database
      becomes a union member. */
  function FindByName<E>(order: seq<E>, name: E -> string, s: string): (r: Option<E>)
    ensures r.Some? ==> r.value in order && name(r.value) == s
    ensures r.None? ==> forall i :: 0 <= i < |order| ==> name(order[i]) != s
  {
    if |order| == 0 then None
    else if name(order[0]) == s then Some(order[0])
    else FindByName(order[1..], name, s)
  }

  function ParseAppRole(s: string): Option<AppRole> { FindByName(AppRoles, AppRoleName, s) }
  function ParseGalleryCategory(s: string): Option<GalleryCategory> {
    FindByName(GalleryCategories, GalleryCategoryName, s)
  }
  function ParseMenuCategory(s: string): Option<MenuCategory> {
    FindByName(MenuCategories, MenuCategoryName, s)
  }
  function ParseReservationStatus(s: string): Option<ReservationStatus> {
    FindByName(ReservationStatuses, ReservationStatusName, s)
  }

  /** Everything an enumeration promises: `order` lists every member exactly once, the names
      are pairwise distinct, the run-time array is exactly the names in union order, and
      parsing a name gives its member back while no other string parses. */
  ghost predicate EnumAgrees<E(!new)>(order: seq<E>, name: E -> string, constants: seq<string>) {
    && (forall e :: e in order)
    && Distinct(order)
    && Distinct(constants)
    && constants == Names(order, name)
    && (forall e :: FindByName(order, name, name(e)) == Some(e))
    && (forall s :: FindByName(order, name, s).Some? <==> s in constants)
  }

  /** If the names are distinct, looking a member's name up finds that member. */
  lemma {:induction false} FindByNameRoundTrip<E>(order: seq<E>, name: E -> string, e: E)
    requires e in order
    requires Distinct(Names(order, name))
    ensures FindByName(order, name, name(e)) == Some(e)
  {
    var k :| 0 <= k < |order| && order[k] == e;
    if k > 0 {
      var names := Names(order, name);
      assert names[0] == name(order[0]) && names[k] == name(e);
      assert Names(order[1..], name) == names[1..];
      FindByNameRoundTrip(order[1..], name, e);
    }
  }

  /** The four facts each enumeration is checked against one by one, and what follows. */
  lemma EnumAgreesFrom<E(!new)>(order: seq<E>, name: E -> string, constants: seq<string>)
    requires forall e :: e in order
    requires |constants| == |order|
    requires forall i :: 0 <= i < |order| ==> constants[i] == name(order[i])
    requires Distinct(constants)
    ensures EnumAgrees(order, name, constants)
  {
    var names := Names(order, name);
    assert names == constants;
    forall e ensures FindByName(order, name, name(e)) == Some(e) {
      FindByNameRoundTrip(order, name, e);
    }
    forall s ensures FindByName(order, name, s).Some? <==> s in constants {
      if FindByName(order, name, s).Some? {
        var k :| 0 <= k < |order| && order[k] == FindByName(order, name, s).value;
        assert constants[k] == s;
      }
    }
  }

  lemma AppRoleEnum()
    ensures |AppRoles| == 2
    ensures EnumAgrees(AppRoles, AppRoleName, AppRoleConstants)
  {
    forall e: AppRole ensures e in AppRoles {
      match e
      case Admin => assert AppRoles[0] == e;
      case Staff => assert AppRoles[1] == e;
    }
    EnumAgreesFrom(AppRoles, AppRoleName, AppRoleConstants);
  }

  lemma GalleryCategoryEnum()
    ensures |GalleryCategories| == 5
    ensures EnumAgrees(GalleryCategories, GalleryCategoryName, GalleryCategoryConstants)
  {
    forall e: GalleryCategory ensures e in GalleryCategories {
      match e
      case Interior => assert GalleryCategories[0] == e;
      case Dishes => assert GalleryCategories[1] == e;
      case Events => assert GalleryCategories[2] == e;
      case Drinks => assert GalleryCategories[3] == e;
      case Exterior => assert GalleryCategories[4] == e;
    }
    EnumAgreesFrom(GalleryCategories, GalleryCategoryName, GalleryCategoryConstants);
  }

  lemma MenuCategoryEnum()
    ensures |MenuCategories| == 8
    ensures EnumAgrees(MenuCategories, MenuCategoryName, MenuCategoryConstants)
  {
    forall e: MenuCategory ensures e in MenuCategories {
      match e
      case Breakfast => assert MenuCategories[0] == e;
      case Tajines => assert MenuCategories[1] == e;
      case Juices => assert MenuCategories[2] == e;
      case Pastries => assert MenuCategories[3] == e;
      case DailySpecials => assert MenuCategories[4] == e;
      case Coffee => assert MenuCategories[5] == e;
      case Desserts => assert MenuCategories[6] == e;
      case Sandwiches => assert MenuCategories[7] == e;
    }
    EnumAgreesFrom(MenuCategories, MenuCategoryName, MenuCategoryConstants);
  }

  lemma ReservationStatusEnum()
    ensures |ReservationStatuses| == 4
    ensures EnumAgrees(ReservationStatuses, ReservationStatusName, ReservationStatusConstants)
  {
    forall e: ReservationStatus ensures e in ReservationStatuses {
      match e
      case Pending => assert ReservationStatuses[0] == e;
      case Confirmed => assert ReservationStatuses[1] == e;
      case Cancelled => assert ReservationStatuses[2] == e;
      case Completed => assert ReservationStatuses[3] == e;
    }
    EnumAgreesFrom(ReservationStatuses, ReservationStatusName, ReservationStatusConstants);
  }

  /** One column of an insert shape: whether the insert must supply it, and whether it may
      be null when supplied. */
  datatype Column = Column(name: string, required: bool, nullable: bool)

  /** `menu_items.Insert`, in two halves. */
  const MenuItemsInsert: seq<Column> := MenuItemsInsertHead + MenuItemsInsertTail
  const MenuItemsInsertHead: seq<Column> := [
    Column("category", true, false),
    Column("created_at", false, true),
    Column("description", false, true),
    Column("description_arabic", false, true),
    Column("id", false, false),
    Column("image_url", false, true),
    Column("is_active", false, true)
  ]
  const MenuItemsInsertTail: seq<Column> := [
    Column("is_special", false, true),
    Column("name", true, false),
    Column("name_arabic", false, true),
    Column("price", true, false),
    Column("special_day", false, true),
    Column("updated_at", false, true)
  ]

  /** `reservations.Insert`, in two halves. */
  const ReservationsInsert: seq<Column> := ReservationsInsertHead + ReservationsInsertTail
  const ReservationsInsertHead: seq<Column> := [
    Column("created_at", false, true),
    Column("customer_email", false, true),
    Column("customer_name", true, false),
    Column("customer_phone", true, false),
    Column("id", false, false)
  ]
  const ReservationsInsertTail: seq<Column> := [
    Column("number_of_guests", true, false),
    Column("reservation_date", true, false),
    Column("reservation_time", true, false),
    Column("special_requests", false, true),
    Column("status", false, true),
    Column("updated_at", false, true)
  ]

  /** `user_roles.Insert`. */
  const UserRolesInsert: seq<Column> := [
    Column("id", false, false),
    Column("role", true, false),
    Column("user_id", true, false)
  ]

  /** The columns an insert must name, in declaration order. */
  function RequiredNames(cols: seq<Column>): (r: seq<string>)
    ensures |r| <= |cols|
  {
    if |cols| == 0 then []
    else (if cols[0].required then [cols[0].name] else []) + RequiredNames(cols[1..])
  }

  /** The required columns of two column lists, one after the other. */
  lemma {:induction false} RequiredNamesAppend(a: seq<Column>, b: seq<Column>)
    ensures RequiredNames(a + b) == RequiredNames(a) + RequiredNames(b)
  {
    if |a| == 0 {
      assert a + b == b;
    } else {
      assert (a + b)[0] == a[0];
      assert (a + b)[1..] == a[1..] + b;
      RequiredNamesAppend(a[1..], b);
    }
  }

  /** A menu item insert must name category, name and price, and no other column. */
  lemma MenuItemsRequiredColumns()
    ensures RequiredNames(MenuItemsInsert) == ["category", "name", "price"]
  {
    RequiredNamesAppend(MenuItemsInsertHead, MenuItemsInsertTail);
  }

  /** A reservation insert must name the customer's name and phone, the guest count, the date
      and the time, and no other column. */
  lemma ReservationsRequiredColumns()
    ensures RequiredNames(ReservationsInsert) ==
      ["customer_name", "customer_phone", "number_of_guests", "reservation_date", "reservation_time"]
  {
    RequiredNamesAppend(ReservationsInsertHead, ReservationsInsertTail);
  }

  /** A reservation's `status` may be left out of an insert, and may be null when given. */
  lemma ReservationStatusOptional()
    ensures Column("status", false, true) in ReservationsInsert
    ensures forall c :: c in ReservationsInsert && c.name == "status" ==> !c.required && c.nullable
  {
  }

  /** A role assignment insert names its user and its one role, neither of them nullable. */
  lemma UserRolesInsertShape()
    ensures RequiredNames(UserRolesInsert) == ["role", "user_id"]
    ensures forall c :: c in UserRolesInsert && c.required ==> !c.nullable
  {
    assert UserRolesInsert[1].name == "role" && UserRolesInsert[2].name == "user_id";
  }
}
