/** The menu screen: the menu-item rows, the add/edit form (initialised from the item with
    `||` and `??` fallbacks), the visibility toggle and the category labels. */
module Menu {
  import opened Wrappers
  import opened Store
  import opened Schema
  import Text

  /** A `menu_items` row.  Prices are kept as integers. */
  datatype MenuItem = MenuItem(
    id: Id,
    name: string,
    nameArabic: Option<string>,
    description: Option<string>,
    descriptionArabic: Option<string>,
    category: MenuCategory,
    price: int,
    imageUrl: Option<string>,
    isActive: Option<bool>,
    isSpecial: Option<bool>,
    specialDay: Option<string>,
    createdAt: Option<int>)

  /** The form's data: every column as a plain value. */
  datatype MenuDraft = MenuDraft(
    name: string,
    nameArabic: string,
    description: string,
    descriptionArabic: string,
    category: MenuCategory,
    price: int,
    imageUrl: string,
    isActive: bool,
    isSpecial: bool,
    specialDay: string)

  /** `s || ''` on a nullable string: null and the empty string both give "". */
  function OrEmpty(o: Option<string>): string {
    if o.Some? then o.value else ""
  }

  /** `b ?? true`. */
  function OrTrue(o: Option<bool>): bool {
    if o.Some? then o.value else true
  }

  /** `b || false`: only a stored `true` is true. */
  predicate Truthy(o: Option<bool>) { o == Some(true) }

  const DefaultDraft := MenuDraft("", "", "", "", Breakfast, 0, "", true, false, "")

  /** The form's initial state, from the item being edited or from nothing (adding). */
  function InitialDraft(item: Option<MenuItem>): (d: MenuDraft)
    ensures item.None? ==> d == DefaultDraft
    ensures item.Some? ==> d.isActive == (item.value.isActive != Some(false))
    ensures item.Some? ==> d.isSpecial == (item.value.isSpecial == Some(true))
  {
    match item
    case None => DefaultDraft
    case Some(it) =>
      MenuDraft(it.name, OrEmpty(it.nameArabic), OrEmpty(it.description), OrEmpty(it.descriptionArabic),
                it.category, it.price, OrEmpty(it.imageUrl), OrTrue(it.isActive), Truthy(it.isSpecial),
                OrEmpty(it.specialDay))
  }

  /** The columns an add (`insert([formData])`) or an edit (`update({ ...formData, id })`)
      writes: all of them, empty strings included. */
  function WriteDraft(item: MenuItem, d: MenuDraft): (r: MenuItem)
    ensures r.id == item.id && r.createdAt == item.createdAt
    ensures InitialDraft(Some(r)) == d
  {
    item.(name := d.name, nameArabic := Some(d.nameArabic), description := Some(d.description),
          descriptionArabic := Some(d.descriptionArabic), category := d.category, price := d.price,
          imageUrl := Some(d.imageUrl), isActive := Some(d.isActive), isSpecial := Some(d.isSpecial),
          specialDay := Some(d.specialDay))
  }

  /** A row none of whose nullable columns is null. */
  predicate NoNulls(item: MenuItem) {
    item.nameArabic.Some? && item.description.Some? && item.descriptionArabic.Some?
    && item.imageUrl.Some? && item.isActive.Some? && item.isSpecial.Some? && item.specialDay.Some?
  }

  /** Opening an item and saving it untouched writes it back unchanged when it has no nulls;
      otherwise the nulls become "" / true / false, after which the row is stable. */
  lemma UntouchedEdit(item: MenuItem)
    ensures NoNulls(WriteDraft(item, InitialDraft(Some(item))))
    ensures NoNulls(item) ==> WriteDraft(item, InitialDraft(Some(item))) == item
    ensures var once := WriteDraft(item, InitialDraft(Some(item)));
            WriteDraft(once, InitialDraft(Some(once))) == once
  {
    var once := WriteDraft(item, InitialDraft(Some(item)));
    if NoNulls(item) {
      assert once.nameArabic == item.nameArabic && once.description == item.description;
      assert once.descriptionArabic == item.descriptionArabic && once.imageUrl == item.imageUrl;
      assert once.isActive == item.isActive;
      assert Truthy(item.isSpecial) == item.isSpecial.value;
      assert once.specialDay == item.specialDay;
    }
  }

  /** The card shows an item as hidden unless `is_active` is stored `true`. */
  predicate ShownHidden(item: MenuItem) { !Truthy(item.isActive) }

  /** An item whose `is_active` is null is shown as hidden, but the edit form starts from
      `?? true`, so saving an unrelated change makes it visible. */
  lemma UntouchedEditOfNullActive(item: MenuItem)
    requires item.isActive.None?
    ensures ShownHidden(item)
    ensures !ShownHidden(WriteDraft(item, InitialDraft(Some(item))))
  {
  }

  /** Unticking "Special Item" only hides the day's input: the day is still written. */
  lemma UntickedSpecialKeepsDay(item: MenuItem, d: MenuDraft)
    ensures var r := WriteDraft(item, d.(isSpecial := false));
            r.isSpecial == Some(false) && r.specialDay == Some(d.specialDay)
  {
  }

  /** `toggleVisibilityMutation` from a card: it sends `!item.is_active` for the item as the
      card last rendered it (`shown`), which lags behind the store until the list is
      refetched.  The item becomes hidden exactly when the card showed it visible. */
  function ToggleVisibility(t: map<Id, MenuItem>, id: Id, shown: Option<bool>, net: Outcome)
    : (w: Written<MenuItem>)
    ensures w.table.Keys == t.Keys && w.outcome == net
    ensures forall k :: k in t && k != id ==> w.table[k] == t[k]
    ensures id in t && net.Ok? ==>
              ShownHidden(w.table[id]) == Truthy(shown) && w.table[id].isActive.Some?
              && w.table[id] == t[id].(isActive := w.table[id].isActive)
    ensures id in t && net.Fail? ==> w.table[id] == t[id]
  {
    UpdateById(t, id, (r: MenuItem) => r.(isActive := Some(!Truthy(shown))), net)
  }

  /** Two clicks with the list refetched in between: the card shows the item as it was,
      and the column itself comes back exactly when it was not null. */
  lemma ToggleTwice(t: map<Id, MenuItem>, id: Id)
    requires id in t
    ensures var once := ToggleVisibility(t, id, t[id].isActive, Ok).table;
            var twice := ToggleVisibility(once, id, once[id].isActive, Ok).table;
            ShownHidden(twice[id]) == ShownHidden(t[id])
            && (twice == t <==> t[id].isActive.Some?)
  {
    var once := ToggleVisibility(t, id, t[id].isActive, Ok).table;
    var twice := ToggleVisibility(once, id, once[id].isActive, Ok).table;
    assert once[id].isActive == Some(!Truthy(t[id].isActive));
    assert twice[id].isActive == Some(!Truthy(once[id].isActive));
    assert Truthy(once[id].isActive) == once[id].isActive.value;
    if t[id].isActive.Some? {
      assert Truthy(t[id].isActive) == t[id].isActive.value;
      assert twice[id] == t[id];
      assert twice == t;
    } else {
      assert twice[id] != t[id];
    }
  }

  /** Two clicks before the list is refetched both come from the same rendered card, so
      they send the same value: the second click does not flip the item back. */
  lemma DoubleClickBeforeRefetch(t: map<Id, MenuItem>, id: Id, shown: Option<bool>)
    requires id in t
    ensures var once := ToggleVisibility(t, id, shown, Ok).table;
            ToggleVisibility(once, id, shown, Ok).table == once
  {
    var once := ToggleVisibility(t, id, shown, Ok).table;
    assert ToggleVisibility(once, id, shown, Ok).table[id] == once[id];
  }

  /** The state the menu page keeps around its dialogs: whether the add dialog is open, and
      which item the edit dialog shows. */
  datatype MenuPage = MenuPage(addOpen: bool, editing: Option<MenuItem>)

  /** An add that comes back: success closes the add dialog, failure leaves it open. */
  function AddSettled(p: MenuPage, outcome: Outcome): (q: MenuPage)
    ensures q.editing == p.editing
    ensures q.addOpen <==> p.addOpen && outcome.Fail?
  {
    if outcome.Ok? then p.(addOpen := false) else p
  }

  /** An edit that comes back: success closes the edit dialog, failure leaves it open. */
  function UpdateSettled(p: MenuPage, outcome: Outcome): (q: MenuPage)
    ensures q.addOpen == p.addOpen
    ensures q.editing.None? <==> p.editing.None? || outcome.Ok?
  {
    if outcome.Ok? then p.(editing := None) else p
  }

  /** Adding writes every column of the form under the id the store picks; editing writes
      every column of the form over the edited row. */
  function CommitAdd(t: map<Id, MenuItem>, freshId: Id, d: MenuDraft, now: Option<int>, net: Outcome)
    : (w: Written<MenuItem>)
    ensures w.outcome.Ok? <==> net.Ok? && freshId !in t
    ensures w.outcome.Fail? ==> w.table == t
    ensures w.outcome.Ok? ==> w.table.Keys == t.Keys + {freshId}
    ensures w.outcome.Ok? ==> freshId in w.table && InitialDraft(Some(w.table[freshId])) == d
    ensures forall k :: k in t ==> k in w.table && w.table[k] == t[k]
  {
    var blank := MenuItem(freshId, "", None, None, None, Breakfast, 0, None, None, None, None, now);
    InsertRow(t, freshId, WriteDraft(blank, d), net)
  }

  /** The edit ends in `.select().single()`, so unlike the other updates an edit whose row is
      gone matches nothing and fails with `PGRST116`, keeping the edit dialog open. */
  function CommitEdit(t: map<Id, MenuItem>, id: Id, d: MenuDraft, net: Outcome): (w: Written<MenuItem>)
    ensures w.table.Keys == t.Keys
    ensures w.outcome.Ok? <==> net.Ok? && id in t
    ensures id in t && net.Ok? ==> InitialDraft(Some(w.table[id])) == d && w.table[id].createdAt == t[id].createdAt
    ensures forall k :: k in t && (k != id || w.outcome.Fail?) ==> w.table[k] == t[k]
  {
    if id in t then UpdateById(t, id, (r: MenuItem) => WriteDraft(r, d), net) else Written(t, Fail)
  }

  /** Saving an edit of an item that is no longer stored fails, even though the store itself
      answered, and the edit dialog stays open on the same item. */
  lemma EditOfMissingItemKeepsDialog(t: map<Id, MenuItem>, id: Id, d: MenuDraft, p: MenuPage)
    requires id !in t && p.editing.Some?
    ensures CommitEdit(t, id, d, Ok).outcome.Fail? && CommitEdit(t, id, d, Ok).table == t
    ensures UpdateSettled(p, CommitEdit(t, id, d, Ok).outcome) == p
  {
  }

  /** The select's options, written out in the screen's order. */
  const CategoryOptions: seq<string> :=
    ["breakfast", "tajines", "juices", "pastries", "daily_specials", "coffee", "desserts", "sandwiches"]

  /** The options are exactly the generated enum's run-time constants, and a string is an
      option exactly when it parses as a category. */
  lemma CategoryOptionsAreTheEnum()
    ensures CategoryOptions == MenuCategoryConstants
    ensures forall s :: ParseMenuCategory(s).Some? <==> s in CategoryOptions
  {
    MenuCategoryEnum();
  }

  /** `cat.replace('_', ' ').toUpperCase()`. */
  function CategoryLabel(c: MenuCategory): string {
    Text.ToUpper(Text.ReplaceFirst(MenuCategoryName(c), '_', ' '))
  }

  /** `s` holds `c` at most once. */
  predicate AtMostOnce(s: string, c: char) {
    forall i, j :: 0 <= i < j < |s| && s[i] == c ==> s[j] != c
  }

  /** Replacing the first underscore and upper-casing leaves no underscore when there was at
      most one; the label keeps the name's length. */
  lemma LabelHasNoUnderscore(s: string)
    requires AtMostOnce(s, '_')
    ensures var r := Text.ToUpper(Text.ReplaceFirst(s, '_', ' '));
            '_' !in r && |r| == |s|
  {
    var m := Text.ReplaceFirst(s, '_', ' ');
    assert '_' !in m by {
      if '_' in s {
        var k := Text.FirstIndex(s, '_').value;
        forall i | 0 <= i < |s| ensures m[i] != '_' {
          if i != k {
            if i < k { assert s[i] != '_' by { assert s[i] in s[..k]; } }
          }
        }
      }
    }
  }

  /** Every category's label is free of underscores and as long as its name. */
  lemma CategoryLabelHasNoUnderscore(c: MenuCategory)
    ensures '_' !in CategoryLabel(c) && |CategoryLabel(c)| == |MenuCategoryName(c)|
  {
    var s := MenuCategoryName(c);
    if c == DailySpecials {
      forall i, j | 0 <= i < j < |s| && s[i] == '_' ensures s[j] != '_' {
        assert i == 5;
      }
    } else {
      assert '_' !in s;
    }
    LabelHasNoUnderscore(s);
  }
}
