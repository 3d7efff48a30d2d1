/** The gallery screen: the image rows, the create/edit dialog, the two status switches, the
    category badge and the file upload. */
module Gallery {
  import opened Wrappers
  import opened Seqs
  import opened Store
  import opened Schema
  import Text

  /** A `gallery_images` row; the two flags are nullable. */
  datatype GalleryImage = GalleryImage(
    id: Id,
    title: string,
    imageUrl: string,
    category: GalleryCategory,
    isActive: Option<bool>,
    isFeatured: Option<bool>,
    uploadedBy: Option<Id>,
    createdAt: Option<int>)

  /** The dialog's form data: the five columns the dialog edits. */
  datatype GalleryDraft = GalleryDraft(
    title: string,
    imageUrl: string,
    category: GalleryCategory,
    isActive: Option<bool>,
    isFeatured: Option<bool>)

  /** The empty form: category dishes, shown, not featured. */
  const DefaultDraft := GalleryDraft("", "", Dishes, Some(true), Some(false))

  /** `handleEdit` copies the five columns into the form as they are, nulls included. */
  function Prefill(image: GalleryImage): GalleryDraft {
    GalleryDraft(image.title, image.imageUrl, image.category, image.isActive, image.isFeatured)
  }

  /** `.update(formData)`: the five columns take the form's values; id, uploader and creation
      time are not part of the form. */
  function ApplyDraft(image: GalleryImage, d: GalleryDraft): (r: GalleryImage)
    ensures Prefill(r) == d
    ensures r.id == image.id && r.uploadedBy == image.uploadedBy && r.createdAt == image.createdAt
  {
    image.(title := d.title, imageUrl := d.imageUrl, category := d.category,
           isActive := d.isActive, isFeatured := d.isFeatured)
  }

  /** Opening a row for editing and saving without touching anything writes the row back
      unchanged, including a category the dialog does not offer and null flags. */
  lemma EditUnchangedIsNoop(image: GalleryImage)
    ensures ApplyDraft(image, Prefill(image)) == image
  {
  }

  /** `insert([{ ...data, uploaded_by: user?.id }])`. */
  function NewImage(id: Id, d: GalleryDraft, user: Option<Id>, createdAt: Option<int>): (r: GalleryImage)
    ensures Prefill(r) == d && r.id == id && r.uploadedBy == user
  {
    GalleryImage(id, d.title, d.imageUrl, d.category, d.isActive, d.isFeatured, user, createdAt)
  }

  /** `handleSubmit` followed by the store's answer.  A create lands under the id the
      store picks; an update rewrites the five columns of the edited row. */
  function Commit(t: map<Id, GalleryImage>, f: FormState<GalleryDraft>, freshId: Id, user: Option<Id>,
                  now: Option<int>, net: Outcome): (w: Written<GalleryImage>)
    ensures f.editing.None? && w.outcome.Ok? ==>
              freshId in w.table && Prefill(w.table[freshId]) == f.draft && w.table[freshId].uploadedBy == user
    ensures f.editing.None? ==> (w.outcome.Ok? <==> net.Ok? && freshId !in t)
    ensures f.editing.None? && w.outcome.Ok? ==> w.table.Keys == t.Keys + {freshId}
    ensures f.editing.Some? ==> w.table.Keys == t.Keys && w.outcome == net
    ensures f.editing.Some? && f.editing.value in t && net.Ok? ==>
              var before := t[f.editing.value];
              var after := w.table[f.editing.value];
              Prefill(after) == f.draft && after.uploadedBy == before.uploadedBy && after.createdAt == before.createdAt
    ensures forall k :: k in t && Some(k) != f.editing ==> k in w.table && w.table[k] == t[k]
    ensures net.Fail? ==> w.table == t && w.outcome.Fail?
  {
    match Submission(f)
    case Create(d) => InsertRow(t, freshId, NewImage(freshId, d, user, now), net)
    case Update(id, d) => UpdateById(t, id, (r: GalleryImage) => ApplyDraft(r, d), net)
  }

  /** `resetForm` after a successful save: the dialog closes, nothing is being edited, and the
      next submit creates a shown, unfeatured dishes image with no title or url.  A failed
      save keeps the form as it was. */
  lemma SaveSettles(f: FormState<GalleryDraft>)
    ensures var g := Settle(f, DefaultDraft, Ok);
            !g.open && g.editing.None? && Submission(g) == Create(g.draft)
            && g.draft.title == "" && g.draft.imageUrl == "" && g.draft.category == Dishes
            && Checked(g.draft.isActive) && !Checked(g.draft.isFeatured)
    ensures Settle(f, DefaultDraft, Fail) == f
  {
  }

  /** The two switches on an image card. */
  datatype StatusField = ActiveField | FeaturedField

  /** A switch shows on only for a stored `true`. */
  predicate Checked(flag: Option<bool>) { flag == Some(true) }

  /** `toggleStatusMutation`: `.update({ [field]: value }).eq('id', id)`. */
  function ToggleStatus(t: map<Id, GalleryImage>, id: Id, field: StatusField, value: bool, net: Outcome)
    : (w: Written<GalleryImage>)
    ensures w.table.Keys == t.Keys && w.outcome == net
    ensures forall k :: k in t && k != id ==> w.table[k] == t[k]
    ensures id in t && net.Ok? ==>
              var r := w.table[id];
              Prefill(r).(isActive := None, isFeatured := None) == Prefill(t[id]).(isActive := None, isFeatured := None)
              && r.uploadedBy == t[id].uploadedBy && r.createdAt == t[id].createdAt
              && (if field == ActiveField then r.isActive == Some(value) && r.isFeatured == t[id].isFeatured
                  else r.isFeatured == Some(value) && r.isActive == t[id].isActive)
    ensures id in t && net.Fail? ==> w.table[id] == t[id]
  {
    UpdateById(t, id, (r: GalleryImage) =>
      if field == ActiveField then r.(isActive := Some(value)) else r.(isFeatured := Some(value)), net)
  }

  /** Flipping a switch writes the opposite of what it shows, so a null flag becomes
      `true`; flipping twice shows the original state again, but a null does not come
      back. */
  lemma FlipTwice(t: map<Id, GalleryImage>, id: Id)
    requires id in t
    ensures var once := ToggleStatus(t, id, ActiveField, !Checked(t[id].isActive), Ok).table;
            var twice := ToggleStatus(once, id, ActiveField, !Checked(once[id].isActive), Ok).table;
            Checked(once[id].isActive) != Checked(t[id].isActive)
            && Checked(twice[id].isActive) == Checked(t[id].isActive)
            && (t[id].isActive.None? ==> twice[id].isActive == Some(false))
  {
  }

  /** The categories the dialog's select offers. */
  const CategoryOptions: seq<GalleryCategory> := [Interior, Dishes, Events]

  /** The dialog offers three of the five categories, none twice; drinks and exterior
      images can only arrive from outside the dialog. */
  lemma CategoryOptionsShape()
    ensures Distinct(CategoryOptions)
    ensures forall i :: 0 <= i < |CategoryOptions| ==> CategoryOptions[i] in GalleryCategories
    ensures Drinks !in CategoryOptions && Exterior !in CategoryOptions
  {
  }

  const Blue := "bg-blue-100 text-blue-800"
  const Green := "bg-green-100 text-green-800"
  const Purple := "bg-purple-100 text-purple-800"
  const Gray := "bg-gray-100 text-gray-800"

  /** `getCategoryColor`: one colour per offered category, gray otherwise. */
  function CategoryColor(c: GalleryCategory): string {
    match c
    case Interior => Blue
    case Dishes => Green
    case Events => Purple
    case _ => Gray
  }

  /** The badge is gray exactly for the categories the dialog does not offer, and tells the
      offered ones apart. */
  lemma CategoryColorDistinguishes()
    ensures forall c :: CategoryColor(c) == Gray <==> c !in CategoryOptions
    ensures forall a, b :: a in CategoryOptions && CategoryColor(a) == CategoryColor(b) ==> a == b
  {
  }

  /** `handleFileUpload`.  No file: nothing happens.  Otherwise the file is stored under
      `random + "." + extension`, where the extension is what follows the name's last dot
      (the whole name if it has none); on success only the image url changes, to the
      public url of that path, and on failure the form is left alone.  `d` is the form as
      it was when the upload started: `{ ...formData }` is read after the await from the
      render that began the upload, so fields typed while the file uploads are overwritten. */
  method Upload(d: GalleryDraft, fileName: Option<string>, random: string, stored: Outcome,
                publicUrl: string -> string)
    returns (r: GalleryDraft, path: Option<string>)
    ensures fileName.None? ==> r == d && path.None?
    ensures fileName.Some? ==> path.Some?
    ensures fileName.Some? ==>
              exists ext :: path.value == random + "." + ext && '.' !in ext
                            && |ext| <= |fileName.value| && ext == fileName.value[|fileName.value| - |ext|..]
                            && ('.' !in fileName.value ==> ext == fileName.value)
                            && ('.' in fileName.value ==> fileName.value[|fileName.value| - |ext| - 1] == '.')
    ensures stored.Ok? && path.Some? ==> r == d.(imageUrl := publicUrl(path.value))
    ensures stored.Fail? ==> r == d
  {
    if fileName.None? {
      return d, None;
    }
    var ext := Text.AfterLastDot(fileName.value);
    var p := random + "." + ext;
    path := Some(p);
    if stored.Ok? {
      r := d.(imageUrl := publicUrl(p));
    } else {
      r := d;
    }
  }
}
