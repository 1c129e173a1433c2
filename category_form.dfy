/**
 * The page edit form (frontend/src/components/Modal/ModalForm.jsx): the
 * category-name lookup that labels the category options, the mapping of the
 * page it is opened with, and field edits. `handleSubmit` hands the form on
 * as it is, without checks.
 */
module CategoryForm {
  import opened Wrappers
  import opened Text
  import opened Numbers

  /** One entry of `categoryMap`: its key and its Russian and English labels. */
  datatype Entry = Entry(key: string, ru: string, en: string)

  /** `categoryMap`, in the order `Object.keys` lists it. */
  const CategoryMap: seq<Entry> := [
    Entry("city", "Город", "City"),
    Entry("hero", "Герой", "Hero"),
    Entry("event", "Событие", "Event"),
    Entry("letter", "Письмо", "Letter"),
    Entry("monument", "Памятник", "Monument"),
    Entry("artifact", "Артефакт", "Artifact")]

  const Fallback := "city"

  /** `String(s || '').trim().toLowerCase()`; `None` is null or undefined. */
  function Normalize(s: Option<string>): string {
    if s.Some? then ToLower(Trim(s.value)) else ""
  }

  /** Normalizing twice is normalizing once. */
  lemma NormalizeIdempotent(s: Option<string>)
    ensures Normalize(Some(Normalize(s))) == Normalize(s)
  {
    if s.Some? {
      var t := Trim(s.value);
      TrimToLowerCommute(t);
      TrimIdempotent(s.value);
      ToLowerIdempotent(t);
    }
  }

  /** Entry `e` is the one `name` stands for. */
  predicate Names(e: Entry, n: string) {
    Normalize(Some(e.ru)) == n || Normalize(Some(e.en)) == n
  }

  /** The index `Object.keys(table).find(p)` stops at, searching from `i` on. */
  function FindFrom(table: seq<Entry>, p: Entry -> bool, i: nat): (r: Option<nat>)
    requires i <= |table|
    ensures r.Some? ==> i <= r.value < |table| && p(table[r.value])
    ensures r.Some? ==> forall l :: i <= l < r.value ==> !p(table[l])
    ensures r.None? ==> forall j :: i <= j < |table| ==> !p(table[j])
    decreases |table| - i
  {
    if i == |table| then None
    else if p(table[i]) then Some(i)
    else FindFrom(table, p, i + 1)
  }

  /** `getCategoryKey`: the key of the first entry whose label matches the normalized name, else `city`. */
  function CategoryKey(name: Option<string>): (r: string)
    ensures (exists j :: && 0 <= j < |CategoryMap| && CategoryMap[j].key == r && Names(CategoryMap[j], Normalize(name))
                         && forall l :: 0 <= l < j ==> !Names(CategoryMap[l], Normalize(name)))
            || (r == Fallback && forall j :: 0 <= j < |CategoryMap| ==> !Names(CategoryMap[j], Normalize(name)))
  {
    match FindFrom(CategoryMap, (e: Entry) => Names(e, Normalize(name)), 0)
    case Some(j) => CategoryMap[j].key
    case None => Fallback
  }

  /** The lookup ignores case and surrounding white space. */
  lemma CategoryKeyOfNormalized(name: Option<string>)
    ensures CategoryKey(Some(Normalize(name))) == CategoryKey(name)
  {
    NormalizeIdempotent(name);
  }

  /** An unknown name is labelled as the city category. */
  lemma UnknownIsCity(name: Option<string>)
    requires forall j :: 0 <= j < |CategoryMap| ==> !Names(CategoryMap[j], Normalize(name))
    ensures CategoryKey(name) == Fallback
  {
  }

  /** The option text: the label of the name's key in the current language (`ru`, or else `en`). */
  function OptionLabel(name: Option<string>, language: string): (r: string)
    ensures exists j :: 0 <= j < |CategoryMap| && CategoryMap[j].key == CategoryKey(name)
              && r == (if language == "ru" then CategoryMap[j].ru else CategoryMap[j].en)
  {
    var k := CategoryKey(name);
    var j := IndexOf(k);
    if language == "ru" then CategoryMap[j].ru else CategoryMap[j].en
  }

  /** The index of a key of the map. */
  function IndexOf(k: string): (j: nat)
    requires exists j :: 0 <= j < |CategoryMap| && CategoryMap[j].key == k
    ensures j < |CategoryMap| && CategoryMap[j].key == k
  {
    if k == "city" then 0 else if k == "hero" then 1 else if k == "event" then 2
    else if k == "letter" then 3 else if k == "monument" then 4 else 5
  }

  /** The form state; `category` is dropped (undefined) once the page data is mapped in. */
  datatype PageForm = PageForm(
    title: string, category: Option<string>, content: string,
    imagePath: string, imageFile: Option<string>, categoryId: string)

  const InitialForm := PageForm("", Some(""), "", "", None, "")

  datatype InitialCategory = InitialCategory(id: Option<int>)

  datatype InitialPage = InitialPage(
    title: Option<string>, content: Option<string>, imagePath: Option<string>,
    category: Option<InitialCategory>)

  /** `String(n || '')` for an id: `0` and a missing id become "". */
  function IdString(id: Option<int>): (r: string)
    ensures id.None? || id == Some(0) ==> r == ""
    ensures id.Some? && id.value > 0 ==> ParseInt(r) == Some(id.value)
  {
    if id.None? || id.value == 0 then ""
    else
      ParseIntOfNatToString(if id.value > 0 then id.value else 0, "");
      assert NatToString(if id.value > 0 then id.value else 0) + "" == NatToString(if id.value > 0 then id.value else 0);
      if id.value > 0 then NatToString(id.value) else "-" + NatToString(-id.value)
  }

  /** The effect on `initialData`: missing fields become "", the file is cleared; `None` leaves the form. */
  function FromInitial(current: PageForm, init: Option<InitialPage>): (r: PageForm)
    ensures init.None? ==> r == current
    ensures init.Some? ==>
      var d := init.value;
      && r.title == d.title.GetOr("") && r.content == d.content.GetOr("")
      && r.imagePath == d.imagePath.GetOr("") && r.imageFile.None? && r.category.None?
      && (d.category.None? ==> r.categoryId == "")
      && (d.category.Some? && d.category.value.id.Some? && d.category.value.id.value > 0 ==>
            ParseInt(r.categoryId) == d.category.value.id)
  {
    match init
    case None => current
    case Some(d) =>
      PageForm(
        d.title.GetOr(""), None, d.content.GetOr(""), d.imagePath.GetOr(""), None,
        IdString(if d.category.Some? then d.category.value.id else None))
  }

  datatype Field = Title | CategoryId | ImagePath | Content

  /** `handleChange`: only the named field changes. */
  function Change(form: PageForm, f: Field, value: string): (r: PageForm)
    ensures f == Title ==> r == form.(title := value)
    ensures f == CategoryId ==> r == form.(categoryId := value)
    ensures f == ImagePath ==> r == form.(imagePath := value)
    ensures f == Content ==> r == form.(content := value)
  {
    match f
    case Title => form.(title := value)
    case CategoryId => form.(categoryId := value)
    case ImagePath => form.(imagePath := value)
    case Content => form.(content := value)
  }

  /** `handleFileChange`: only the file changes. */
  function PickFile(form: PageForm, file: Option<string>): (r: PageForm)
    ensures r == form.(imageFile := file)
  {
    form.(imageFile := file)
  }
}
