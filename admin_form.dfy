/**
 * The add/edit form of the admin page: its initial and edit-time contents,
 * how an input event changes it, and the multipart request it is sent as.
 * What the server makes of the serialised "good with" labels and flags is
 * related to both revisions of the pet handlers.
 */
module AdminForm {
  import opened Js
  import opened Strings
  import opened FormState
  import opened AdminPanel
  import PetRoutes
  import PetController

  const FormKeys := ["name", "type", "breed", "age", "gender", "image", "description",
                     "vaccinated", "neutered", "goodWith", "status"]
  const PetsUrl := ApiBase + "/api/pets"

  /** The form's own fields, in their order, open the state. */
  predicate HasFormKeys(f: Form) {
    |FormKeys| <= |f| && forall i :: 0 <= i < |FormKeys| ==> f[i].key == FormKeys[i]
  }

  /** `resetForm`: every text empty, both flags off, no labels, status "Available". */
  function DefaultForm(): (f: Form)
    ensures |f| == |FormKeys| && HasFormKeys(f)
  {
    [Entry("name", Text("")), Entry("type", Text("")), Entry("breed", Text("")), Entry("age", Text("")),
     Entry("gender", Text("")), Entry("image", Text("")), Entry("description", Text("")),
     Entry("vaccinated", Flag(false)), Entry("neutered", Flag(false)), Entry("goodWith", Tags([])),
     Entry("status", Text("Available"))]
  }

  /** `pet.age || ""`: an absent, `null` or zero age shows as an empty field. */
  function EditAge(age: Field<int>): (v: FormValue)
    ensures v == Text("") <==> !age.Given? || age.value == 0
    ensures age.Given? && age.value != 0 ==> v == Number(age.value)
  {
    if age.Given? && age.value != 0 then Number(age.value) else Text("")
  }

  /**
   * `handleEdit`: the form filled from a pet, every absent field replaced by
   * its reset value (an empty status by "Available").
   */
  function EditForm(p: ClientPet): (f: Form)
    ensures |f| == |FormKeys| && HasFormKeys(f)
  {
    [Entry("name", Text(FieldOrEmpty(p.name))), Entry("type", Text(FieldOrEmpty(p.kind))),
     Entry("breed", Text(FieldOrEmpty(p.breed))), Entry("age", EditAge(p.age)),
     Entry("gender", Text(FieldOrEmpty(p.gender))), Entry("image", Text(OrEmpty(p.image))),
     Entry("description", Text(OrEmpty(p.description))),
     Entry("vaccinated", Flag(p.vaccinated)), Entry("neutered", Flag(p.neutered)),
     Entry("goodWith", Tags(if p.goodWith.Some? then p.goodWith.value else [])),
     Entry("status", Text(OrElse(OrEmpty(p.status), "Available")))]
  }

  /** Editing a pet without any optional field gives the reset form. */
  lemma EditBarePet(p: ClientPet)
    requires !p.name.Given? && !p.kind.Given? && !p.breed.Given? && !p.age.Given? && !p.gender.Given?
    requires p.image.None? && p.description.None? && !p.vaccinated && !p.neutered
    requires p.goodWith.None? && p.status.None?
    ensures EditForm(p) == DefaultForm()
  {
  }

  /** `handleChange`: the "good with" input is parsed into labels; any other input stores its value or check state. */
  function ChangeForm(f: Form, e: InputEvent): (r: Form)
    ensures |f| <= |r| <= |f| + 1
    ensures forall i :: 0 <= i < |f| ==> r[i].key == f[i].key
    ensures HasFormKeys(f) ==> HasFormKeys(r)
  {
    if e.name == "goodWith" then Set(f, "goodWith", Tags(ParseGoodWith(e.value)))
    else Set(f, e.name, EventValue(e))
  }

  /** A change touches only the field it names, and adds no key the form already has. */
  lemma ChangeOnlyNamed(f: Form, e: InputEvent)
    ensures e.name == "goodWith" ==> Lookup(ChangeForm(f, e), e.name) == Some(Tags(ParseGoodWith(e.value)))
    ensures e.name != "goodWith" ==> Lookup(ChangeForm(f, e), e.name) == Some(EventValue(e))
    ensures forall k :: k != e.name ==> Lookup(ChangeForm(f, e), k) == Lookup(f, k)
    ensures e.name in Keys(f) ==> Keys(ChangeForm(f, e)) == Keys(f)
  {
    if e.name == "goodWith" {
      SetLookup(f, "goodWith", Tags(ParseGoodWith(e.value)));
      SetKeys(f, "goodWith", Tags(ParseGoodWith(e.value)));
    } else {
      SetLookup(f, e.name, EventValue(e));
      SetKeys(f, e.name, EventValue(e));
    }
  }

  /** The text `FormData.append` sends for a state value; labels are joined with ",". */
  function ValueText(v: FormValue): (r: string)
    ensures v.Text? ==> r == v.s
    ensures v.Number? && v.n >= 0 ==> DecimalValue(r) == v.n
    ensures v.Number? && v.n < 0 ==> |r| >= 2 && r[0] == '-' && DecimalValue(r[1..]) == -v.n
    ensures v.Flag? ==> (r == "true" || r == "false") && FlagTrue(Str(r)) == v.b
    ensures v.Tags? && |v.items| >= 1 && (forall k :: 0 <= k < |v.items| ==> ',' !in v.items[k]) ==>
      Split(r, ',') == v.items
  {
    match v
    case Text(s) => s
    case Number(n) =>
      IntToStringValue(n);
      IntToString(n)
    case Flag(b) => if b then "true" else "false"
    case Tags(items) =>
      assert |items| >= 1 && (forall k :: 0 <= k < |items| ==> ',' !in items[k]) ==> Split(Join(items, ','), ',') == items by {
        if |items| >= 1 && (forall k :: 0 <= k < |items| ==> ',' !in items[k]) {
          SplitJoin(items, ',');
        }
      }
      Join(items, ',')
  }

  /** The multipart fields, one per form entry, in the form's order. */
  function Serialize(f: Form): (fields: seq<(string, string)>)
    ensures |fields| == |f|
    ensures forall i :: 0 <= i < |f| ==> fields[i].0 == f[i].key && fields[i].1 == ValueText(f[i].value)
  {
    if f == [] then [] else [(f[0].key, ValueText(f[0].value))] + Serialize(f[1..])
  }

  datatype Request = Request(verb: string, url: string, fields: seq<(string, string)>, file: Option<string>)

  /** `handleSubmit`'s request: PUT to the pet's address while editing, POST to the collection otherwise. */
  function BuildRequest(f: Form, editId: Option<string>, imageFile: Option<string>): (r: Request)
    ensures (editId.Some? && editId.value != "") ==> r.verb == "PUT" && r.url == PetsUrl + "/" + editId.value
    ensures !(editId.Some? && editId.value != "") ==> r.verb == "POST" && r.url == PetsUrl
    ensures r.fields == Serialize(f) && r.file == imageFile
  {
    if editId.Some? && editId.value != "" then Request("PUT", PetsUrl + "/" + editId.value, Serialize(f), imageFile)
    else Request("POST", PetsUrl, Serialize(f), imageFile)
  }

  /**
   * What the server stores for labels typed into the form: both revisions get
   * the labels back; an empty list reaches the remote-image revision as "" and is
   * stored as [""], while the local-disk revision stores [].
   */
  lemma GoodWithReachesServer(value: string)
    ensures var xs := ParseGoodWith(value);
      && (xs != [] ==> PetRoutes.CreateGoodWith(Str(Join(xs, ','))) == xs)
      && (xs != [] ==> PetController.ControllerGoodWith(Str(Join(xs, ','))) == Some(xs))
      && (xs == [] ==> PetRoutes.CreateGoodWith(Str(Join(xs, ','))) == [""])
      && (xs == [] ==> PetController.ControllerGoodWith(Str(Join(xs, ','))) == Some([]))
  {
    var xs := ParseGoodWith(value);
    if xs != [] {
      SplitTrimmedJoin(xs, ',');
      SplitJoin(xs, ',');
      JoinEnds(xs, ',');
    } else {
      assert Split([], ',') == [[]];
      assert Trim([]) == [];
      assert TrimAll([[]]) == [[]];
    }
  }

  /** The form state of the admin page. */
  class AdminEditor {
    var form: Form
    var editId: Option<string>
    var imageFile: Option<string>

    /** The form's own fields keep their place at the front of the state. */
    ghost predicate Valid()
      reads this
    {
      HasFormKeys(form)
    }

    constructor ()
      ensures Valid() && form == DefaultForm() && editId.None? && imageFile.None?
    {
      form := DefaultForm();
      editId := None;
      imageFile := None;
    }

    /** `resetForm` */
    method ResetForm()
      modifies this
      ensures Valid() && form == DefaultForm() && editId.None? && imageFile.None?
    {
      form := DefaultForm();
      editId := None;
      imageFile := None;
    }

    /** `handleChange` */
    method HandleChange(e: InputEvent)
      requires Valid()
      modifies this
      ensures Valid() && form == ChangeForm(old(form), e)
      ensures editId == old(editId) && imageFile == old(imageFile)
    {
      var v := if e.name == "goodWith" then Tags(ParseGoodWith(e.value)) else EventValue(e);
      form := Set(form, e.name, v);
    }

    /** `handleFileChange`: the chosen file, or none. */
    method HandleFileChange(file: Option<string>)
      modifies this
      ensures form == old(form) && editId == old(editId) && imageFile == file
    {
      imageFile := file;
    }

    /** `handleEdit` */
    method HandleEdit(p: ClientPet)
      modifies this
      ensures Valid() && form == EditForm(p) && editId == Some(p.id) && imageFile.None?
    {
      form := EditForm(p);
      editId := Some(p.id);
      imageFile := None;
    }

    /** `handleSubmit`: the request sent, then a reset when the server answered with success. */
    method HandleSubmit(ok: bool) returns (req: Request)
      requires Valid()
      modifies this
      ensures req == BuildRequest(old(form), old(editId), old(imageFile))
      ensures |req.fields| >= |FormKeys| && forall i :: 0 <= i < |FormKeys| ==> req.fields[i].0 == FormKeys[i]
      ensures ok ==> Valid() && form == DefaultForm() && editId.None? && imageFile.None?
      ensures !ok ==> form == old(form) && editId == old(editId) && imageFile == old(imageFile)
    {
      req := BuildRequest(form, editId, imageFile);
      if ok {
        ResetForm();
      }
    }
  }
}
