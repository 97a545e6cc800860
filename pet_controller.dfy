/**
 * The pet handlers of the local-disk revision. An uploaded file is named by
 * the upload middleware and referred to as "uploads/<file name>"; `goodWith`
 * is taken as given when it is an array and split on "," without trimming
 * when it is a string; an update is written without validation and without
 * an existence check, and a delete always reports success.
 */
module PetController {
  import opened Js
  import opened Strings
  import opened PetModel
  import Upload

  const UploadsPrefix := "uploads/"
  const MsgDeleted := "Pet deleted"

  /** The stored path of a file the upload middleware saved as `filename`. */
  function LocalImagePath(filename: string): (r: string)
    ensures IsPrefix(Upload.Destination, r) && r[|Upload.Destination|..] == filename
  {
    UploadsPrefix + filename
  }

  /**
   * `goodWith ? (Array.isArray(goodWith) ? goodWith : goodWith.split(",")) : []`.
   * A falsy value gives [], an array is kept, a string is split; any other
   * truthy value has no `split` and the handler fails (`None`).
   */
  function ControllerGoodWith(v: JsValue): (r: Option<seq<string>>)
    ensures r.None? <==> Truthy(v) && !v.Arr? && !v.Str?
    ensures !Truthy(v) ==> r == Some([])
    ensures v.Arr? ==> r == Some(v.items)
    ensures v.Str? && v.s != "" ==> r == Some(Split(v.s, ','))
  {
    if !Truthy(v) then Some([])
    else match v
      case Arr(items) => Some(items)
      case Str(s) => Some(Split(s, ','))
      case _ => None
  }

  /** A string `goodWith` is cut into pieces that join back to the string; nothing is trimmed or dropped. */
  lemma ControllerGoodWithJoins(s: string)
    requires s != ""
    ensures ControllerGoodWith(Str(s)).Some?
    ensures Join(ControllerGoodWith(Str(s)).value, ',') == s
  {
    JoinSplit(s, ',');
  }

  /** The image `addPet` stores: the uploaded file, else a non-empty body image, else "". */
  function AddImage(image: Field<string>, filename: Option<string>): (r: string)
    ensures filename.Some? ==> r == LocalImagePath(filename.value)
    ensures filename.None? && TruthyText(image) ==> r == image.value
    ensures filename.None? && !TruthyText(image) ==> r == ""
  {
    if filename.Some? then LocalImagePath(filename.value)
    else OrElse(if image.Given? then image.value else "", "")
  }

  /** The image `updatePet` writes, if any: the uploaded file, else a non-empty body image; otherwise none. */
  function UpdateImagePath(image: Field<string>, filename: Option<string>): (r: Option<string>)
    ensures filename.Some? ==> r == Some(LocalImagePath(filename.value))
    ensures filename.None? ==> (r.Some? <==> TruthyText(image))
    ensures filename.None? && TruthyText(image) ==> r == Some(image.value)
  {
    if filename.Some? then Some(LocalImagePath(filename.value))
    else if TruthyText(image) then Some(image.value)
    else None
  }

  /** The document `addPet` saves, once `goodWith` has been normalised to `goodWith`. */
  function AddDoc(body: PetBody, filename: Option<string>, goodWith: seq<string>): (d: PetDoc)
    ensures d.name.Some? <==> body.name.Given?
    ensures d.kind.Some? <==> body.kind.Given?
    ensures d.breed.Some? <==> body.breed.Given?
    ensures d.age.Some? <==> body.age.Given?
    ensures d.gender.Some? <==> body.gender.Given?
    ensures d.description.Some? <==> body.description.Given?
    ensures d.vaccinated == Some(FlagTrue(body.vaccinated)) && d.neutered == Some(FlagTrue(body.neutered))
    ensures body.name.Given? ==> d.name == Some(body.name.value)
    ensures body.kind.Given? ==> d.kind == Some(body.kind.value)
    ensures body.breed.Given? ==> d.breed == Some(body.breed.value)
    ensures body.age.Given? ==> d.age == Some(body.age.value)
    ensures body.gender.Given? ==> d.gender == Some(body.gender.value)
    ensures body.description.Given? ==> d.description == Some(body.description.value)
    ensures d.goodWith == goodWith
    ensures filename.Some? ==> d.image == LocalImagePath(filename.value)
    ensures filename.None? && TruthyText(body.image) ==> d.image == body.image.value
    ensures filename.None? && !TruthyText(body.image) ==> d.image == ""
  {
    PetDoc(Stored(body.name), Stored(body.kind), Stored(body.breed), Stored(body.age), Stored(body.gender),
           Stored(body.description), Some(FlagTrue(body.vaccinated)), Some(FlagTrue(body.neutered)),
           goodWith, AddImage(body.image, filename))
  }

  /**
   * The record `findByIdAndUpdate` leaves: every text field and the age follow
   * their update key (absent keeps, `null` clears, a value sets), the flags and
   * `goodWith` are always overwritten, and the image only when a path is given.
   */
  function ApplyUpdate(p: Pet, body: PetBody, path: Option<string>, goodWith: seq<string>): (m: Pet)
    ensures body.name.Missing? ==> m.name == p.name
    ensures body.kind.Missing? ==> m.kind == p.kind
    ensures body.breed.Missing? ==> m.breed == p.breed
    ensures body.age.Missing? ==> m.age == p.age
    ensures body.gender.Missing? ==> m.gender == p.gender
    ensures body.description.Missing? ==> m.description == p.description
    ensures body.name.NullValue? ==> m.name.None?
    ensures body.kind.NullValue? ==> m.kind.None?
    ensures body.breed.NullValue? ==> m.breed.None?
    ensures body.age.NullValue? ==> m.age.None?
    ensures body.gender.NullValue? ==> m.gender.None?
    ensures body.description.NullValue? ==> m.description.None?
    ensures body.name.Given? ==> m.name == Some(body.name.value)
    ensures body.kind.Given? ==> m.kind == Some(body.kind.value)
    ensures body.breed.Given? ==> m.breed == Some(body.breed.value)
    ensures body.age.Given? ==> m.age == Some(body.age.value)
    ensures body.gender.Given? ==> m.gender == Some(body.gender.value)
    ensures body.description.Given? ==> m.description == Some(body.description.value)
    ensures (m.vaccinated <==> FlagTrue(body.vaccinated)) && (m.neutered <==> FlagTrue(body.neutered))
    ensures m.goodWith == goodWith
    ensures path.None? ==> m.image == p.image
    ensures path.Some? ==> m.image == path.value
  {
    Pet(ApplyField(body.name, p.name),
        ApplyField(body.kind, p.kind),
        ApplyField(body.breed, p.breed),
        ApplyField(body.age, p.age),
        ApplyField(body.gender, p.gender),
        ApplyField(body.description, p.description),
        FlagTrue(body.vaccinated),
        FlagTrue(body.neutered),
        goodWith,
        if path.Some? then path.value else p.image)
  }

  /**
   * What an update keeps and what it resets: no keep-existing for the flags and
   * `goodWith` (an absent flag becomes false, an absent `goodWith` []), the old
   * image stays unless a file or a non-empty URL comes in.
   */
  lemma UpdateResetsFlags(p: Pet, body: PetBody, filename: Option<string>)
    requires ControllerGoodWith(body.goodWith).Some?
    ensures var m := ApplyUpdate(p, body, UpdateImagePath(body.image, filename), ControllerGoodWith(body.goodWith).value);
      && (body.vaccinated == Undefined ==> !m.vaccinated)
      && (body.neutered == Undefined ==> !m.neutered)
      && (body.goodWith == Undefined ==> m.goodWith == [])
      && (filename.None? && !TruthyText(body.image) ==> m.image == p.image)
      && (filename.Some? ==> m.image == LocalImagePath(filename.value))
      && (body.name.Missing? ==> m.name == p.name)
      && (body.name.NullValue? ==> m.name == None)
  {
  }

  /**
   * POST: a `goodWith` without `split` fails with 400 before anything is saved;
   * otherwise the document is validated and saved (201) or refused (400).
   */
  method AddPet(store: PetStore, body: PetBody, filename: Option<string>) returns (r: PetReply)
    requires store.Valid()
    modifies store
    ensures store.Valid() && store.log == old(store.log)
    ensures ControllerGoodWith(body.goodWith).None? ==>
      r.status == 400 && store.pets == old(store.pets) && store.nextId == old(store.nextId)
    ensures ControllerGoodWith(body.goodWith).Some? ==>
      var saved := Validate(AddDoc(body, filename, ControllerGoodWith(body.goodWith).value));
      && (saved.None? ==> r.status == 400 && store.pets == old(store.pets) && store.nextId == old(store.nextId))
      && (saved.Some? ==>
           && r == Found(201, old(store.nextId), saved.value)
           && old(store.nextId) !in old(store.pets)
           && store.pets == old(store.pets)[old(store.nextId) := saved.value])
  {
    var goodWith := ControllerGoodWith(body.goodWith);
    if goodWith.None? {
      return Message(400, "goodWith.split is not a function");
    }
    var saved := Validate(AddDoc(body, filename, goodWith.value));
    if saved.None? {
      return Message(400, "validation failed");
    }
    var id := store.Insert(saved.value);
    r := Found(201, id, saved.value);
  }

  /**
   * PUT /:id: a `goodWith` without `split` fails with 400; an unknown id
   * answers a `null` body with status 200; otherwise the update is written as
   * it is, without validation, and the new record is returned.
   */
  method UpdatePet(store: PetStore, id: nat, body: PetBody, filename: Option<string>) returns (r: PetReply)
    requires store.Valid()
    modifies store
    ensures store.Valid() && store.log == old(store.log) && store.nextId == old(store.nextId)
    ensures ControllerGoodWith(body.goodWith).None? ==> r.status == 400 && store.pets == old(store.pets)
    ensures ControllerGoodWith(body.goodWith).Some? && id !in old(store.pets) ==>
      r == NullBody(200) && store.pets == old(store.pets)
    ensures ControllerGoodWith(body.goodWith).Some? && id in old(store.pets) ==>
      var m := ApplyUpdate(old(store.pets)[id], body, UpdateImagePath(body.image, filename),
                           ControllerGoodWith(body.goodWith).value);
      r == Found(200, id, m) && store.pets == old(store.pets)[id := m]
  {
    var goodWith := ControllerGoodWith(body.goodWith);
    if goodWith.None? {
      return Message(400, "goodWith.split is not a function");
    }
    var path := UpdateImagePath(body.image, filename);
    if id !in store.pets {
      return NullBody(200);
    }
    var m := ApplyUpdate(store.pets[id], body, path, goodWith.value);
    store.pets := store.pets[id := m];
    r := Found(200, id, m);
  }

  /** DELETE /:id: reports success whether or not the id exists, and removes at most that record. */
  method DeletePet(store: PetStore, id: nat) returns (r: PetReply)
    requires store.Valid()
    modifies store
    ensures store.Valid() && store.log == old(store.log) && store.nextId == old(store.nextId)
    ensures r == Message(200, MsgDeleted)
    ensures store.pets == old(store.pets) - {id}
    ensures id !in old(store.pets) ==> store.pets == old(store.pets)
  {
    store.pets := store.pets - {id};
    r := Message(200, MsgDeleted);
  }
}
