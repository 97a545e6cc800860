/**
 * The pet schema and the pet collection shared by both revisions of the pet
 * handlers. A document needs a non-empty name and type; gender, when present,
 * is "Male" or "Female"; the two health flags default to false; `goodWith` is
 * a list of strings. The collection also keeps a ghost log of the calls made
 * to the remote image service.
 */
module PetModel {
  import opened Js

  /**
   * A stored pet. `kind` is the schema's `type` field. Optional fields are
   * `None` when the document does not have them; `image` is "" when empty.
   */
  datatype Pet = Pet(
    name: Option<string>,
    kind: Option<string>,
    breed: Option<string>,
    age: Option<int>,
    gender: Option<string>,
    description: Option<string>,
    vaccinated: bool,
    neutered: bool,
    goodWith: seq<string>,
    image: string)

  /** What a handler passes to `new Pet({...})`; a flag is `None` when left to the default. */
  datatype PetDoc = PetDoc(
    name: Option<string>,
    kind: Option<string>,
    breed: Option<string>,
    age: Option<int>,
    gender: Option<string>,
    description: Option<string>,
    vaccinated: Option<bool>,
    neutered: Option<bool>,
    goodWith: seq<string>,
    image: string)

  /** A multipart or JSON request body for the pet handlers. */
  datatype PetBody = PetBody(
    name: Field<string>,
    kind: Field<string>,
    breed: Field<string>,
    age: Field<int>,
    gender: Field<string>,
    description: Field<string>,
    vaccinated: JsValue,
    neutered: JsValue,
    goodWith: JsValue,
    image: Field<string>)

  /** A required string passes validation when present and non-empty. */
  predicate RequiredText(f: Option<string>) {
    f.Some? && f.value != ""
  }

  /** The gender enum; an absent gender is not checked. */
  predicate GenderOk(g: Option<string>) {
    g.None? || g.value == "Male" || g.value == "Female"
  }

  /** The validators that run when a pet document is saved. */
  predicate ValidPet(p: Pet) {
    RequiredText(p.name) && RequiredText(p.kind) && GenderOk(p.gender)
  }

  /** Validation and defaults applied by `save()` to a new document. */
  function Validate(doc: PetDoc): (r: Option<Pet>)
    ensures r.Some? <==> RequiredText(doc.name) && RequiredText(doc.kind) && GenderOk(doc.gender)
    ensures r.Some? ==> ValidPet(r.value)
    ensures r.Some? ==>
      && r.value.vaccinated == (doc.vaccinated == Some(true))
      && r.value.neutered == (doc.neutered == Some(true))
    ensures r.Some? ==>
      && r.value.name == doc.name && r.value.kind == doc.kind && r.value.breed == doc.breed
      && r.value.age == doc.age && r.value.gender == doc.gender
      && r.value.description == doc.description
      && r.value.goodWith == doc.goodWith && r.value.image == doc.image
  {
    if RequiredText(doc.name) && RequiredText(doc.kind) && GenderOk(doc.gender) then
      Some(Pet(doc.name, doc.kind, doc.breed, doc.age, doc.gender, doc.description,
               if doc.vaccinated.Some? then doc.vaccinated.value else false,
               if doc.neutered.Some? then doc.neutered.value else false,
               doc.goodWith, doc.image))
    else None
  }

  /** A call made to the remote image service. */
  datatype AssetEvent = Uploaded(url: string) | Destroyed(publicId: string)

  /** What a pet handler answers. */
  datatype PetReply =
    | Found(status: nat, id: nat, pet: Pet)
    | NullBody(status: nat)
    | Message(status: nat, text: string)

  /** The pet collection; ids are handed out by the store and never reused. */
  class PetStore {
    var pets: map<nat, Pet>
    var nextId: nat
    ghost var log: seq<AssetEvent>

    ghost predicate Valid()
      reads this
    {
      forall id :: id in pets ==> id < nextId
    }

    constructor ()
      ensures Valid() && pets == map[] && nextId == 0 && log == []
    {
      pets := map[];
      nextId := 0;
      log := [];
    }

    /** `new Pet(doc).save()` for a document that passed validation. */
    method Insert(p: Pet) returns (id: nat)
      requires Valid()
      modifies this
      ensures Valid() && log == old(log)
      ensures id == old(nextId) && id !in old(pets)
      ensures pets == old(pets)[id := p] && nextId == old(nextId) + 1
    {
      id := nextId;
      pets := pets[id := p];
      nextId := nextId + 1;
    }
  }
}
