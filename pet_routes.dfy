/**
 * The admin-gated pet routes that keep images at a remote image service.
 * An uploaded file is sent to the service first and its secure URL wins over
 * an image URL in the body; replacing or deleting a pet whose image lives on
 * the service destroys the old remote asset, identified by the folder and the
 * file name of its URL. The secure URL the service hands back is an input.
 */
module PetRoutes {
  import opened Js
  import opened Strings
  import opened PetModel

  const Folder := "pawfecthome/"
  const RemoteHost := "res.cloudinary.com"
  const MsgNotFound := "Pet not found"
  const MsgDeleted := "Pet deleted and image removed"

  /** `k` is where the last `/`-separated segment of `url` starts. */
  ghost predicate SegmentStart(url: string, k: int) {
    0 <= k <= |url| && '/' !in url[k..] && (k == 0 || url[k - 1] == '/')
  }

  /** `id` starts at `k` in `url` and runs up to the next "." or to the end. */
  ghost predicate StemAt(url: string, k: int, id: string) {
    0 <= k && k + |id| <= |url| && url[k..k + |id|] == id && (k + |id| == |url| || url[k + |id|] == '.')
  }

  /** The last segment of a URL starts at one place only. */
  lemma SegmentStartUnique(url: string, k1: int, k2: int)
    requires SegmentStart(url, k1) && SegmentStart(url, k2)
    ensures k1 == k2
  {
  }

  /**
   * `getPublicIdFromUrl`: the folder followed by the URL's last `/`-segment
   * cut before its first "."; the part after the folder has neither "/" nor ".".
   * The `catch` branch cannot be reached for a string argument.
   */
  function GetPublicIdFromUrl(url: string): (r: string)
    ensures IsPrefix(Folder, r)
    ensures '/' !in r[|Folder|..] && '.' !in r[|Folder|..]
    ensures exists k :: SegmentStart(url, k) && StemAt(url, k, r[|Folder|..])
  {
    var parts := Split(url, '/');
    var fileWithExt := parts[|parts| - 1];
    var publicId := Split(fileWithExt, '.')[0];
    LastPiece(url, '/');
    FirstPiece(fileWithExt, '.');
    var k := |url| - |fileWithExt|;
    assert url[k..k + |publicId|] == fileWithExt[..|publicId|];
    assert SegmentStart(url, k) && StemAt(url, k, publicId);
    assert (Folder + publicId)[|Folder|..] == publicId;
    Folder + publicId
  }

  /** The public id has exactly one "/", the one closing the folder name. */
  lemma PublicIdHasOneSlash(url: string)
    ensures var r := GetPublicIdFromUrl(url);
      forall i :: 0 <= i < |r| && r[i] == '/' ==> i == |Folder| - 1
  {
    var r := GetPublicIdFromUrl(url);
    forall i | 0 <= i < |r| && r[i] == '/' ensures i == |Folder| - 1 {
      if i < |Folder| {
        assert r[..|Folder|] == Folder;
      }
    }
  }

  /** A stored image points at the remote image service. */
  predicate IsRemote(image: string) {
    image != "" && Includes(image, RemoteHost)
  }

  /** The remote calls made to get rid of an old image. */
  function DestroyEvents(image: string): (es: seq<AssetEvent>)
    ensures |es| <= 1
    ensures es != [] <==> IsRemote(image)
    ensures es != [] ==> es == [Destroyed(GetPublicIdFromUrl(image))]
  {
    if IsRemote(image) then [Destroyed(GetPublicIdFromUrl(image))] else []
  }

  /** `goodWith` on create: a string is split on "," and every piece trimmed; anything else gives []. */
  function CreateGoodWith(v: JsValue): (r: seq<string>)
    ensures v.Str? ==> r == SplitTrimmed(v.s, ',')
    ensures !v.Str? ==> r == []
  {
    if v.Str? then SplitTrimmed(v.s, ',') else []
  }

  /** The image stored on create: the uploaded file's URL, else a non-empty body image, else "". */
  function CreateImage(image: Field<string>, uploaded: Option<string>): (r: string)
    ensures uploaded.Some? ==> r == uploaded.value
    ensures uploaded.None? && TruthyText(image) ==> r == image.value
    ensures uploaded.None? && !TruthyText(image) ==> r == ""
  {
    if uploaded.Some? then uploaded.value
    else if TruthyText(image) then image.value
    else ""
  }

  /** The document POST / builds before saving. */
  function CreateDoc(body: PetBody, uploaded: Option<string>): (d: PetDoc)
    ensures d.name.Some? <==> body.name.Given?
    ensures d.kind.Some? <==> body.kind.Given?
    ensures d.breed.Some? <==> body.breed.Given?
    ensures d.age.Some? <==> body.age.Given?
    ensures d.gender.Some? <==> body.gender.Given?
    ensures d.description.Some? <==> body.description.Given?
    ensures d.vaccinated == Some(FlagTrue(body.vaccinated)) && d.neutered == Some(FlagTrue(body.neutered))
    ensures body.name.Given? ==> d.name == Some(body.name.value)
    ensures body.kind.Given? ==> d.kind == Some(body.kind.value)
    ensures body.breed.Given? ==> d.breed == Some(body.breed.value)
    ensures body.age.Given? ==> d.age == Some(body.age.value)
    ensures body.gender.Given? ==> d.gender == Some(body.gender.value)
    ensures body.description.Given? ==> d.description == Some(body.description.value)
    ensures body.goodWith.Str? ==> d.goodWith == SplitTrimmed(body.goodWith.s, ',')
    ensures !body.goodWith.Str? ==> d.goodWith == []
    ensures uploaded.Some? ==> d.image == uploaded.value
    ensures uploaded.None? && TruthyText(body.image) ==> d.image == body.image.value
    ensures uploaded.None? && !TruthyText(body.image) ==> d.image == ""
  {
    PetDoc(Stored(body.name), Stored(body.kind), Stored(body.breed), Stored(body.age), Stored(body.gender),
           Stored(body.description), Some(FlagTrue(body.vaccinated)), Some(FlagTrue(body.neutered)),
           CreateGoodWith(body.goodWith), CreateImage(body.image, uploaded))
  }

  /** The image PUT /:id saves: the uploaded URL, else a non-empty body image, else the old image. */
  function UpdateImage(image: Field<string>, uploaded: Option<string>, current: string): (r: string)
    ensures uploaded.Some? ==> r == uploaded.value
    ensures uploaded.None? && TruthyText(image) ==> r == image.value
    ensures uploaded.None? && !TruthyText(image) ==> r == current
  {
    if uploaded.Some? then uploaded.value
    else if TruthyText(image) then image.value
    else current
  }

  /**
   * The pet PUT /:id saves: each text field and the age stay as they are unless
   * given (`??`), `goodWith` stays unless a string is given, the flags become
   * the coercion of the body (so an absent flag clears it), and the image
   * follows UpdateImage.
   */
  function Merge(p: Pet, body: PetBody, uploaded: Option<string>): (m: Pet)
    ensures !body.name.Given? ==> m.name == p.name
    ensures !body.kind.Given? ==> m.kind == p.kind
    ensures !body.breed.Given? ==> m.breed == p.breed
    ensures !body.age.Given? ==> m.age == p.age
    ensures !body.gender.Given? ==> m.gender == p.gender
    ensures !body.description.Given? ==> m.description == p.description
    ensures body.name.Given? ==> m.name == Some(body.name.value)
    ensures body.kind.Given? ==> m.kind == Some(body.kind.value)
    ensures body.breed.Given? ==> m.breed == Some(body.breed.value)
    ensures body.age.Given? ==> m.age == Some(body.age.value)
    ensures body.gender.Given? ==> m.gender == Some(body.gender.value)
    ensures body.description.Given? ==> m.description == Some(body.description.value)
    ensures body.goodWith.Str? ==> m.goodWith == SplitTrimmed(body.goodWith.s, ',')
    ensures !body.goodWith.Str? ==> m.goodWith == p.goodWith
    ensures uploaded.Some? ==> m.image == uploaded.value
    ensures uploaded.None? && TruthyText(body.image) ==> m.image == body.image.value
    ensures uploaded.None? && !TruthyText(body.image) ==> m.image == p.image
    ensures (m.vaccinated <==> FlagTrue(body.vaccinated)) && (m.neutered <==> FlagTrue(body.neutered))
  {
    Pet(KeepUnlessGiven(body.name, p.name),
        KeepUnlessGiven(body.kind, p.kind),
        KeepUnlessGiven(body.breed, p.breed),
        KeepUnlessGiven(body.age, p.age),
        KeepUnlessGiven(body.gender, p.gender),
        KeepUnlessGiven(body.description, p.description),
        FlagTrue(body.vaccinated),
        FlagTrue(body.neutered),
        if body.goodWith.Str? then SplitTrimmed(body.goodWith.s, ',') else p.goodWith,
        UpdateImage(body.image, uploaded, p.image))
  }

  /** Sending the same update twice leaves the pet as sending it once. */
  lemma MergeIdempotent(p: Pet, body: PetBody, uploaded: Option<string>)
    ensures Merge(Merge(p, body, uploaded), body, uploaded) == Merge(p, body, uploaded)
  {
  }

  /** GET /:id */
  method GetOne(store: PetStore, id: nat) returns (r: PetReply)
    ensures id in store.pets ==> r == Found(200, id, store.pets[id])
    ensures id !in store.pets ==> r == Message(404, MsgNotFound)
  {
    if id !in store.pets {
      return Message(404, MsgNotFound);
    }
    r := Found(200, id, store.pets[id]);
  }

  /**
   * POST /: an uploaded file is sent to the image service first; the document
   * is then validated, and a refused document answers 400 and stores nothing.
   */
  method Create(store: PetStore, body: PetBody, uploaded: Option<string>) returns (r: PetReply)
    requires store.Valid()
    modifies store
    ensures store.Valid()
    ensures store.log == old(store.log) + (if uploaded.Some? then [Uploaded(uploaded.value)] else [])
    ensures Validate(CreateDoc(body, uploaded)).None? ==>
      r.status == 400 && store.pets == old(store.pets) && store.nextId == old(store.nextId)
    ensures Validate(CreateDoc(body, uploaded)).Some? ==>
      var p := Validate(CreateDoc(body, uploaded)).value;
      && r == Found(201, old(store.nextId), p)
      && old(store.nextId) !in old(store.pets)
      && store.pets == old(store.pets)[old(store.nextId) := p]
  {
    if uploaded.Some? {
      store.log := store.log + [Uploaded(uploaded.value)];
    }
    var doc := CreateDoc(body, uploaded);
    var saved := Validate(doc);
    if saved.None? {
      return Message(400, "validation failed");
    }
    var id := store.Insert(saved.value);
    r := Found(201, id, saved.value);
  }

  /**
   * PUT /:id: 404 for an unknown id before anything else happens. Otherwise a
   * new file is uploaded and, when the old image is remote, the old asset is
   * destroyed; only then is the merged pet validated. A refused pet answers 400
   * and leaves the record as it was, although the remote calls were made.
   */
  method Update(store: PetStore, id: nat, body: PetBody, uploaded: Option<string>) returns (r: PetReply)
    requires store.Valid()
    modifies store
    ensures store.Valid() && store.nextId == old(store.nextId)
    ensures id !in old(store.pets) ==>
      r == Message(404, MsgNotFound) && store.pets == old(store.pets) && store.log == old(store.log)
    ensures id in old(store.pets) ==>
      var p := old(store.pets)[id];
      var m := Merge(p, body, uploaded);
      && store.log == old(store.log)
           + (if uploaded.Some? then [Uploaded(uploaded.value)] + DestroyEvents(p.image) else [])
      && (ValidPet(m) ==> r == Found(200, id, m) && store.pets == old(store.pets)[id := m])
      && (!ValidPet(m) ==> r.status == 400 && store.pets == old(store.pets))
  {
    if id !in store.pets {
      return Message(404, MsgNotFound);
    }
    var pet := store.pets[id];
    if uploaded.Some? {
      store.log := store.log + [Uploaded(uploaded.value)];
      if IsRemote(pet.image) {
        store.log := store.log + [Destroyed(GetPublicIdFromUrl(pet.image))];
      }
    }
    var merged := Merge(pet, body, uploaded);
    if !ValidPet(merged) {
      return Message(400, "validation failed");
    }
    store.pets := store.pets[id := merged];
    r := Found(200, id, merged);
  }

  /** DELETE /:id: 404 for an unknown id; otherwise a remote image is destroyed and exactly that record removed. */
  method Delete(store: PetStore, id: nat) returns (r: PetReply)
    requires store.Valid()
    modifies store
    ensures store.Valid() && store.nextId == old(store.nextId)
    ensures id !in old(store.pets) ==>
      r == Message(404, MsgNotFound) && store.pets == old(store.pets) && store.log == old(store.log)
    ensures id in old(store.pets) ==>
      && r == Message(200, MsgDeleted)
      && store.log == old(store.log) + DestroyEvents(old(store.pets)[id].image)
      && store.pets == old(store.pets) - {id}
  {
    if id !in store.pets {
      return Message(404, MsgNotFound);
    }
    var pet := store.pets[id];
    if IsRemote(pet.image) {
      store.log := store.log + [Destroyed(GetPublicIdFromUrl(pet.image))];
    }
    store.pets := store.pets - {id};
    r := Message(200, MsgDeleted);
  }
}
