/**
 * The list computations of the admin page: how an image reference is shown,
 * how the "good with" input is parsed, the search/filter/sort of the manage
 * tab, the dashboard counts and the type options of the filter drop-down.
 * `localeCompare` is replaced by the code-point order StrLeq.
 */
module AdminPanel {
  import opened Js
  import opened Strings

  const Placeholder := "https://placehold.co/600x400?text=No+Image"
  const ApiBase := "https://pawfecthome-4ein.onrender.com"

  /**
   * A pet as the page receives it from the server; `kind` is the `type` field.
   * The five fields the search renders keep a JSON `null` apart from an absent
   * key, since a template literal shows the one as "null" and the other as
   * "undefined"; for the other optional fields the page reads both as absent.
   */
  datatype ClientPet = ClientPet(
    id: string,
    name: Field<string>,
    kind: Field<string>,
    breed: Field<string>,
    age: Field<int>,
    gender: Field<string>,
    image: Option<string>,
    description: Option<string>,
    vaccinated: bool,
    neutered: bool,
    goodWith: Option<seq<string>>,
    status: Option<string>,
    createdAt: Option<int>)

  /** `x || ""` on an optional text. */
  function OrEmpty(o: Option<string>): (r: string)
    ensures o.Some? ==> r == o.value
    ensures o.None? ==> r == ""
  {
    if o.Some? then o.value else ""
  }

  /** `x || ""` on a field that may be absent or `null`. */
  function FieldOrEmpty(f: Field<string>): (r: string)
    ensures f.Given? ==> r == f.value
    ensures !f.Given? ==> r == ""
  {
    if f.Given? then f.value else ""
  }

  // ----------------------------------------------------------------- images

  /**
   * `toDisplayImage`: the placeholder for an empty reference, an absolute
   * "http..." reference as it is, and anything else resolved against the API host.
   */
  function ToDisplayImage(img: string): (r: string)
    ensures img == "" ==> r == Placeholder
    ensures img != "" && StartsWith(img, "http") ==> r == img
    ensures img != "" && !StartsWith(img, "http") ==> r == ApiBase + "/" + img
  {
    if img == "" then Placeholder
    else if StartsWith(img, "http") then img
    else ApiBase + "/" + img
  }

  /** Whatever the stored reference, what is shown is an "http" address. */
  lemma DisplayImageIsHttp(img: string)
    ensures StartsWith(ToDisplayImage(img), "http")
  {
    assert Placeholder[0] == 'h' && Placeholder[1] == 't' && Placeholder[2] == 't' && Placeholder[3] == 'p';
    assert Placeholder[..4] == "http";
    assert ApiBase[0] == 'h' && ApiBase[1] == 't' && ApiBase[2] == 't' && ApiBase[3] == 'p';
    assert ApiBase[..4] == "http";
    if img != "" && !StartsWith(img, "http") {
      assert (ApiBase + "/" + img)[..4] == ApiBase[..4];
    }
  }

  /** Resolving a shown address again changes nothing. */
  lemma DisplayImageIdempotent(img: string)
    ensures ToDisplayImage(ToDisplayImage(img)) == ToDisplayImage(img)
  {
    DisplayImageIsHttp(img);
  }

  // ----------------------------------------------------------------- good with

  /** `.filter(Boolean)` on texts: the non-empty ones, in order. */
  function NonEmpty(xs: seq<string>): (r: seq<string>)
    ensures |r| <= |xs|
    ensures forall k :: 0 <= k < |r| ==> r[k] != "" && r[k] in xs
    ensures (forall k :: 0 <= k < |xs| ==> xs[k] != "") ==> r == xs
  {
    if xs == [] then []
    else
      assert xs == [xs[0]] + xs[1..];
      (if xs[0] == "" then [] else [xs[0]]) + NonEmpty(xs[1..])
  }

  /** A text is kept exactly when it is in the list and not empty. */
  lemma {:induction false} NonEmptyMembers(xs: seq<string>, x: string)
    ensures x in NonEmpty(xs) <==> x in xs && x != ""
  {
    if xs != [] {
      NonEmptyMembers(xs[1..], x);
      assert xs == [xs[0]] + xs[1..];
    }
  }

  lemma NonEmptyCons(x: string, t: seq<string>)
    ensures NonEmpty([x] + t) == (if x == "" then [] else [x]) + NonEmpty(t)
  {
    assert ([x] + t)[1..] == t;
  }

  /** Filtering keeps the order: filtering two lists one after the other is filtering each. */
  lemma {:induction false} NonEmptyAppend(a: seq<string>, b: seq<string>)
    ensures NonEmpty(a + b) == NonEmpty(a) + NonEmpty(b)
  {
    if a == [] {
      assert a + b == b;
    } else {
      var head := if a[0] == "" then [] else [a[0]];
      assert NonEmpty(a + b) == head + NonEmpty(a[1..] + b) by {
        assert a + b == [a[0]] + (a[1..] + b);
        NonEmptyCons(a[0], a[1..] + b);
      }
      assert NonEmpty(a) == head + NonEmpty(a[1..]) by {
        assert a == [a[0]] + a[1..];
        NonEmptyCons(a[0], a[1..]);
      }
      NonEmptyAppend(a[1..], b);
      AppendAssoc(head, NonEmpty(a[1..]), NonEmpty(b));
    }
  }

  /**
   * The "good with" input of the form: split on ",", every piece trimmed, the
   * empty ones dropped. No label is empty, has white space at its ends or a ",".
   */
  function ParseGoodWith(value: string): (r: seq<string>)
    ensures forall k :: 0 <= k < |r| ==> r[k] != "" && IsTrimmed(r[k]) && ',' !in r[k]
  {
    NonEmpty(SplitTrimmed(value, ','))
  }

  /** A text without "," gives its trimmed self as the one label, or nothing when that is empty. */
  lemma ParseGoodWithOne(s: string)
    requires ',' !in s
    ensures ParseGoodWith(s) == if Trim(s) == "" then [] else [Trim(s)]
  {
    SplitOne(s, ',');
    assert TrimAll([s]) == [Trim(s)];
    assert NonEmpty([Trim(s)]) == (if Trim(s) == "" then [] else [Trim(s)]) + NonEmpty([]);
  }

  /** The labels before a "," come first, followed by the labels after it. */
  lemma ParseGoodWithComma(a: string, b: string)
    ensures ParseGoodWith(a + "," + b) == ParseGoodWith(a) + ParseGoodWith(b)
  {
    assert a + "," + b == a + [','] + b;
    SplitAppend(a, b, ',');
    TrimAllAppend(Split(a, ','), Split(b, ','));
    NonEmptyAppend(SplitTrimmed(a, ','), SplitTrimmed(b, ','));
  }

  /** Joining non-empty, trimmed labels free of "," with "," and parsing gives the labels back. */
  lemma ParseGoodWithJoin(xs: seq<string>)
    requires forall k :: 0 <= k < |xs| ==> xs[k] != "" && IsTrimmed(xs[k]) && ',' !in xs[k]
    ensures ParseGoodWith(Join(xs, ',')) == xs
  {
    if xs == [] {
      assert Split([], ',') == [[]];
      assert Trim([]) == [];
      assert TrimAll([[]]) == [[]];
    } else {
      SplitTrimmedJoin(xs, ',');
    }
  }

  /** Joining parsed labels with "," and parsing again gives the same labels. */
  lemma ParseGoodWithRoundTrip(value: string)
    ensures ParseGoodWith(Join(ParseGoodWith(value), ',')) == ParseGoodWith(value)
  {
    ParseGoodWithJoin(ParseGoodWith(value));
  }

  // ----------------------------------------------------------------- filter

  /** The settings of the manage tab. */
  datatype Criteria = Criteria(
    search: string,
    filterType: string,
    filterStatus: string,
    filterVaccinated: string,
    filterNeutered: string,
    sortBy: string)

  /** A template literal's rendering of a text field: its value, "null" or "undefined". */
  function Show(f: Field<string>): (r: string)
    ensures f.Given? ==> r == f.value
    ensures f.NullValue? ==> r == "null"
    ensures f.Missing? ==> r == "undefined"
  {
    match f
    case Given(v) => v
    case NullValue => "null"
    case Missing => "undefined"
  }

  /** A template literal's rendering of a number field: its decimal text, "null" or "undefined". */
  function ShowAge(f: Field<int>): (r: string)
    ensures f.Given? ==> r == IntToString(f.value)
    ensures f.NullValue? ==> r == "null"
    ensures f.Missing? ==> r == "undefined"
  {
    match f
    case Given(n) => IntToString(n)
    case NullValue => "null"
    case Missing => "undefined"
  }

  /** The text the search runs over: name, type, breed, age and gender, lower-cased. */
  function Hay(p: ClientPet): (r: string)
    ensures forall i :: 0 <= i < |r| ==> !('A' <= r[i] <= 'Z')
  {
    ToLower(Show(p.name) + " " + Show(p.kind) + " " + Show(p.breed) + " " + ShowAge(p.age) + " " + Show(p.gender))
  }

  /** The search text is the five fields, each lower-cased, separated by single spaces. */
  lemma HayFields(p: ClientPet)
    ensures Hay(p) == ToLower(Show(p.name)) + " " + ToLower(Show(p.kind)) + " " + ToLower(Show(p.breed))
      + " " + ToLower(ShowAge(p.age)) + " " + ToLower(Show(p.gender))
  {
    var n, k, b, a, g := Show(p.name), Show(p.kind), Show(p.breed), ShowAge(p.age), Show(p.gender);
    assert ToLower(" ") == " ";
    ToLowerAppend(n + " " + k + " " + b + " " + a + " ", g);
    ToLowerAppend(n + " " + k + " " + b + " " + a, " ");
    ToLowerAppend(n + " " + k + " " + b + " ", a);
    ToLowerAppend(n + " " + k + " " + b, " ");
    ToLowerAppend(n + " " + k + " ", b);
    ToLowerAppend(n + " " + k, " ");
    ToLowerAppend(n + " ", k);
    ToLowerAppend(n, " ");
  }

  /** A query found in any one lower-cased field is found in the search text. */
  lemma HayHasFields(p: ClientPet, q: string)
    requires Contains(ToLower(Show(p.name)), q) || Contains(ToLower(Show(p.kind)), q)
      || Contains(ToLower(Show(p.breed)), q) || Contains(ToLower(ShowAge(p.age)), q)
      || Contains(ToLower(Show(p.gender)), q)
    ensures Contains(Hay(p), q)
  {
    HayFields(p);
    var n, k, b, a, g := ToLower(Show(p.name)), ToLower(Show(p.kind)), ToLower(Show(p.breed)),
      ToLower(ShowAge(p.age)), ToLower(Show(p.gender));
    var s2 := n + " ";
    var s4 := s2 + k + " ";
    var s6 := s4 + b + " ";
    var s8 := s6 + a + " ";
    assert Contains(s2, q) || Contains(k, q) || Contains(b, q) || Contains(a, q) || Contains(g, q) by {
      if Contains(n, q) { ContainsLeft(n, " ", q); }
    }
    assert Contains(s4, q) || Contains(b, q) || Contains(a, q) || Contains(g, q) by {
      if Contains(s2, q) { ContainsLeft(s2, k, q); ContainsLeft(s2 + k, " ", q); }
      else if Contains(k, q) { ContainsRight(s2, k, q); ContainsLeft(s2 + k, " ", q); }
    }
    assert Contains(s6, q) || Contains(a, q) || Contains(g, q) by {
      if Contains(s4, q) { ContainsLeft(s4, b, q); ContainsLeft(s4 + b, " ", q); }
      else if Contains(b, q) { ContainsRight(s4, b, q); ContainsLeft(s4 + b, " ", q); }
    }
    assert Contains(s8, q) || Contains(g, q) by {
      if Contains(s6, q) { ContainsLeft(s6, a, q); ContainsLeft(s6 + a, " ", q); }
      else if Contains(a, q) { ContainsRight(s6, a, q); ContainsLeft(s6 + a, " ", q); }
    }
    if Contains(s8, q) { ContainsLeft(s8, g, q); } else { ContainsRight(s8, g, q); }
  }

  /** A field the server sent as `null` is searchable as the word "null". */
  lemma HayShowsNull(p: ClientPet)
    requires p.age.NullValue?
    ensures Contains(Hay(p), "null")
  {
    assert ToLower(ShowAge(p.age)) == "null";
    assert OccursAt("null", "null", 0);
    HayHasFields(p, "null");
  }

  /** The query as the search uses it: trimmed and lower-cased. */
  function Query(c: Criteria): (r: string)
    ensures r == ToLower(Trim(c.search))
    ensures IsTrimmed(r)
    ensures forall i :: 0 <= i < |r| ==> !('A' <= r[i] <= 'Z')
    ensures r == "" <==> Trim(c.search) == ""
  {
    var t := Trim(c.search);
    ToLowerTrimmed(t);
    ToLowerNoUpper(t);
    ToLower(t)
  }

  /**
   * What the list promises of a pet it shows: the query occurs in its search
   * text, its type equals the chosen one up to case, and it agrees with each
   * chosen status, vaccinated and neutered setting.
   */
  ghost predicate Selected(c: Criteria, p: ClientPet) {
    && (Query(c) == "" || Contains(Hay(p), Query(c)))
    && (c.filterType == "All" || ToLower(FieldOrEmpty(p.kind)) == ToLower(c.filterType))
    && (c.filterStatus == "All" || OrEmpty(p.status) == c.filterStatus)
    && (c.filterVaccinated == "Any" || p.vaccinated == (c.filterVaccinated == "Yes"))
    && (c.filterNeutered == "Any" || p.neutered == (c.filterNeutered == "Yes"))
  }

  /** The conjunction of the search and the four drop-down filters. */
  function Matches(c: Criteria, p: ClientPet): (b: bool)
    ensures b <==> Selected(c, p)
    ensures (Query(c) == "" && c.filterType == "All" && c.filterStatus == "All"
             && c.filterVaccinated == "Any" && c.filterNeutered == "Any") ==> b
    ensures b && Query(c) != "" ==> Contains(Hay(p), Query(c))
    ensures b && c.filterType != "All" ==> ToLower(FieldOrEmpty(p.kind)) == ToLower(c.filterType)
    ensures b && c.filterStatus != "All" ==> OrEmpty(p.status) == c.filterStatus
    ensures b && c.filterVaccinated != "Any" ==> p.vaccinated == (c.filterVaccinated == "Yes")
    ensures b && c.filterNeutered != "Any" ==> p.neutered == (c.filterNeutered == "Yes")
  {
    && (Query(c) == "" || Includes(Hay(p), Query(c)))
    && (c.filterType == "All" || ToLower(FieldOrEmpty(p.kind)) == ToLower(c.filterType))
    && (c.filterStatus == "All" || OrEmpty(p.status) == c.filterStatus)
    && (c.filterVaccinated == "Any" || p.vaccinated == (c.filterVaccinated == "Yes"))
    && (c.filterNeutered == "Any" || p.neutered == (c.filterNeutered == "Yes"))
  }

  /** With only the search set, a pet whose lower-cased name holds the query is listed. */
  lemma NameSearchKeeps(pets: seq<ClientPet>, c: Criteria, i: int)
    requires 0 <= i < |pets|
    requires c.filterType == "All" && c.filterStatus == "All" && c.filterVaccinated == "Any" && c.filterNeutered == "Any"
    requires Contains(ToLower(Show(pets[i].name)), Query(c))
    ensures pets[i] in FilteredPets(pets, c)
  {
    var p := pets[i];
    HayHasFields(p, Query(c));
    assert Selected(c, p);
    var r := FilteredPets(pets, c);
    assert p in pets;
  }

  /** The settings in which no filter is active. */
  predicate NoActiveFilter(c: Criteria) {
    Query(c) == "" && c.filterType == "All" && c.filterStatus == "All"
    && c.filterVaccinated == "Any" && c.filterNeutered == "Any"
  }

  /** The pets that pass every active filter, in their original order. */
  function Keep(pets: seq<ClientPet>, c: Criteria): (r: seq<ClientPet>)
    ensures |r| <= |pets|
    ensures multiset(r) <= multiset(pets)
    ensures forall x :: x in r <==> x in pets && Matches(c, x)
  {
    if pets == [] then []
    else
      assert pets == [pets[0]] + pets[1..];
      (if Matches(c, pets[0]) then [pets[0]] else []) + Keep(pets[1..], c)
  }

  /** With no filter active every pet is kept, in order. */
  lemma {:induction false} KeepAll(pets: seq<ClientPet>, c: Criteria)
    requires NoActiveFilter(c)
    ensures Keep(pets, c) == pets
  {
    if pets != [] {
      KeepAll(pets[1..], c);
      assert pets == [pets[0]] + pets[1..];
    }
  }

  // ----------------------------------------------------------------- sort

  function NameKey(p: ClientPet): string { FieldOrEmpty(p.name) }

  function StatusKey(p: ClientPet): string { OrEmpty(p.status) }

  /** `a.createdAt ? new Date(a.createdAt).getTime() : 0`, the time given as a number. */
  function Time(p: ClientPet): int {
    if p.createdAt.Some? then p.createdAt.value else 0
  }

  /** `a` may come before `b` under the comparator of sort mode `mode` ("newest" is the fallback). */
  predicate Leq(mode: string, a: ClientPet, b: ClientPet) {
    if mode == "name-asc" then StrLeq(NameKey(a), NameKey(b))
    else if mode == "name-desc" then StrLeq(NameKey(b), NameKey(a))
    else if mode == "status" then StrLeq(StatusKey(a), StatusKey(b))
    else Time(b) <= Time(a)
  }

  /** Pets that agree on name, status and creation time tie both ways under every mode. */
  lemma LeqTies(mode: string, a: ClientPet, b: ClientPet)
    requires NameKey(a) == NameKey(b) && StatusKey(a) == StatusKey(b) && Time(a) == Time(b)
    ensures Leq(mode, a, b) && Leq(mode, b, a)
  {
    StrLeqTotal(NameKey(a), NameKey(b));
    StrLeqTotal(StatusKey(a), StatusKey(b));
  }

  lemma LeqTotal(mode: string, a: ClientPet, b: ClientPet)
    ensures Leq(mode, a, b) || Leq(mode, b, a)
  {
    StrLeqTotal(NameKey(a), NameKey(b));
    StrLeqTotal(StatusKey(a), StatusKey(b));
  }

  lemma LeqTransitive(mode: string, a: ClientPet, b: ClientPet, c: ClientPet)
    requires Leq(mode, a, b) && Leq(mode, b, c)
    ensures Leq(mode, a, c)
  {
    if mode == "name-asc" {
      StrLeqTransitive(NameKey(a), NameKey(b), NameKey(c));
    } else if mode == "name-desc" {
      StrLeqTransitive(NameKey(c), NameKey(b), NameKey(a));
    } else if mode == "status" {
      StrLeqTransitive(StatusKey(a), StatusKey(b), StatusKey(c));
    }
  }

  /** Neighbours are in comparator order. */
  predicate AdjSorted(mode: string, xs: seq<ClientPet>) {
    forall i :: 0 <= i < |xs| - 1 ==> Leq(mode, xs[i], xs[i + 1])
  }

  /** Every earlier pet is in comparator order with every later one. */
  predicate Sorted(mode: string, xs: seq<ClientPet>) {
    forall i, j :: 0 <= i < j < |xs| ==> Leq(mode, xs[i], xs[j])
  }

  /** Puts `x` before the first pet it may precede, so that ties keep `x` first. */
  function Insert(mode: string, x: ClientPet, ys: seq<ClientPet>): (r: seq<ClientPet>)
    ensures multiset(r) == multiset(ys) + multiset{x}
    ensures |r| == |ys| + 1
    ensures r[0] == x || (ys != [] && r[0] == ys[0])
    ensures AdjSorted(mode, ys) ==> AdjSorted(mode, r)
  {
    if ys == [] || Leq(mode, x, ys[0]) then [x] + ys
    else
      LeqTotal(mode, x, ys[0]);
      assert ys == [ys[0]] + ys[1..];
      [ys[0]] + Insert(mode, x, ys[1..])
  }

  /**
   * A stable sort by the comparator of `mode`: for every pet `k`, the pets that
   * tie with `k` come out in the order they went in.
   */
  function SortPets(mode: string, xs: seq<ClientPet>): (r: seq<ClientPet>)
    ensures multiset(r) == multiset(xs)
    ensures |r| == |xs|
    ensures AdjSorted(mode, r)
    ensures forall k :: Ties(mode, k, r) == Ties(mode, k, xs)
  {
    if xs == [] then []
    else
      var rest := SortPets(mode, xs[1..]);
      assert xs == [xs[0]] + xs[1..];
      assert forall k :: Ties(mode, k, Insert(mode, xs[0], rest)) == Ties(mode, k, xs) by {
        forall k ensures Ties(mode, k, Insert(mode, xs[0], rest)) == Ties(mode, k, xs) {
          InsertTies(mode, k, xs[0], rest);
        }
      }
      Insert(mode, xs[0], rest)
  }

  /** Neighbour order is order throughout, the comparator being transitive. */
  lemma {:induction false} AdjSortedIsSorted(mode: string, xs: seq<ClientPet>)
    requires AdjSorted(mode, xs)
    ensures Sorted(mode, xs)
  {
    if |xs| > 1 {
      AdjSortedIsSorted(mode, xs[1..]);
      forall j | 1 < j < |xs| ensures Leq(mode, xs[0], xs[j]) {
        assert xs[1..][0] == xs[1] && xs[1..][j - 1] == xs[j];
        LeqTransitive(mode, xs[0], xs[1], xs[j]);
      }
      forall i, j | 0 <= i < j < |xs| ensures Leq(mode, xs[i], xs[j]) {
        if i > 0 {
          assert xs[1..][i - 1] == xs[i] && xs[1..][j - 1] == xs[j];
        }
      }
    }
  }

  /** When every pet ties with every other, the sort leaves the order as it is. */
  lemma {:induction false} SortKeepsTies(mode: string, xs: seq<ClientPet>)
    requires forall i, j :: 0 <= i < |xs| && 0 <= j < |xs| ==> Leq(mode, xs[i], xs[j])
    ensures SortPets(mode, xs) == xs
  {
    if xs != [] {
      SortKeepsTies(mode, xs[1..]);
      assert xs == [xs[0]] + xs[1..];
      if |xs| > 1 {
        assert Leq(mode, xs[0], xs[1]);
      }
    }
  }

  /** `a` and `b` tie: each may come before the other. */
  predicate Tie(mode: string, a: ClientPet, b: ClientPet) {
    Leq(mode, a, b) && Leq(mode, b, a)
  }

  /** The pets of `xs` that tie with `k`, in their order in `xs`. */
  function Ties(mode: string, k: ClientPet, xs: seq<ClientPet>): seq<ClientPet> {
    if xs == [] then []
    else (if Tie(mode, k, xs[0]) then [xs[0]] else []) + Ties(mode, k, xs[1..])
  }

  lemma TiesCons(mode: string, k: ClientPet, x: ClientPet, ys: seq<ClientPet>)
    ensures Ties(mode, k, [x] + ys) == (if Tie(mode, k, x) then [x] else []) + Ties(mode, k, ys)
  {
    assert ([x] + ys)[0] == x && ([x] + ys)[1..] == ys;
  }

  lemma SwapAroundEmpty<T>(a: seq<T>, b: seq<T>, t: seq<T>)
    requires a == [] || b == []
    ensures a + (b + t) == b + (a + t)
  {
    if a == [] { assert a + (b + t) == b + t && a + t == t; }
    else { assert b + t == t && b + (a + t) == a + t; }
  }

  /** Inserting `x` puts it after no pet of its own tie class. */
  lemma {:induction false} InsertTies(mode: string, k: ClientPet, x: ClientPet, ys: seq<ClientPet>)
    ensures Ties(mode, k, Insert(mode, x, ys)) == (if Tie(mode, k, x) then [x] else []) + Ties(mode, k, ys)
  {
    if ys == [] || Leq(mode, x, ys[0]) {
      assert Insert(mode, x, ys) == [x] + ys;
      TiesCons(mode, k, x, ys);
    } else {
      var y, rest := ys[0], Insert(mode, x, ys[1..]);
      assert Insert(mode, x, ys) == [y] + rest;
      assert ys == [y] + ys[1..];
      TiesCons(mode, k, y, rest);
      TiesCons(mode, k, y, ys[1..]);
      InsertTies(mode, k, x, ys[1..]);
      assert !(Tie(mode, k, x) && Tie(mode, k, y)) by {
        if Tie(mode, k, x) && Tie(mode, k, y) {
          LeqTransitive(mode, x, k, y);
        }
      }
      var tx: seq<ClientPet> := if Tie(mode, k, x) then [x] else [];
      var ty: seq<ClientPet> := if Tie(mode, k, y) then [y] else [];
      var t := Ties(mode, k, ys[1..]);
      SwapAroundEmpty(ty, tx, t);
      calc {
        Ties(mode, k, Insert(mode, x, ys));
        Ties(mode, k, [y] + rest);
        ty + Ties(mode, k, rest);
        ty + (tx + t);
        tx + (ty + t);
        tx + Ties(mode, k, [y] + ys[1..]);
      }
    }
  }

  lemma KeepCons(x: ClientPet, ys: seq<ClientPet>, c: Criteria)
    ensures Keep([x] + ys, c) == (if Matches(c, x) then [x] else []) + Keep(ys, c)
  {
    assert ([x] + ys)[0] == x && ([x] + ys)[1..] == ys;
  }

  /**
   * Filtering and taking a tie class commute: the pets of the kept list that tie
   * with `k` are those of the whole list that tie with `k` and pass the filters,
   * in the same order.
   */
  lemma {:induction false} KeepTies(mode: string, k: ClientPet, pets: seq<ClientPet>, c: Criteria)
    ensures Ties(mode, k, Keep(pets, c)) == Keep(Ties(mode, k, pets), c)
  {
    if pets != [] {
      var p, t := pets[0], pets[1..];
      assert pets == [p] + t;
      KeepCons(p, t, c);
      TiesCons(mode, k, p, t);
      KeepTies(mode, k, t, c);
      if Matches(c, p) {
        TiesCons(mode, k, p, Keep(t, c));
        if Tie(mode, k, p) {
          KeepCons(p, Ties(mode, k, t), c);
        } else {
          assert Ties(mode, k, pets) == Ties(mode, k, t);
        }
      } else {
        assert Keep(pets, c) == Keep(t, c);
        if Tie(mode, k, p) {
          KeepCons(p, Ties(mode, k, t), c);
        } else {
          assert Ties(mode, k, pets) == Ties(mode, k, t);
        }
      }
    }
  }

  /** The pets of `xs` without a creation time, in order. */
  function Undated(xs: seq<ClientPet>): seq<ClientPet> {
    if xs == [] then []
    else (if xs[0].createdAt.None? then [xs[0]] else []) + Undated(xs[1..])
  }

  lemma UndatedCons(x: ClientPet, ys: seq<ClientPet>)
    ensures Undated([x] + ys) == (if x.createdAt.None? then [x] else []) + Undated(ys)
  {
    assert ([x] + ys)[0] == x && ([x] + ys)[1..] == ys;
  }

  /** Inserting under "newest" puts `x` after no undated pet when it is undated itself. */
  lemma {:induction false} InsertUndated(x: ClientPet, ys: seq<ClientPet>)
    ensures Undated(Insert("newest", x, ys)) == (if x.createdAt.None? then [x] else []) + Undated(ys)
  {
    if ys == [] || Leq("newest", x, ys[0]) {
      assert Insert("newest", x, ys) == [x] + ys;
      UndatedCons(x, ys);
    } else {
      var y, rest := ys[0], Insert("newest", x, ys[1..]);
      assert Insert("newest", x, ys) == [y] + rest;
      assert ys == [y] + ys[1..];
      UndatedCons(y, rest);
      UndatedCons(y, ys[1..]);
      InsertUndated(x, ys[1..]);
      assert !(x.createdAt.None? && y.createdAt.None?);
      var tx: seq<ClientPet> := if x.createdAt.None? then [x] else [];
      var ty: seq<ClientPet> := if y.createdAt.None? then [y] else [];
      var t := Undated(ys[1..]);
      SwapAroundEmpty(ty, tx, t);
    }
  }

  /** Under "newest" the pets without a creation time keep their order, whatever else the list holds. */
  lemma {:induction false} NewestKeepsUndated(xs: seq<ClientPet>)
    ensures Undated(SortPets("newest", xs)) == Undated(xs)
  {
    if xs != [] {
      NewestKeepsUndated(xs[1..]);
      InsertUndated(xs[0], SortPets("newest", xs[1..]));
    }
  }

  /**
   * `filteredPets`: the pets that pass the search and every drop-down filter,
   * sorted by the chosen mode; with no filter active, all pets.
   */
  function FilteredPets(pets: seq<ClientPet>, c: Criteria): (r: seq<ClientPet>)
    ensures multiset(r) == multiset(Keep(pets, c)) && multiset(r) <= multiset(pets)
    ensures forall x :: x in r <==> x in pets && Matches(c, x)
    ensures forall x :: x in r <==> x in pets && Selected(c, x)
    ensures forall x :: x in r ==> Query(c) == "" || Contains(Hay(x), Query(c))
    ensures forall x :: x in r ==> c.filterType == "All" || ToLower(FieldOrEmpty(x.kind)) == ToLower(c.filterType)
    ensures NoActiveFilter(c) ==> multiset(r) == multiset(pets)
    ensures Sorted(c.sortBy, r)
    ensures forall k :: Ties(c.sortBy, k, r) == Keep(Ties(c.sortBy, k, pets), c)
  {
    var kept := Keep(pets, c);
    assert NoActiveFilter(c) ==> kept == pets by {
      if NoActiveFilter(c) {
        KeepAll(pets, c);
      }
    }
    var r := SortPets(c.sortBy, kept);
    AdjSortedIsSorted(c.sortBy, r);
    assert forall k :: Ties(c.sortBy, k, r) == Keep(Ties(c.sortBy, k, pets), c) by {
      forall k ensures Ties(c.sortBy, k, r) == Keep(Ties(c.sortBy, k, pets), c) {
        KeepTies(c.sortBy, k, pets, c);
      }
    }
    assert forall x :: x in r <==> x in kept by {
      forall x ensures x in r <==> x in kept {
        assert x in r <==> x in multiset(r);
      }
    }
    r
  }

  // ----------------------------------------------------------------- stats

  /** The number of pets whose status is exactly `s`. */
  function CountStatus(pets: seq<ClientPet>, s: string): (n: nat)
    ensures n <= |pets|
    ensures n == 0 <==> forall i :: 0 <= i < |pets| ==> pets[i].status != Some(s)
    ensures n == |pets| <==> forall i :: 0 <= i < |pets| ==> pets[i].status == Some(s)
  {
    if pets == [] then 0
    else (if pets[0].status == Some(s) then 1 else 0) + CountStatus(pets[1..], s)
  }

  datatype Stats = Stats(total: nat, available: nat, adopted: nat, pending: nat)

  /** The dashboard counts. */
  function ComputeStats(pets: seq<ClientPet>): (r: Stats)
    ensures r.total == |pets|
    ensures r.available == CountStatus(pets, "Available")
    ensures r.adopted == CountStatus(pets, "Adopted")
    ensures r.pending == CountStatus(pets, "Pending")
    ensures r.available + r.adopted + r.pending <= r.total
  {
    StatusCountsBound(pets);
    Stats(|pets|, CountStatus(pets, "Available"), CountStatus(pets, "Adopted"), CountStatus(pets, "Pending"))
  }

  /** No pet is counted under two statuses. */
  lemma {:induction false} StatusCountsBound(pets: seq<ClientPet>)
    ensures CountStatus(pets, "Available") + CountStatus(pets, "Adopted") + CountStatus(pets, "Pending") <= |pets|
  {
    if pets != [] {
      StatusCountsBound(pets[1..]);
    }
  }

  /** The only-status settings of the manage tab. */
  function StatusOnly(s: string): Criteria {
    Criteria("", "All", s, "Any", "Any", "newest")
  }

  /** A dashboard count is the length of the manage list filtered by that status alone. */
  lemma {:induction false} CountIsFilterLength(pets: seq<ClientPet>, s: string)
    requires s != "" && s != "All"
    ensures CountStatus(pets, s) == |Keep(pets, StatusOnly(s))|
  {
    if pets != [] {
      CountIsFilterLength(pets[1..], s);
      assert Query(StatusOnly(s)) == "" by {
        assert Trim("") == "";
      }
    }
  }

  lemma CountIsFilteredPetsLength(pets: seq<ClientPet>, s: string)
    requires s != "" && s != "All"
    ensures CountStatus(pets, s) == |FilteredPets(pets, StatusOnly(s))|
  {
    CountIsFilterLength(pets, s);
    var r := FilteredPets(pets, StatusOnly(s));
    assert |r| == |multiset(r)|;
  }

  // ----------------------------------------------------------------- type options

  /** `t[0].toUpperCase() + t.slice(1)` */
  function Capitalize(t: string): (r: string)
    requires t != ""
    ensures |r| == |t| && r[0] == UpperChar(t[0]) && r[1..] == t[1..]
  {
    [UpperChar(t[0])] + t[1..]
  }

  /** Capitalising a trimmed text keeps it trimmed. */
  lemma CapitalizeTrimmed(t: string)
    requires t != "" && IsTrimmed(t)
    ensures IsTrimmed(Capitalize(t))
  {
    var r := Capitalize(t);
    if |t| > 1 {
      assert r[|t| - 1] == r[1..][|t| - 2] == t[|t| - 1];
    }
  }

  /** `(p.type || "").trim()` */
  function TrimmedType(p: ClientPet): string {
    Trim(FieldOrEmpty(p.kind))
  }

  /** The trimmed type of every pet, in order. */
  function TypeTexts(pets: seq<ClientPet>): (ts: seq<string>)
    ensures |ts| == |pets|
    ensures forall k :: 0 <= k < |pets| ==> ts[k] == TrimmedType(pets[k])
  {
    if pets == [] then [] else [TrimmedType(pets[0])] + TypeTexts(pets[1..])
  }

  /** `.filter(Boolean).map(t => t[0].toUpperCase() + t.slice(1))` */
  function Labels(ts: seq<string>): (r: seq<string>)
    ensures (forall k :: 0 <= k < |ts| ==> IsTrimmed(ts[k])) ==>
      forall x :: x in r ==> x != "" && IsTrimmed(x)
  {
    if ts == [] then []
    else if ts[0] == "" then Labels(ts[1..])
    else
      assert (forall k :: 0 <= k < |ts| ==> IsTrimmed(ts[k])) ==> IsTrimmed(ts[0]);
      if IsTrimmed(ts[0]) then
        CapitalizeTrimmed(ts[0]);
        [Capitalize(ts[0])] + Labels(ts[1..])
      else [Capitalize(ts[0])] + Labels(ts[1..])
  }

  /** Every non-empty text contributes its label. */
  lemma {:induction false} LabelsComplete(ts: seq<string>, i: int)
    requires 0 <= i < |ts| && ts[i] != ""
    ensures Capitalize(ts[i]) in Labels(ts)
  {
    if i > 0 {
      assert ts[1..][i - 1] == ts[i];
      LabelsComplete(ts[1..], i - 1);
    }
  }

  /** Every label comes from some non-empty text. */
  lemma {:induction false} LabelsSound(ts: seq<string>, x: string) returns (i: nat)
    requires x in Labels(ts)
    ensures i < |ts| && ts[i] != "" && x == Capitalize(ts[i])
  {
    if ts[0] != "" && x == Capitalize(ts[0]) {
      i := 0;
    } else {
      var j := LabelsSound(ts[1..], x);
      assert ts[1..][j] == ts[j + 1];
      i := j + 1;
    }
  }

  /** The capitalised non-empty trimmed types, in pet order, with repeats. */
  function TypeLabels(pets: seq<ClientPet>): (r: seq<string>)
    ensures forall x :: x in r ==> x != "" && IsTrimmed(x)
  {
    Labels(TypeTexts(pets))
  }

  /** Every pet with a non-blank type contributes its label. */
  lemma TypeLabelsComplete(pets: seq<ClientPet>, i: int)
    requires 0 <= i < |pets| && TrimmedType(pets[i]) != ""
    ensures Capitalize(TrimmedType(pets[i])) in TypeLabels(pets)
  {
    LabelsComplete(TypeTexts(pets), i);
  }

  /** Every label comes from the type of some pet. */
  lemma TypeLabelsSound(pets: seq<ClientPet>, x: string) returns (i: nat)
    requires x in TypeLabels(pets)
    ensures i < |pets| && TrimmedType(pets[i]) != "" && x == Capitalize(TrimmedType(pets[i]))
  {
    i := LabelsSound(TypeTexts(pets), x);
  }

  /** Every text occurs at most once. */
  predicate NoDup(xs: seq<string>) {
    forall x :: x in xs ==> multiset(xs)[x] <= 1
  }

  /** Occurring at most once means no two positions hold the same text. */
  lemma NoDupDistinct(xs: seq<string>, i: int, j: int)
    requires NoDup(xs) && 0 <= i < j < |xs|
    ensures xs[i] != xs[j]
  {
    if xs[i] == xs[j] {
      TwiceCounted(xs, i, j);
    }
  }

  /** A text at two positions is counted at least twice. */
  lemma TwiceCounted(xs: seq<string>, i: int, j: int)
    requires 0 <= i < j < |xs| && xs[i] == xs[j]
    ensures multiset(xs)[xs[i]] >= 2
  {
    assert xs == xs[..j] + xs[j..];
    assert xs[i] in xs[..j];
    assert xs[j] in xs[j..];
    assert multiset(xs)[xs[i]] == multiset(xs[..j])[xs[i]] + multiset(xs[j..])[xs[i]];
  }

  /** `new Set(xs)` read back in insertion order: first occurrences only. */
  function Dedup(xs: seq<string>): (r: seq<string>)
    ensures NoDup(r)
    ensures forall x :: x in r <==> x in xs
  {
    if xs == [] then []
    else
      var init := xs[..|xs| - 1];
      var r := Dedup(init);
      assert xs == init + [xs[|xs| - 1]];
      if xs[|xs| - 1] in r then r
      else
        assert multiset(r + [xs[|xs| - 1]]) == multiset(r) + multiset{xs[|xs| - 1]};
        r + [xs[|xs| - 1]]
  }

  predicate StrSorted(xs: seq<string>) {
    forall i :: 0 <= i < |xs| - 1 ==> StrLeq(xs[i], xs[i + 1])
  }

  function InsertStr(x: string, ys: seq<string>): (r: seq<string>)
    ensures multiset(r) == multiset(ys) + multiset{x}
    ensures r[0] == x || (ys != [] && r[0] == ys[0])
    ensures StrSorted(ys) ==> StrSorted(r)
  {
    if ys == [] || StrLeq(x, ys[0]) then [x] + ys
    else
      StrLeqTotal(x, ys[0]);
      assert ys == [ys[0]] + ys[1..];
      [ys[0]] + InsertStr(x, ys[1..])
  }

  /** `.sort((a, b) => a.localeCompare(b))` on texts. */
  function SortStrings(xs: seq<string>): (r: seq<string>)
    ensures multiset(r) == multiset(xs)
    ensures StrSorted(r)
  {
    if xs == [] then []
    else
      assert xs == [xs[0]] + xs[1..];
      InsertStr(xs[0], SortStrings(xs[1..]))
  }

  /** Two lists that are permutations of each other hold the same texts. */
  lemma SameMembers(a: seq<string>, b: seq<string>)
    requires multiset(a) == multiset(b)
    ensures forall z :: z in a <==> z in b
  {
    forall z ensures z in a <==> z in b {
      assert z in a <==> z in multiset(a);
      assert z in b <==> z in multiset(b);
    }
  }

  /** The options after "All": every type that occurs, trimmed and capitalised, once each, in sorted order. */
  function SortedTypes(pets: seq<ClientPet>): (r: seq<string>)
    ensures forall x :: x in r <==> x in TypeLabels(pets)
    ensures forall x :: x in r ==> x != "" && IsTrimmed(x)
    ensures NoDup(r) && StrSorted(r)
  {
    var labels := TypeLabels(pets);
    var d := Dedup(labels);
    var sorted := SortStrings(d);
    SameMembers(sorted, d);
    sorted
  }

  /** The settings in which only the type filter is set, to `t`. */
  function TypeOnly(t: string): Criteria {
    Criteria("", t, "All", "Any", "Any", "newest")
  }

  /**
   * The type filter compares the pet's type untrimmed while the drop-down
   * offers trimmed types: for a pet whose type has white space at an end, the
   * option made from its type is offered but does not select it.
   */
  lemma UntrimmedTypeNotSelected(pets: seq<ClientPet>, i: int)
    requires 0 <= i < |pets| && TrimmedType(pets[i]) != ""
    requires TrimmedType(pets[i]) != FieldOrEmpty(pets[i].kind)
    requires Capitalize(TrimmedType(pets[i])) != "All"
    ensures Capitalize(TrimmedType(pets[i])) in TypeOptions(pets)[1..]
    ensures !Matches(TypeOnly(Capitalize(TrimmedType(pets[i]))), pets[i])
  {
    var kind := FieldOrEmpty(pets[i].kind);
    var t := TrimmedType(pets[i]);
    TypeLabelsComplete(pets, i);
    TrimShorter(kind);
    assert |ToLower(kind)| != |ToLower(Capitalize(t))|;
    assert Query(TypeOnly(Capitalize(t))) == "" by {
      assert Trim("") == "";
    }
  }

  /** `typeOptions`: "All" followed by the sorted types. */
  function TypeOptions(pets: seq<ClientPet>): (r: seq<string>)
    ensures |r| >= 1 && r[0] == "All"
    ensures r[1..] == SortedTypes(pets)
  {
    var sorted := SortedTypes(pets);
    assert (["All"] + sorted)[1..] == sorted;
    ["All"] + sorted
  }
}
