/**
 * The five-step adoption wizard: the step moves between 1 and 5 with Next and
 * Back, every input writes one field of the application, step 4 reviews the
 * answers and asks for consent, and the request can be submitted from step 5
 * once the terms are accepted.
 */
module StartAdoption {
  import opened Js
  import opened Strings
  import opened FormState

  const FirstStep := 1
  const LastStep := 5
  const TermsKey := "termsAccepted"

  /** `Math.min(prev + 1, 5)` */
  function Next(s: int): (r: int)
    ensures r <= LastStep
    ensures s < LastStep ==> r == s + 1
    ensures s >= LastStep ==> r == LastStep
  {
    if s + 1 < LastStep then s + 1 else LastStep
  }

  /** `Math.max(prev - 1, 1)` */
  function Back(s: int): (r: int)
    ensures r >= FirstStep
    ensures s > FirstStep ==> r == s - 1
    ensures s <= FirstStep ==> r == FirstStep
  {
    if s - 1 > FirstStep then s - 1 else FirstStep
  }

  predicate InRange(s: int) {
    FirstStep <= s <= LastStep
  }

  /** Before the last step, Back undoes Next. */
  lemma BackUndoesNext(s: int)
    requires FirstStep <= s < LastStep
    ensures Back(Next(s)) == s
  {
  }

  datatype Action = GoNext | GoBack

  /** The step after pressing the buttons in `actions`, starting from `s`; a step in range stays in range. */
  function Run(s: int, actions: seq<Action>): (r: int)
    ensures InRange(s) ==> InRange(r)
    decreases |actions|
  {
    if actions == [] then s
    else Run(if actions[0] == GoNext then Next(s) else Back(s), actions[1..])
  }

  /** Pressing Next `n` times moves `n` steps forward, stopping at the last step. */
  lemma {:induction false} RunNexts(s: int, n: nat)
    requires InRange(s)
    ensures Run(s, seq(n, _ => GoNext)) == if s + n <= LastStep then s + n else LastStep
    decreases n
  {
    if n > 0 {
      assert seq(n, _ => GoNext)[1..] == seq(n - 1, _ => GoNext);
      RunNexts(Next(s), n - 1);
    }
  }

  /** The field names each input step shows, in order. */
  const Step1Fields := ["fullName", "email", "phone", "address"]
  const Step2Fields := ["residenceType", "otherPets", "familyMembers", "experience"]
  const Step3Fields := ["motivation"]

  /** The application as it starts: every answer empty, the terms not accepted. */
  function InitialForm(): (f: Form)
    ensures |f| == 10 && f[9] == Entry(TermsKey, Flag(false))
    ensures forall i :: 0 <= i < 9 ==> f[i].value == Text("")
  {
    [Entry("fullName", Text("")), Entry("email", Text("")), Entry("phone", Text("")),
     Entry("address", Text("")), Entry("residenceType", Text("")), Entry("otherPets", Text("")),
     Entry("familyMembers", Text("")), Entry("experience", Text("")), Entry("motivation", Text("")),
     Entry(TermsKey, Flag(false))]
  }

  predicate IsUpper(c: char) {
    'A' <= c <= 'Z'
  }

  /** One character of a label: a capital letter gets a space in front of it. */
  function Spaced(c: char): string {
    if IsUpper(c) then [' ', c] else [c]
  }

  /** `key.replace(/([A-Z])/g, " $1")`: a space before every capital letter. */
  function Label(key: string): string {
    if key == [] then [] else Spaced(key[0]) + Label(key[1..])
  }

  /** One character with a space dropped. */
  function Kept(c: char): string {
    if c == ' ' then [] else [c]
  }

  /** The text without its spaces. */
  function DropSpaces(s: string): string {
    if s == [] then [] else Kept(s[0]) + DropSpaces(s[1..])
  }

  /** The spaces a label adds are all it adds: dropping them gives the key back. */
  lemma {:induction false} LabelDropSpaces(key: string)
    requires ' ' !in key
    ensures DropSpaces(Label(key)) == key
  {
    if key != [] {
      LabelDropSpaces(key[1..]);
      DropSpacesAppend(Spaced(key[0]), Label(key[1..]));
      assert DropSpaces(Spaced(key[0])) == [key[0]] by {
        if IsUpper(key[0]) {
          assert DropSpaces([' ', key[0]]) == Kept(' ') + DropSpaces([key[0]]);
        }
      }
      assert key == [key[0]] + key[1..];
    }
  }

  lemma {:induction false} DropSpacesAppend(a: string, b: string)
    ensures DropSpaces(a + b) == DropSpaces(a) + DropSpaces(b)
  {
    if a == [] {
      assert a + b == b;
    } else {
      var ab := a + b;
      assert ab[0] == a[0] && ab[1..] == a[1..] + b;
      DropSpacesAppend(a[1..], b);
      calc {
        DropSpaces(ab);
        Kept(a[0]) + DropSpaces(a[1..] + b);
        Kept(a[0]) + (DropSpaces(a[1..]) + DropSpaces(b));
        (Kept(a[0]) + DropSpaces(a[1..])) + DropSpaces(b);
      }
    }
  }

  /** A key without capitals is its own label. */
  lemma {:induction false} LabelNoCapitals(key: string)
    requires forall i :: 0 <= i < |key| ==> !IsUpper(key[i])
    ensures Label(key) == key
  {
    if key != [] {
      LabelNoCapitals(key[1..]);
      assert key == [key[0]] + key[1..];
    }
  }

  /** `{val || "N/A"}` as React shows it: a falsy value as "N/A", `true` as nothing, labels side by side. */
  function ShowValue(v: FormValue): (r: string)
    ensures !TruthyValue(v) ==> r == "N/A"
    ensures v.Text? && v.s != "" ==> r == v.s
    ensures v == Flag(true) ==> r == ""
  {
    match v
    case Text(s) => if s == "" then "N/A" else s
    case Number(n) => if n == 0 then "N/A" else IntToString(n)
    case Flag(b) => if b then "" else "N/A"
    case Tags(items) => Concat(items)
  }

  function Concat(xs: seq<string>): string {
    if xs == [] then [] else xs[0] + Concat(xs[1..])
  }

  datatype ReviewLine = ReviewLine(caption: string, value: string)

  /** The line the review shows for one entry: its spaced-out key and its shown value. */
  function Line(e: Entry): ReviewLine {
    ReviewLine(Label(e.key), ShowValue(e.value))
  }

  /** The review of step 4: one line per field other than the consent box, in the form's order. */
  function ReviewLines(f: Form): (r: seq<ReviewLine>)
    ensures |r| <= |f|
  {
    if f == [] then []
    else if f[0].key == TermsKey then ReviewLines(f[1..])
    else [Line(f[0])] + ReviewLines(f[1..])
  }

  /** Without a consent entry, every entry has its line, in order. */
  lemma {:induction false} ReviewLinesAll(f: Form)
    requires forall j :: 0 <= j < |f| ==> f[j].key != TermsKey
    ensures |ReviewLines(f)| == |f|
    ensures forall i :: 0 <= i < |f| ==> ReviewLines(f)[i] == Line(f[i])
  {
    if f != [] {
      ReviewLinesAll(f[1..]);
      assert forall i :: 1 <= i < |f| ==> ReviewLines(f)[i] == ReviewLines(f[1..])[i - 1];
    }
  }

  /** Every line of the review comes from an entry other than the consent box. */
  lemma {:induction false} ReviewLinesSound(f: Form, i: nat) returns (j: nat)
    requires i < |ReviewLines(f)|
    ensures j < |f| && f[j].key != TermsKey && ReviewLines(f)[i] == Line(f[j])
  {
    if f[0].key == TermsKey {
      j := ReviewLinesSound(f[1..], i);
      j := j + 1;
    } else if i == 0 {
      j := 0;
    } else {
      j := ReviewLinesSound(f[1..], i - 1);
      j := j + 1;
    }
  }

  /** Every entry other than the consent box has its line in the review. */
  lemma {:induction false} ReviewLinesComplete(f: Form, j: nat)
    requires j < |f| && f[j].key != TermsKey
    ensures Line(f[j]) in ReviewLines(f)
  {
    if j > 0 {
      ReviewLinesComplete(f[1..], j - 1);
    }
  }

  /** With the consent entry last, every other entry has its line, in order. */
  lemma {:induction false} ReviewLinesConsentLast(f: Form)
    requires |f| > 0 && f[|f| - 1].key == TermsKey
    requires forall j :: 0 <= j < |f| - 1 ==> f[j].key != TermsKey
    ensures |ReviewLines(f)| == |f| - 1
    ensures forall i :: 0 <= i < |f| - 1 ==> ReviewLines(f)[i] == Line(f[i])
  {
    if |f| > 1 {
      ReviewLinesConsentLast(f[1..]);
      assert forall i :: 1 <= i < |f| - 1 ==> ReviewLines(f)[i] == ReviewLines(f[1..])[i - 1];
    }
  }

  /** What a step shows. */
  datatype Screen =
    | Inputs(fields: seq<string>)
    | Review(lines: seq<ReviewLine>, consent: string)
    | Confirm(petName: string)
    | Blank

  /** `StepContent`: the step's inputs, the review with the consent box, the confirmation, or nothing. */
  function StepContent(step: int, f: Form, petName: Option<string>): (r: Screen)
    ensures !InRange(step) <==> r == Blank
    ensures step == 4 ==> r == Review(ReviewLines(f), TermsKey)
    ensures step == 5 ==> r == Confirm(if petName.Some? then petName.value else "")
  {
    if step == 1 then Inputs(Step1Fields)
    else if step == 2 then Inputs(Step2Fields)
    else if step == 3 then Inputs(Step3Fields)
    else if step == 4 then Review(ReviewLines(f), TermsKey)
    else if step == 5 then Confirm(if petName.Some? then petName.value else "")
    else Blank
  }

  /** The submit button is shown at the last step and enabled only once the terms are accepted. */
  function SubmitEnabled(step: int, f: Form): (b: bool)
    ensures b <==> step >= LastStep && Lookup(f, TermsKey).Some? && TruthyValue(Lookup(f, TermsKey).value)
  {
    step >= LastStep && match Lookup(f, TermsKey)
      case None => false
      case Some(v) => TruthyValue(v)
  }

  /** A fresh application cannot be submitted: the terms start unaccepted. */
  lemma FreshFormCannotSubmit(step: int)
    ensures !SubmitEnabled(step, InitialForm())
  {
    var f := InitialForm();
    forall i | 0 <= i < 9 ensures f[i].key != TermsKey {
      assert f[i].key[0] != TermsKey[0] || |f[i].key| != |TermsKey|;
    }
    LookupLast(f, TermsKey);
  }

  /** A key found only in the last entry is looked up there. */
  lemma {:induction false} LookupLast(f: Form, k: string)
    requires |f| > 0 && f[|f| - 1].key == k
    requires forall i :: 0 <= i < |f| - 1 ==> f[i].key != k
    ensures Lookup(f, k) == Some(f[|f| - 1].value)
  {
    if |f| > 1 {
      LookupLast(f[1..], k);
    }
  }

  /** Ticking the consent box at the last step enables submitting. */
  lemma ConsentEnablesSubmit(f: Form)
    ensures SubmitEnabled(LastStep, Set(f, TermsKey, EventValue(InputEvent(TermsKey, "on", true, true))))
  {
    SetLookup(f, TermsKey, Flag(true));
  }

  /** The page submitting goes to. */
  function ConfirmationPath(petId: string): (r: string)
    ensures IsPrefix("/adoption/confirmation/", r) && r[|"/adoption/confirmation/"|..] == petId
  {
    "/adoption/confirmation/" + petId
  }

  /** The wizard's state. */
  class AdoptionWizard {
    var step: int
    var form: Form
    const petId: string

    ghost predicate Valid()
      reads this
    {
      InRange(step)
    }

    constructor (petId: string)
      ensures Valid() && step == FirstStep && form == InitialForm() && this.petId == petId
    {
      this.petId := petId;
      step := FirstStep;
      form := InitialForm();
    }

    /** `handleNext` */
    method HandleNext()
      requires Valid()
      modifies this
      ensures Valid() && step == Next(old(step)) && form == old(form)
    {
      step := Next(step);
    }

    /** `handleBack` */
    method HandleBack()
      requires Valid()
      modifies this
      ensures Valid() && step == Back(old(step)) && form == old(form)
    {
      step := Back(step);
    }

    /** `handleChange`: only the named field changes. */
    method HandleChange(e: InputEvent)
      requires Valid()
      modifies this
      ensures Valid() && step == old(step) && form == Set(old(form), e.name, EventValue(e))
      ensures Lookup(form, e.name) == Some(EventValue(e))
      ensures forall k :: k != e.name ==> Lookup(form, k) == Lookup(old(form), k)
    {
      SetLookup(form, e.name, EventValue(e));
      form := Set(form, e.name, EventValue(e));
    }

    /** `handleSubmit`: where the browser is sent. */
    method HandleSubmit() returns (target: string)
      ensures target == ConfirmationPath(petId)
    {
      target := ConfirmationPath(petId);
    }
  }
}
