/**
 * React component state that is a plain JavaScript object, updated with
 * `setState(prev => ({ ...prev, [name]: value }))`. An object keeps its keys
 * in insertion order, which `Object.entries` reports, so the state is an
 * ordered list of entries with distinct keys.
 */
module FormState {
  import opened Js
  import opened Strings

  /** A state value: a text, a number, a boolean or an array of texts. */
  datatype FormValue = Text(s: string) | Number(n: int) | Flag(b: bool) | Tags(items: seq<string>)

  datatype Entry = Entry(key: string, value: FormValue)

  type Form = seq<Entry>

  /** What an `onChange` handler reads from `e.target`. */
  datatype InputEvent = InputEvent(name: string, value: string, isCheckbox: bool, checked: bool)

  function Keys(f: Form): (ks: seq<string>)
    ensures |ks| == |f|
    ensures forall i :: 0 <= i < |f| ==> ks[i] == f[i].key
  {
    if f == [] then [] else [f[0].key] + Keys(f[1..])
  }

  predicate DistinctKeys(f: Form) {
    var ks := Keys(f);
    forall i, j :: 0 <= i < j < |ks| ==> ks[i] != ks[j]
  }

  /** `obj[k]`, `None` standing for `undefined`. */
  function Lookup(f: Form, k: string): (r: Option<FormValue>)
    ensures r.None? <==> k !in Keys(f)
    ensures r.Some? ==> Entry(k, r.value) in f
  {
    if f == [] then None
    else if f[0].key == k then Some(f[0].value)
    else Lookup(f[1..], k)
  }

  /**
   * `{ ...obj, [k]: v }`: an existing key keeps its position and takes the new
   * value; a new key goes last; every other entry is untouched (see also
   * SetLookup, SetKeys, SetKeepsDistinct).
   */
  function Set(f: Form, k: string, v: FormValue): (r: Form)
    ensures |f| <= |r| <= |f| + 1
    ensures forall i :: 0 <= i < |f| ==> r[i].key == f[i].key
    ensures forall i :: 0 <= i < |f| && f[i].key != k ==> r[i] == f[i]
    ensures Entry(k, v) in r
  {
    if f == [] then [Entry(k, v)]
    else if f[0].key == k then [Entry(k, v)] + f[1..]
    else [f[0]] + Set(f[1..], k, v)
  }

  lemma {:induction false} SetLookup(f: Form, k: string, v: FormValue)
    ensures Lookup(Set(f, k, v), k) == Some(v)
    ensures forall k' :: k' != k ==> Lookup(Set(f, k, v), k') == Lookup(f, k')
  {
    if f != [] && f[0].key != k {
      SetLookup(f[1..], k, v);
    }
  }

  lemma {:induction false} SetKeys(f: Form, k: string, v: FormValue)
    ensures k in Keys(f) ==> Keys(Set(f, k, v)) == Keys(f)
    ensures k !in Keys(f) ==> Keys(Set(f, k, v)) == Keys(f) + [k]
  {
    if f == [] {
      assert Keys([Entry(k, v)]) == [k];
    } else if f[0].key == k {
      assert |Set(f, k, v)| == |f|;
    } else {
      var tail := Keys(f[1..]);
      var tail' := Keys(Set(f[1..], k, v));
      assert Keys(f) == [f[0].key] + tail by {
        assert f == [f[0]] + f[1..];
      }
      assert Keys(Set(f, k, v)) == [f[0].key] + tail' by {
        assert Set(f, k, v)[1..] == Set(f[1..], k, v);
      }
      SetKeys(f[1..], k, v);
      if k !in Keys(f) {
        assert tail' == tail + [k];
        AppendAssoc([f[0].key], tail, [k]);
      }
    }
  }

  lemma SetKeepsDistinct(f: Form, k: string, v: FormValue)
    requires DistinctKeys(f)
    ensures DistinctKeys(Set(f, k, v))
  {
    SetKeys(f, k, v);
    if k !in Keys(f) {
      var ks := Keys(Set(f, k, v));
      forall i, j | 0 <= i < j < |ks| ensures ks[i] != ks[j] {
        if j == |ks| - 1 {
          assert ks[i] in Keys(f);
        }
      }
    }
  }

  /** `type === "checkbox" ? checked : value` */
  function EventValue(e: InputEvent): (v: FormValue)
    ensures e.isCheckbox ==> v == Flag(e.checked)
    ensures !e.isCheckbox ==> v == Text(e.value)
  {
    if e.isCheckbox then Flag(e.checked) else Text(e.value)
  }

  /** Truthiness of a state value: a non-empty text, a non-zero number, `true`, or any array. */
  predicate TruthyValue(v: FormValue) {
    match v
    case Text(s) => s != ""
    case Number(n) => n != 0
    case Flag(b) => b
    case Tags(_) => true
  }
}
