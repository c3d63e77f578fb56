/**
 * Parsed JSON values as the JavaScript program holds them after `JSON.parse`.
 * Object entries are kept in the order JavaScript enumerates them, because
 * that order drives both the traversal and the serialised output.
 */
module Json {

  import opened Wrappers
  import opened Decimal

  datatype Json =
    | JNull
    | JBool(b: bool)
    | JNum(n: int)
    | JStr(s: string)
    | JArr(items: seq<Json>)
    | JObj(entries: seq<(string, Json)>)

  type Entries = seq<(string, Json)>

  /** JavaScript truthiness: `null`, `false`, `0` and `""` are falsy; objects and arrays are truthy. */
  predicate Truthy(v: Json) {
    match v
    case JNull => false
    case JBool(b) => b
    case JNum(n) => n != 0
    case JStr(s) => s != ""
    case _ => true
  }

  /** `typeof v === 'object'` for a value that is not null. */
  predicate IsContainer(v: Json) {
    v.JObj? || v.JArr?
  }

  function Keys(es: Entries): (ks: seq<string>)
    ensures |ks| == |es|
    ensures forall i :: 0 <= i < |es| ==> ks[i] == es[i].0
  {
    seq(|es|, i requires 0 <= i < |es| => es[i].0)
  }

  predicate UniqueKeys(es: Entries) {
    forall i, j :: 0 <= i < j < |es| ==> es[i].0 != es[j].0
  }

  /**
   * `Object.entries(v)` for an object or an array: an object's entries, an array's
   * elements under the keys "0", "1", .... Any other value has none here, although
   * `Object.entries` lists a string's characters; none of those is `__compat` or an object.
   */
  function Children(v: Json): (r: Entries)
    ensures forall i :: 0 <= i < |r| ==> r[i].1 < v
    ensures v.JObj? ==> r == v.entries
    ensures !IsContainer(v) ==> r == []
  {
    match v
    case JObj(es) => es
    case JArr(items) => seq(|items|, i requires 0 <= i < |items| => (NatToString(i), items[i]))
    case _ => []
  }

  /** Every object in the value has pairwise distinct keys, as JavaScript objects do. */
  predicate WellFormed(v: Json)
    decreases v
  {
    match v
    case JObj(es) => UniqueKeys(es) && forall i :: 0 <= i < |es| ==> WellFormed(es[i].1)
    case JArr(items) => forall i :: 0 <= i < |items| ==> WellFormed(items[i])
    case _ => true
  }

  predicate EntriesWellFormed(es: Entries) {
    WellFormed(JObj(es))
  }

  /** Position of key k in es, the first one if there are several. */
  function IndexOf(es: Entries, k: string): (r: Option<nat>)
    ensures r.Some? ==> r.value < |es| && es[r.value].0 == k && forall j :: 0 <= j < r.value ==> es[j].0 != k
    ensures r.None? ==> forall j :: 0 <= j < |es| ==> es[j].0 != k
  {
    if es == [] then None
    else if es[0].0 == k then Some(0)
    else match IndexOf(es[1..], k)
      case None => None
      case Some(j) => Some(j + 1)
  }

  /** `obj[k]` read on an object: None is `undefined`. */
  function Lookup(es: Entries, k: string): (r: Option<Json>)
    ensures r.None? <==> k !in Keys(es)
  {
    match IndexOf(es, k)
    case None => None
    case Some(i) => Some(es[i].1)
  }

  /** `obj[k] = v`: an existing key keeps its place, a new key is appended. */
  function Set(es: Entries, k: string, v: Json): Entries {
    match IndexOf(es, k)
    case Some(i) => es[i := (k, v)]
    case None => es + [(k, v)]
  }

  lemma LookupAt(es: Entries, i: nat)
    requires UniqueKeys(es) && i < |es|
    ensures Lookup(es, es[i].0) == Some(es[i].1)
  {
    var r := IndexOf(es, es[i].0);
    assert r.Some? && r.value == i;
  }

  /** Assignment to a key changes that key's value and no other; new keys go to the end. */
  lemma SetProperties(es: Entries, k: string, v: Json)
    requires UniqueKeys(es)
    ensures UniqueKeys(Set(es, k, v))
    ensures Lookup(Set(es, k, v), k) == Some(v)
    ensures forall k' :: k' != k ==> Lookup(Set(es, k, v), k') == Lookup(es, k')
    ensures Keys(Set(es, k, v)) == if k in Keys(es) then Keys(es) else Keys(es) + [k]
  {
    var r := Set(es, k, v);
    assert Keys(r) == if k in Keys(es) then Keys(es) else Keys(es) + [k];
    forall k' | k' != k
      ensures Lookup(r, k') == Lookup(es, k')
    {
      match IndexOf(es, k')
      case None =>
        assert k' !in Keys(r);
      case Some(i) =>
        assert r[i] == es[i];
        LookupAt(r, i);
    }
    match IndexOf(es, k)
    case Some(i) => LookupAt(r, i);
    case None => LookupAt(r, |es|);
  }

  /** Assigning a key the value it already holds changes nothing. */
  lemma SetSame(es: Entries, k: string, v: Json)
    requires UniqueKeys(es) && Lookup(es, k) == Some(v)
    ensures Set(es, k, v) == es
  {
  }

  lemma SetWellFormed(es: Entries, k: string, v: Json)
    requires EntriesWellFormed(es) && WellFormed(v)
    ensures EntriesWellFormed(Set(es, k, v))
  {
    SetProperties(es, k, v);
  }

  /** Two objects with the same keys in the same order and the same values are equal. */
  lemma EntriesExtensional(a: Entries, b: Entries)
    requires UniqueKeys(a) && Keys(a) == Keys(b)
    requires forall k :: Lookup(a, k) == Lookup(b, k)
    ensures a == b
  {
    assert UniqueKeys(b) by {
      forall i, j | 0 <= i < j < |b| ensures b[i].0 != b[j].0 {
        assert Keys(a)[i] == Keys(b)[i] && Keys(a)[j] == Keys(b)[j];
      }
    }
    assert |a| == |Keys(a)| == |Keys(b)| == |b|;
    forall i | 0 <= i < |a|
      ensures a[i] == b[i]
    {
      assert Keys(a)[i] == Keys(b)[i];
      LookupAt(a, i);
      LookupAt(b, i);
      assert Lookup(a, a[i].0) == Lookup(b, b[i].0);
    }
  }

  /** An array's keys "0", "1", ... are distinct. */
  lemma ChildrenUniqueKeys(v: Json)
    requires WellFormed(v)
    ensures UniqueKeys(Children(v))
  {
    if v.JArr? {
      var c := Children(v);
      forall i, j | 0 <= i < j < |c| ensures c[i].0 != c[j].0 {
        assert c[i].0 == NatToString(i) && c[j].0 == NatToString(j);
        NatToStringInjective(i, j);
      }
    }
  }

  lemma ChildrenWellFormed(v: Json, i: nat)
    requires WellFormed(v) && i < |Children(v)|
    ensures WellFormed(Children(v)[i].1)
  {
  }

  /** A value read from a well-formed object is well-formed. */
  lemma LookupWellFormed(es: Entries, k: string)
    requires EntriesWellFormed(es) && Lookup(es, k).Some?
    ensures WellFormed(Lookup(es, k).value)
  {
    var i := IndexOf(es, k).value;
    assert Lookup(es, k).value == es[i].1;
  }

  /** Two objects, or two arrays, with the same entries are the same value. */
  lemma ChildrenDetermine(a: Json, b: Json)
    requires (a.JObj? && b.JObj?) || (a.JArr? && b.JArr?)
    requires Children(a) == Children(b)
    ensures a == b
  {
    if a.JArr? {
      assert |a.items| == |Children(a)| == |Children(b)| == |b.items|;
      forall i | 0 <= i < |a.items| ensures a.items[i] == b.items[i] {
        assert Children(a)[i].1 == a.items[i];
        assert Children(b)[i].1 == b.items[i];
      }
    }
  }

  /** Where a key sits depends only on the sequence of keys. */
  lemma IndexOfKeys(a: Entries, b: Entries, k: string)
    requires Keys(a) == Keys(b)
    ensures IndexOf(a, k) == IndexOf(b, k)
  {
    assert |a| == |b|;
    forall j | 0 <= j < |a| ensures a[j].0 == b[j].0 {
      assert Keys(a)[j] == Keys(b)[j];
    }
  }
}
