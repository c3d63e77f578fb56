/**
 * The per-record callback that `main` in index.js hands to `compatWalker`, and the
 * loop over the sections of one parsed data file. The callback assigns
 * `support.samsunginternet_android` inside the record; the record lives in a tree
 * built by `JSON.parse`, where no value is shared, so the assignment is modelled as
 * the record it leaves behind.
 */
module SamsungInference {

  import opened Wrappers
  import opened Decimal
  import opened Json
  import opened SamsungVersions
  import opened SamsungMerge
  import opened CompatWalker

  const SupportKey := "support"
  const ChromeKey := "chrome_android"
  const SamsungKey := "samsunginternet_android"
  const BrowsersKey := "browsers"

  /** `const {support} = record` when support is an object, the only case that reaches `support.chrome_android`. */
  function SupportOf(record: Json): (r: Option<Entries>)
    ensures r.Some? ==> record.JObj? && Lookup(record.entries, SupportKey) == Some(JObj(r.value))
  {
    if record.JObj? then
      match Lookup(record.entries, SupportKey)
      case Some(JObj(s)) => Some(s)
      case _ => None
    else None
  }

  /** `support.chrome_android` when the callback goes on to infer from it: support is present and it is truthy. */
  function ChromeOf(record: Json): (r: Option<Json>)
    ensures r.Some? ==> SupportOf(record).Some? && Lookup(SupportOf(record).value, ChromeKey) == r && Truthy(r.value)
  {
    match SupportOf(record)
    case None => None
    case Some(s) =>
      match Lookup(s, ChromeKey)
      case Some(c) => if Truthy(c) then Some(c) else None
      case None => None
  }

  /** `support.samsunginternet_android`, when there is a support object. */
  function SamsungEntry(record: Json): Option<Json> {
    match SupportOf(record)
    case None => None
    case Some(s) => Lookup(s, SamsungKey)
  }

  /**
   * `Object.keys(chromeData)` paired with `chromeData[prop]`, for a `chrome_android` that is
   * not an array: an object's own entries, a string's characters under "0", "1", ..., and
   * nothing at all for a number or a boolean.
   */
  function ChromeEntries(c: Json): (r: Entries)
    requires !c.JArr?
  {
    match c
    case JObj(es) => es
    case JStr(s) => seq(|s|, i requires 0 <= i < |s| => (NatToString(i), JStr([s[i]])))
    case _ => []
  }

  /** Chrome data the model infers from: an array of objects, or any other value, with integer versions. */
  predicate ChromeOk(c: Json) {
    if c.JArr? then forall i :: 0 <= i < |c.items| ==> c.items[i].JObj? && VersionFieldsOk(c.items[i].entries)
    else VersionFieldsOk(ChromeEntries(c))
  }

  /**
   * The keys `getSamsungDataFromChromeData` enumerates are distinct and carry well-formed
   * values; for a value that is not an object they hold no version field.
   */
  lemma ChromeEntriesWellFormed(c: Json)
    requires !c.JArr? && WellFormed(c)
    ensures EntriesWellFormed(ChromeEntries(c))
    ensures !c.JObj? ==> VersionFieldsOk(ChromeEntries(c)) && |ChromeEntries(c)| == (if c.JStr? then |c.s| else 0)
  {
    if c.JStr? {
      var es := ChromeEntries(c);
      forall i, j | 0 <= i < j < |es| ensures es[i].0 != es[j].0 {
        NatToStringInjective(i, j);
      }
      forall i | 0 <= i < |es| ensures !IsVersionField(es[i].0) {
        NatToStringShape(i);
        assert IsDigit(es[i].0[0]);
      }
    }
  }

  /** A `__compat` value the callback handles without throwing, in the cases the model covers. */
  predicate RecordOk(record: Json) {
    record != JNull && (ChromeOf(record).Some? ==> ChromeOk(ChromeOf(record).value))
  }

  /** `chromeData.map(data => getSamsungDataFromChromeData(parentName, data))`: each element merged into a new object. */
  function FreshMerges(items: seq<Json>): (r: seq<Json>)
    requires forall i :: 0 <= i < |items| ==> items[i].JObj? && VersionFieldsOk(items[i].entries)
  {
    seq(|items|, i requires 0 <= i < |items| => SamsungData(items[i].entries, None))
  }

  /** The value assigned to `support.samsunginternet_android` for Chrome data c and the existing Samsung entry. */
  function Inferred(c: Json, samsung: Option<Json>): Json
    requires ChromeOk(c)
  {
    if c.JArr? then JArr(FreshMerges(c.items)) else SamsungData(ChromeEntries(c), samsung)
  }

  /** The record as the callback leaves it. */
  function OnCompat(record: Json): Json
    requires RecordOk(record)
  {
    match ChromeOf(record)
    case None => record
    case Some(c) =>
      var s := SupportOf(record).value;
      var s' := Set(s, SamsungKey, Inferred(c, Lookup(s, SamsungKey)));
      JObj(Set(record.entries, SupportKey, JObj(s')))
  }

  /** The callback of index.js:110-131; the `map` over an array `chrome_android` is a loop. */
  method InferRecord(record: Json) returns (r: Json)
    requires RecordOk(record)
    ensures r == OnCompat(record)
  {
    if !record.JObj? {
      return record;
    }
    var support := Lookup(record.entries, SupportKey);
    if support.None? || !Truthy(support.value) || !support.value.JObj? {
      return record;
    }
    var s := support.value.entries;
    var chromeData := Lookup(s, ChromeKey);
    if chromeData.None? || !Truthy(chromeData.value) {
      return record;
    }
    var c := chromeData.value;
    var inferred: Json;
    if c.JArr? {
      var merged: seq<Json> := [];
      for i := 0 to |c.items|
        invariant |merged| == i
        invariant forall j :: 0 <= j < i ==> merged[j] == SamsungData(c.items[j].entries, None)
      {
        var m := GetSamsungDataFromChromeData(c.items[i].entries, None);
        merged := merged + [m];
      }
      assert merged == FreshMerges(c.items);
      inferred := JArr(merged);
    } else {
      inferred := GetSamsungDataFromChromeData(ChromeEntries(c), Lookup(s, SamsungKey));
    }
    r := JObj(Set(record.entries, SupportKey, JObj(Set(s, SamsungKey, inferred))));
  }

  /**
   * A record with no support object, or whose `chrome_android` is absent or falsy, is
   * left as it is; otherwise `samsunginternet_android` is always assigned.
   */
  lemma OnCompatSkips(record: Json)
    requires RecordOk(record) && WellFormed(record)
    ensures ChromeOf(record).None? ==> OnCompat(record) == record
    ensures ChromeOf(record).Some? ==> SamsungEntry(OnCompat(record)) == Some(Inferred(ChromeOf(record).value, SamsungEntry(record)))
  {
    if ChromeOf(record).Some? {
      OnCompatFrame(record);
    }
  }

  /**
   * An array `chrome_android` replaces the Samsung entry with an array of the same length
   * whose elements are merged from new objects: the previous Samsung data plays no part,
   * and element i holds exactly the non-`flags` keys of Chrome element i.
   */
  lemma OnCompatArray(record: Json)
    requires RecordOk(record) && WellFormed(record)
    requires ChromeOf(record).Some? && ChromeOf(record).value.JArr?
    ensures var items := ChromeOf(record).value.items;
      && SamsungEntry(OnCompat(record)).Some?
      && SamsungEntry(OnCompat(record)).value.JArr?
      && |SamsungEntry(OnCompat(record)).value.items| == |items|
      && forall i :: 0 <= i < |items| ==>
           && SamsungEntry(OnCompat(record)).value.items[i] == JObj(MergeEntries([], items[i].entries))
           && forall k :: k in Keys(MergeEntries([], items[i].entries)) <==> k in Keys(items[i].entries) && k != "flags"
  {
    OnCompatSkips(record);
    var c := ChromeOf(record).value;
    LookupWellFormed(SupportOf(record).value, ChromeKey) by {
      LookupWellFormed(record.entries, SupportKey);
    }
    forall i | 0 <= i < |c.items|
      ensures forall k :: k in Keys(MergeEntries([], c.items[i].entries)) <==> k in Keys(c.items[i].entries) && k != "flags"
    {
      assert WellFormed(c.items[i]);
      MergeFromEmpty(c.items[i].entries);
    }
  }

  /**
   * A `chrome_android` that is not an array has its enumerable keys merged into the
   * existing Samsung entry; for a number or `true` there are none, so the entry becomes
   * `{}` when it is absent or falsy and is otherwise left as it was.
   */
  lemma OnCompatScalar(record: Json)
    requires RecordOk(record) && WellFormed(record)
    requires ChromeOf(record).Some? && !ChromeOf(record).value.JArr?
    ensures SamsungEntry(OnCompat(record)) == Some(SamsungData(ChromeEntries(ChromeOf(record).value), SamsungEntry(record)))
    ensures ChromeOf(record).value.JNum? || ChromeOf(record).value.JBool? ==>
      SamsungEntry(OnCompat(record)) ==
        Some(if SamsungEntry(record).None? || !Truthy(SamsungEntry(record).value) then JObj([]) else SamsungEntry(record).value)
  {
    OnCompatSkips(record);
  }

  /**
   * The callback changes one thing: the `samsunginternet_android` key of the support
   * object. The record keeps its keys and order, and every other key keeps its value.
   */
  lemma OnCompatFrame(record: Json)
    requires RecordOk(record) && WellFormed(record)
    ensures OnCompat(record).JObj? <==> record.JObj?
    ensures record.JObj? ==> Keys(OnCompat(record).entries) == Keys(record.entries)
    ensures record.JObj? ==> forall k :: k != SupportKey ==> Lookup(OnCompat(record).entries, k) == Lookup(record.entries, k)
    ensures SupportOf(OnCompat(record)).Some? <==> SupportOf(record).Some?
    ensures SupportOf(record).Some? ==>
      forall k :: k != SamsungKey ==> Lookup(SupportOf(OnCompat(record)).value, k) == Lookup(SupportOf(record).value, k)
    ensures ChromeOf(record).Some? ==> SamsungEntry(OnCompat(record)) == Some(Inferred(ChromeOf(record).value, SamsungEntry(record)))
  {
    match ChromeOf(record)
    case None =>
    case Some(c) =>
      var s := SupportOf(record).value;
      var x := Inferred(c, Lookup(s, SamsungKey));
      var s' := Set(s, SamsungKey, x);
      LookupWellFormed(record.entries, SupportKey);
      SetProperties(s, SamsungKey, x);
      SetProperties(record.entries, SupportKey, JObj(s'));
      assert SupportOf(OnCompat(record)) == Some(s');
  }

  /** The callback keeps the record well-formed, leaves its Chrome data alone, and so can run on it again. */
  lemma OnCompatWellFormed(record: Json)
    requires RecordOk(record) && WellFormed(record)
    ensures WellFormed(OnCompat(record))
    ensures ChromeOf(OnCompat(record)) == ChromeOf(record)
    ensures RecordOk(OnCompat(record))
  {
    OnCompatFrame(record);
    match ChromeOf(record)
    case None =>
    case Some(c) =>
      var s := SupportOf(record).value;
      LookupWellFormed(record.entries, SupportKey);
      LookupWellFormed(s, ChromeKey);
      var old_ := Lookup(s, SamsungKey);
      if old_.Some? {
        LookupWellFormed(s, SamsungKey);
      }
      var x := Inferred(c, old_);
      assert WellFormed(x) by {
        if c.JArr? {
          forall i | 0 <= i < |c.items| ensures WellFormed(FreshMerges(c.items)[i]) {
            assert WellFormed(c.items[i]);
            SamsungDataWellFormed(c.items[i].entries, None);
          }
        } else {
          ChromeEntriesWellFormed(c);
          SamsungDataWellFormed(ChromeEntries(c), old_);
        }
      }
      SetWellFormed(s, SamsungKey, x);
      SetWellFormed(record.entries, SupportKey, JObj(Set(s, SamsungKey, x)));
  }

  /** Where the callback writes: the support object with `samsunginternet_android` set to the inferred value. */
  lemma OnCompatSupport(record: Json)
    requires RecordOk(record) && WellFormed(record) && ChromeOf(record).Some?
    ensures SupportOf(OnCompat(record)) ==
      Some(Set(SupportOf(record).value, SamsungKey, Inferred(ChromeOf(record).value, SamsungEntry(record))))
  {
    var s := SupportOf(record).value;
    var x := Inferred(ChromeOf(record).value, SamsungEntry(record));
    LookupWellFormed(record.entries, SupportKey);
    SetProperties(record.entries, SupportKey, JObj(Set(s, SamsungKey, x)));
  }

  /** Inferring again from the same Chrome data, with the inferred value as the Samsung entry, gives that value. */
  lemma InferredIdempotent(c: Json, samsung: Option<Json>)
    requires ChromeOk(c) && WellFormed(c) && (samsung.Some? ==> WellFormed(samsung.value))
    ensures Inferred(c, Some(Inferred(c, samsung))) == Inferred(c, samsung)
  {
    if !c.JArr? {
      ChromeEntriesWellFormed(c);
      SamsungDataIdempotent(ChromeEntries(c), samsung);
    }
  }

  /** Running the callback a second time on the record it produced changes nothing. */
  lemma OnCompatIdempotent(record: Json)
    requires RecordOk(record) && WellFormed(record)
    ensures RecordOk(OnCompat(record)) && OnCompat(OnCompat(record)) == OnCompat(record)
  {
    OnCompatWellFormed(record);
    if ChromeOf(record).Some? {
      var c := ChromeOf(record).value;
      var s := SupportOf(record).value;
      var x := Inferred(c, SamsungEntry(record));
      var r1 := OnCompat(record);
      var s1 := Set(s, SamsungKey, x);
      OnCompatSupport(record);
      assert Lookup(s1, SamsungKey) == Some(x) && UniqueKeys(s1) by {
        LookupWellFormed(record.entries, SupportKey);
        SetProperties(s, SamsungKey, x);
      }
      assert Inferred(c, Some(x)) == x by {
        LookupWellFormed(record.entries, SupportKey);
        LookupWellFormed(s, ChromeKey);
        if Lookup(s, SamsungKey).Some? {
          LookupWellFormed(s, SamsungKey);
        }
        InferredIdempotent(c, SamsungEntry(record));
      }
      SetSame(s1, SamsungKey, x);
      SetSame(r1.entries, SupportKey, JObj(s1));
    }
  }
}
