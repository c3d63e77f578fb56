/**
 * `getSamsungDataFromChromeData` of index.js: copies the fields of one Chrome for
 * Android support entry into the Samsung Internet entry, field by field.
 */
module SamsungMerge {

  import opened Wrappers
  import opened Json
  import opened SamsungVersions

  predicate IsVersionField(prop: string) {
    prop == "version_added" || prop == "version_removed"
  }

  /** The version fields of a Chrome entry hold values the model maps: null, booleans or integers. */
  predicate VersionFieldsOk(chrome: Entries) {
    forall i :: 0 <= i < |chrome| && IsVersionField(chrome[i].0) ==> IsChromeVersion(chrome[i].1)
  }

  /** `!data[prop] || data[prop] === true`: the field is absent, falsy or exactly `true`. */
  predicate Overwritable(existing: Option<Json>) {
    existing.None? || !Truthy(existing.value) || existing.value == JBool(true)
  }

  /** The value written for a Chrome field: versions go through `getSamsungVersion`. */
  function Promoted(prop: string, value: Json): Json
    requires IsVersionField(prop) ==> IsChromeVersion(value)
  {
    if IsVersionField(prop) then SamsungVersion(value) else value
  }

  /** One turn of the loop over the Chrome keys, for the key prop holding value. */
  function Step(data: Entries, prop: string, value: Json): Entries
    requires IsVersionField(prop) ==> IsChromeVersion(value)
  {
    if prop == "flags" || !Overwritable(Lookup(data, prop)) then data
    else Set(data, prop, Promoted(prop, value))
  }

  /** The Samsung entry data after the loop has gone through the Chrome entries in order. */
  function MergeEntries(data: Entries, chrome: Entries): Entries
    requires VersionFieldsOk(chrome)
    decreases |chrome|
  {
    if chrome == [] then data
    else
      var last := chrome[|chrome| - 1];
      Step(MergeEntries(data, chrome[..|chrome| - 1]), last.0, last.1)
  }

  /**
   * What `getSamsungDataFromChromeData(name, chrome, samsung)` leaves in the Samsung
   * entry. `samsungData || {}` starts from a new object when the entry is absent or falsy;
   * on a truthy value that is not an object the property writes do not show in the JSON.
   */
  function SamsungData(chrome: Entries, samsung: Option<Json>): Json
    requires VersionFieldsOk(chrome)
  {
    if samsung.None? || !Truthy(samsung.value) then JObj(MergeEntries([], chrome))
    else if samsung.value.JObj? then JObj(MergeEntries(samsung.value.entries, chrome))
    else samsung.value
  }

  /** Keys the merge appends: Chrome keys other than `flags` that the Samsung entry lacks, in Chrome order. */
  function NewKeys(data: Entries, chrome: Entries): seq<string>
    decreases |chrome|
  {
    if chrome == [] then []
    else
      var p := chrome[|chrome| - 1].0;
      NewKeys(data, chrome[..|chrome| - 1]) + (if p != "flags" && p !in Keys(data) then [p] else [])
  }

  /** `getSamsungDataFromChromeData`: the loop at index.js:54-77 updates `data` key by key. */
  method GetSamsungDataFromChromeData(chromeData: Entries, samsungData: Option<Json>) returns (result: Json)
    requires VersionFieldsOk(chromeData)
    ensures result == SamsungData(chromeData, samsungData)
  {
    var data: Entries;
    if samsungData.None? || !Truthy(samsungData.value) {
      data := [];
    } else if samsungData.value.JObj? {
      data := samsungData.value.entries;
    } else {
      return samsungData.value;
    }
    ghost var start := data;
    for i := 0 to |chromeData|
      invariant data == MergeEntries(start, chromeData[..i])
    {
      assert chromeData[..i + 1][..i] == chromeData[..i];
      var (prop, value) := chromeData[i];
      if prop == "flags" {
        continue;
      }
      var existing := Lookup(data, prop);
      if existing.None? || !Truthy(existing.value) || existing.value == JBool(true) {
        if IsVersionField(prop) {
          value := GetSamsungVersion(value);
        }
        data := Set(data, prop, value);
      }
    }
    assert chromeData[..|chromeData|] == chromeData;
    result := JObj(data);
  }

  /** Splitting the last Chrome entry off: the rest has distinct keys, none of them the last key. */
  lemma LastKeyFresh(chrome: Entries)
    requires UniqueKeys(chrome) && chrome != []
    ensures UniqueKeys(chrome[..|chrome| - 1])
    ensures chrome[|chrome| - 1].0 !in Keys(chrome[..|chrome| - 1])
    ensures forall k :: k in Keys(chrome) <==> k in Keys(chrome[..|chrome| - 1]) || k == chrome[|chrome| - 1].0
  {
    var n := |chrome| - 1;
    var c' := chrome[..n];
    assert forall i :: 0 <= i < n ==> Keys(c')[i] == Keys(chrome)[i];
    assert Keys(chrome) == Keys(c') + [chrome[n].0];
  }

  /** One turn of the loop: only prop can change, and it changes exactly when it may be overwritten. */
  lemma StepLookup(data: Entries, prop: string, value: Json)
    requires UniqueKeys(data) && (IsVersionField(prop) ==> IsChromeVersion(value))
    ensures UniqueKeys(Step(data, prop, value))
    ensures prop != "flags" && Overwritable(Lookup(data, prop)) ==>
              Lookup(Step(data, prop, value), prop) == Some(Promoted(prop, value))
    ensures prop == "flags" || !Overwritable(Lookup(data, prop)) ==> Step(data, prop, value) == data
    ensures forall k :: k != prop ==> Lookup(Step(data, prop, value), k) == Lookup(data, k)
    ensures Keys(Step(data, prop, value)) == Keys(data) + (if prop != "flags" && prop !in Keys(data) then [prop] else [])
  {
    if prop != "flags" && Overwritable(Lookup(data, prop)) {
      SetProperties(data, prop, Promoted(prop, value));
    } else if prop != "flags" {
      assert prop in Keys(data);
    }
  }

  /** The fold over the Chrome entries ends with the loop turn for the last entry. */
  lemma MergeLast(data: Entries, chrome: Entries)
    requires VersionFieldsOk(chrome) && chrome != []
    ensures VersionFieldsOk(chrome[..|chrome| - 1])
    ensures MergeEntries(data, chrome) ==
      Step(MergeEntries(data, chrome[..|chrome| - 1]), chrome[|chrome| - 1].0, chrome[|chrome| - 1].1)
  {
  }

  lemma {:induction false} MergeUnique(data: Entries, chrome: Entries)
    requires UniqueKeys(data) && VersionFieldsOk(chrome)
    ensures UniqueKeys(MergeEntries(data, chrome))
    decreases |chrome|
  {
    if chrome != [] {
      var n := |chrome| - 1;
      MergeLast(data, chrome);
      MergeUnique(data, chrome[..n]);
      StepLookup(MergeEntries(data, chrome[..n]), chrome[n].0, chrome[n].1);
    }
  }

  /** A key that is `flags`, is not a Chrome key, or holds a value that may not be overwritten keeps its value. */
  lemma {:induction false} MergeKeeps(data: Entries, chrome: Entries)
    requires UniqueKeys(data) && UniqueKeys(chrome) && VersionFieldsOk(chrome)
    ensures forall k :: k == "flags" || k !in Keys(chrome) || !Overwritable(Lookup(data, k)) ==>
              Lookup(MergeEntries(data, chrome), k) == Lookup(data, k)
    decreases |chrome|
  {
    if chrome != [] {
      var n := |chrome| - 1;
      var c' := chrome[..n];
      var (p, v) := chrome[n];
      MergeLast(data, chrome);
      LastKeyFresh(chrome);
      MergeUnique(data, c');
      MergeKeeps(data, c');
      StepLookup(MergeEntries(data, c'), p, v);
    }
  }

  /** A Chrome key other than `flags` whose Samsung value may be overwritten receives the mapped Chrome value. */
  lemma {:induction false} MergeOverwrites(data: Entries, chrome: Entries)
    requires UniqueKeys(data) && UniqueKeys(chrome) && VersionFieldsOk(chrome)
    ensures forall i :: 0 <= i < |chrome| && chrome[i].0 != "flags" && Overwritable(Lookup(data, chrome[i].0)) ==>
              Lookup(MergeEntries(data, chrome), chrome[i].0) == Some(Promoted(chrome[i].0, chrome[i].1))
    decreases |chrome|
  {
    if chrome != [] {
      var n := |chrome| - 1;
      var c' := chrome[..n];
      var (p, v) := chrome[n];
      MergeLast(data, chrome);
      LastKeyFresh(chrome);
      MergeUnique(data, c');
      MergeKeeps(data, c');
      MergeOverwrites(data, c');
      var m' := MergeEntries(data, c');
      StepLookup(m', p, v);
      assert Lookup(m', p) == Lookup(data, p);
      forall i | 0 <= i < n && chrome[i].0 != "flags" && Overwritable(Lookup(data, chrome[i].0))
        ensures Lookup(MergeEntries(data, chrome), chrome[i].0) == Some(Promoted(chrome[i].0, chrome[i].1))
      {
        assert c'[i] == chrome[i];
        assert chrome[i].0 != p;
      }
    }
  }

  /**
   * Field by field: a Chrome key other than `flags` whose Samsung value is absent, falsy or
   * exactly `true` receives the Chrome value (versions mapped); every other key keeps its value.
   */
  lemma MergeLookup(data: Entries, chrome: Entries)
    requires UniqueKeys(data) && UniqueKeys(chrome) && VersionFieldsOk(chrome)
    ensures UniqueKeys(MergeEntries(data, chrome))
    ensures forall i :: 0 <= i < |chrome| && chrome[i].0 != "flags" && Overwritable(Lookup(data, chrome[i].0)) ==>
              Lookup(MergeEntries(data, chrome), chrome[i].0) == Some(Promoted(chrome[i].0, chrome[i].1))
    ensures forall k :: k == "flags" || k !in Keys(chrome) || !Overwritable(Lookup(data, k)) ==>
              Lookup(MergeEntries(data, chrome), k) == Lookup(data, k)
  {
    MergeUnique(data, chrome);
    MergeOverwrites(data, chrome);
    MergeKeeps(data, chrome);
  }

  /** The Samsung keys keep their order; the new Chrome keys follow them. */
  lemma {:induction false} MergeKeys(data: Entries, chrome: Entries)
    requires UniqueKeys(data) && UniqueKeys(chrome) && VersionFieldsOk(chrome)
    ensures Keys(MergeEntries(data, chrome)) == Keys(data) + NewKeys(data, chrome)
    ensures forall k :: k in NewKeys(data, chrome) ==> k in Keys(chrome) && k != "flags" && k !in Keys(data)
    decreases |chrome|
  {
    if chrome != [] {
      var n := |chrome| - 1;
      var c' := chrome[..n];
      var (p, v) := chrome[n];
      MergeLast(data, chrome);
      var m' := MergeEntries(data, c');
      LastKeyFresh(chrome);
      MergeKeys(data, c');
      MergeUnique(data, c');
      MergeKeeps(data, c');
      StepLookup(m', p, v);
      assert Lookup(m', p) == Lookup(data, p);
      assert p in Keys(m') <==> p in Keys(data);
      assert NewKeys(data, chrome) == NewKeys(data, c') + (if p != "flags" && p !in Keys(data) then [p] else []);
    }
  }

  /** When the Samsung entry already has every Chrome key but `flags`, nothing is appended. */
  lemma {:induction false} NoNewKeys(data: Entries, chrome: Entries)
    requires forall k :: k in Keys(chrome) && k != "flags" ==> k in Keys(data)
    ensures NewKeys(data, chrome) == []
    decreases |chrome|
  {
    if chrome != [] {
      var n := |chrome| - 1;
      forall k | k in Keys(chrome[..n]) && k != "flags" ensures k in Keys(data) {
        var i :| 0 <= i < n && Keys(chrome[..n])[i] == k;
        assert Keys(chrome)[i] == k;
      }
      NoNewKeys(data, chrome[..n]);
      assert Keys(chrome)[n] == chrome[n].0;
    }
  }

  /** The merged key set is the Samsung keys together with the Chrome keys other than `flags`. */
  lemma MergeKeySet(data: Entries, chrome: Entries)
    requires UniqueKeys(data) && UniqueKeys(chrome) && VersionFieldsOk(chrome)
    ensures forall k :: k in Keys(MergeEntries(data, chrome)) <==> k in Keys(data) || (k in Keys(chrome) && k != "flags")
  {
    MergeKeys(data, chrome);
    MergeLookup(data, chrome);
    forall k | k in Keys(chrome) && k != "flags"
      ensures k in Keys(MergeEntries(data, chrome))
    {
      var i :| 0 <= i < |chrome| && Keys(chrome)[i] == k;
      if Overwritable(Lookup(data, k)) {
        assert Lookup(MergeEntries(data, chrome), chrome[i].0).Some?;
      } else {
        assert Lookup(data, k).Some?;
      }
    }
  }

  /** `flags` is never written: its Samsung value, or its absence, survives the merge. */
  lemma MergeKeepsFlags(data: Entries, chrome: Entries)
    requires UniqueKeys(data) && UniqueKeys(chrome) && VersionFieldsOk(chrome)
    ensures Lookup(MergeEntries(data, chrome), "flags") == Lookup(data, "flags")
  {
    MergeLookup(data, chrome);
  }

  /** A truthy Samsung value other than `true` is never replaced. */
  lemma MergeKeepsTruthy(data: Entries, chrome: Entries, k: string, v: Json)
    requires UniqueKeys(data) && UniqueKeys(chrome) && VersionFieldsOk(chrome)
    requires Lookup(data, k) == Some(v) && Truthy(v) && v != JBool(true)
    ensures Lookup(MergeEntries(data, chrome), k) == Some(v)
  {
    MergeLookup(data, chrome);
  }

  /** Running the merge a second time with the same Chrome entry changes nothing. */
  lemma MergeIdempotent(data: Entries, chrome: Entries)
    requires UniqueKeys(data) && UniqueKeys(chrome) && VersionFieldsOk(chrome)
    ensures MergeEntries(MergeEntries(data, chrome), chrome) == MergeEntries(data, chrome)
  {
    var m := MergeEntries(data, chrome);
    MergeLookup(data, chrome);
    MergeKeySet(data, chrome);
    MergeLookup(m, chrome);
    MergeKeys(m, chrome);
    NoNewKeys(m, chrome);
    var m2 := MergeEntries(m, chrome);
    assert Keys(m2) == Keys(m);
    forall k ensures Lookup(m2, k) == Lookup(m, k) {
      if k != "flags" && k in Keys(chrome) && Overwritable(Lookup(m, k)) {
        var i :| 0 <= i < |chrome| && Keys(chrome)[i] == k;
        assert chrome[i].0 == k;
        assert !Overwritable(Lookup(data, k)) ==> Lookup(m, k) == Lookup(data, k);
      }
    }
    EntriesExtensional(m2, m);
  }

  /** The merge only writes Chrome values and mapped versions, so a well-formed entry stays well-formed. */
  lemma {:induction false} MergeWellFormed(data: Entries, chrome: Entries)
    requires EntriesWellFormed(data) && EntriesWellFormed(chrome) && VersionFieldsOk(chrome)
    ensures EntriesWellFormed(MergeEntries(data, chrome))
    decreases |chrome|
  {
    if chrome != [] {
      var n := |chrome| - 1;
      var c' := chrome[..n];
      assert EntriesWellFormed(c') by {
        forall i | 0 <= i < n ensures WellFormed(c'[i].1) { assert c'[i] == chrome[i]; }
      }
      MergeWellFormed(data, c');
      var (p, v) := chrome[n];
      assert WellFormed(v);
      var m' := MergeEntries(data, c');
      if p != "flags" && Overwritable(Lookup(m', p)) {
        SetWellFormed(m', p, Promoted(p, v));
      }
    }
  }

  /**
   * Merging from nothing (an absent or falsy Samsung entry) gives exactly the Chrome
   * keys other than `flags`, in Chrome order, with versions mapped.
   */
  lemma MergeFromEmpty(chrome: Entries)
    requires UniqueKeys(chrome) && VersionFieldsOk(chrome)
    ensures forall k :: k in Keys(MergeEntries([], chrome)) <==> k in Keys(chrome) && k != "flags"
    ensures forall i :: 0 <= i < |chrome| && chrome[i].0 != "flags" ==>
              Lookup(MergeEntries([], chrome), chrome[i].0) == Some(Promoted(chrome[i].0, chrome[i].1))
  {
    MergeKeySet([], chrome);
    MergeLookup([], chrome);
  }

  /** Running `getSamsungDataFromChromeData` again on its own output changes nothing. */
  lemma SamsungDataIdempotent(chrome: Entries, samsung: Option<Json>)
    requires UniqueKeys(chrome) && VersionFieldsOk(chrome)
    requires samsung.Some? ==> WellFormed(samsung.value)
    ensures SamsungData(chrome, Some(SamsungData(chrome, samsung))) == SamsungData(chrome, samsung)
  {
    if samsung.None? || !Truthy(samsung.value) {
      MergeIdempotent([], chrome);
    } else if samsung.value.JObj? {
      MergeIdempotent(samsung.value.entries, chrome);
    }
  }

  lemma SamsungDataWellFormed(chrome: Entries, samsung: Option<Json>)
    requires EntriesWellFormed(chrome) && VersionFieldsOk(chrome)
    requires samsung.Some? ==> WellFormed(samsung.value)
    ensures WellFormed(SamsungData(chrome, samsung))
  {
    if samsung.None? || !Truthy(samsung.value) {
      MergeWellFormed([], chrome);
    } else if samsung.value.JObj? {
      MergeWellFormed(samsung.value.entries, chrome);
    }
  }
}
