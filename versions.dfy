/** The Chrome-to-Samsung-Internet version table and `getSamsungVersion` of index.js. */
module SamsungVersions {

  import opened Wrappers
  import opened Decimal
  import opened Json

  /** `mappings`: (Samsung Internet major version, last Chrome version it is based on). */
  const Mappings: seq<(nat, int)> := [(4, 44), (5, 51), (6, 56), (7, 59), (8, 63), (9, 67), (10, 71)]

  predicate StrictlyIncreasing(t: seq<(nat, int)>) {
    forall i, j :: 0 <= i < j < |t| ==> t[i].0 < t[j].0 && t[i].1 < t[j].1
  }

  lemma MappingsStrictlyIncreasing()
    ensures StrictlyIncreasing(Mappings)
  {
  }

  /** Version values the model accepts from Chrome data: null, a boolean or an integer. */
  predicate IsChromeVersion(v: Json) {
    v.JNull? || v.JBool? || v.JNum?
  }

  /** Index of the first row whose Chrome bound is at least v; None when v exceeds every bound. */
  function FirstBucket(t: seq<(nat, int)>, v: int): (r: Option<nat>)
    ensures r.Some? ==> r.value < |t| && v <= t[r.value].1
    ensures r.Some? ==> forall j :: 0 <= j < r.value ==> t[j].1 < v
    ensures r.None? <==> forall j :: 0 <= j < |t| ==> t[j].1 < v
  {
    FirstBucketFrom(t, v, 0)
  }

  /** FirstBucket, searching from row k onwards. */
  function FirstBucketFrom(t: seq<(nat, int)>, v: int, k: nat): (r: Option<nat>)
    requires k <= |t|
    ensures r.Some? ==> k <= r.value < |t| && v <= t[r.value].1
    ensures r.Some? ==> forall j :: k <= j < r.value ==> t[j].1 < v
    ensures r.None? <==> forall j :: k <= j < |t| ==> t[j].1 < v
    decreases |t| - k
  {
    if k == |t| then None
    else if v <= t[k].1 then Some(k)
    else FirstBucketFrom(t, v, k + 1)
  }

  /** `String(x)` for the two kinds of value `version` takes in the loop: a Samsung number or `false`. */
  function JsString(v: Json): string
    requires v == JBool(false) || (v.JNum? && v.n >= 0)
  {
    if v.JNum? then NatToString(v.n) else "false"
  }

  /** What `getSamsungVersion` returns for a Chrome version. */
  function SamsungVersion(v: Json): (r: Json)
    requires IsChromeVersion(v)
    ensures !v.JNum? ==> r == v
    ensures v.JNum? && v.n < Mappings[0].1 ==> r == JBool(true)
    ensures v.JNum? && v.n >= Mappings[0].1 ==> r.JStr?
  {
    if !v.JNum? then v
    else if v.n < Mappings[0].1 then JBool(true)
    else match FirstBucket(Mappings, v.n)
      case Some(i) => JStr(NatToString(Mappings[i].0))
      case None => JStr("false")
  }

  /** `getSamsungVersion(chromeVersion)`: the loop scans `mappings` and stops at the first bound that fits. */
  method GetSamsungVersion(chromeVersion: Json) returns (r: Json)
    requires IsChromeVersion(chromeVersion)
    ensures r == SamsungVersion(chromeVersion)
  {
    if chromeVersion == JNull { return JNull; }
    if chromeVersion == JBool(false) { return JBool(false); }
    if chromeVersion == JBool(true) { return JBool(true); }
    var n := chromeVersion.n;
    if n < Mappings[0].1 { return JBool(true); }
    var version := JBool(false);
    for i := 0 to |Mappings|
      invariant version == JBool(false)
      invariant forall j :: 0 <= j < i ==> Mappings[j].1 < n
    {
      var (samsung, chrome) := Mappings[i];
      if n <= chrome {
        version := JNum(samsung);
        assert FirstBucket(Mappings, n) == Some(i);
        break;
      }
    }
    r := JStr(JsString(version));
  }

  /** Samsung major version for a Chrome version in the table's range; None above the last bound. */
  function SamsungNumber(v: int): Option<nat> {
    match FirstBucket(Mappings, v)
    case Some(i) => Some(Mappings[i].0)
    case None => None
  }

  /**
   * For v >= 44 the result is the text of the first Samsung version whose Chrome bound
   * is at least v, and the text "false" (not the boolean) when v is above every bound.
   */
  lemma SamsungVersionOfNumber(v: int)
    requires v >= Mappings[0].1
    ensures SamsungVersion(JNum(v)).JStr?
    ensures ParseNat(SamsungVersion(JNum(v)).s) == SamsungNumber(v)
    ensures SamsungNumber(v).None? <==> v > Mappings[|Mappings| - 1].1
    ensures SamsungNumber(v).None? <==> SamsungVersion(JNum(v)) == JStr("false")
  {
    MappingsStrictlyIncreasing();
    match FirstBucket(Mappings, v)
    case Some(i) =>
      ParseNatToString(Mappings[i].0);
      NatToStringShape(Mappings[i].0);
      assert SamsungVersion(JNum(v)) != JStr("false") by {
        assert IsDigit(NatToString(Mappings[i].0)[0]);
      }
    case None =>
      assert !IsDigit("false"[0]);
  }

  /**
   * Within the table's range a later Chrome version never maps to an earlier Samsung
   * version, read back from the text `getSamsungVersion` returns.
   */
  lemma SamsungVersionMonotone(a: int, b: int)
    requires Mappings[0].1 <= a <= b <= Mappings[|Mappings| - 1].1
    ensures ParseNat(SamsungVersion(JNum(a)).s).Some? && ParseNat(SamsungVersion(JNum(b)).s).Some?
    ensures ParseNat(SamsungVersion(JNum(a)).s).value <= ParseNat(SamsungVersion(JNum(b)).s).value
  {
    SamsungVersionOfNumber(a);
    SamsungVersionOfNumber(b);
    assert SamsungNumber(b).Some?;
    MappingsStrictlyIncreasing();
    BucketMonotone(Mappings, a, b);
    assert SamsungNumber(a).value <= SamsungNumber(b).value;
  }

  /** In a table increasing in both columns, the first fitting row never moves back as v grows. */
  lemma BucketMonotone(t: seq<(nat, int)>, a: int, b: int)
    requires StrictlyIncreasing(t) && a <= b && FirstBucket(t, b).Some?
    ensures FirstBucket(t, a).Some?
    ensures FirstBucket(t, a).value <= FirstBucket(t, b).value
    ensures t[FirstBucket(t, a).value].0 <= t[FirstBucket(t, b).value].0
  {
  }

  /** The table row by row: 44 -> "4", 56 -> "6", 60 -> "8", 71 -> "10", 72 -> "false". */
  lemma SamsungVersionExamples()
    ensures SamsungVersion(JNum(43)) == JBool(true)
    ensures SamsungVersion(JNum(44)) == JStr("4")
    ensures SamsungVersion(JNum(45)) == JStr("5")
    ensures SamsungVersion(JNum(56)) == JStr("6")
    ensures SamsungVersion(JNum(60)) == JStr("8")
    ensures SamsungVersion(JNum(71)) == JStr("10")
    ensures SamsungVersion(JNum(72)) == JStr("false")
  {
    assert FirstBucket(Mappings, 44) == Some(0);
    assert FirstBucket(Mappings, 45) == Some(1);
    assert FirstBucket(Mappings, 56) == Some(2);
    assert FirstBucket(Mappings, 60) == Some(4);
    assert FirstBucket(Mappings, 71) == Some(6);
    assert FirstBucket(Mappings, 72) == None;
    assert NatToString(10) == NatToString(1) + [DigitChar(0)];
  }
}
