/**
 * Branch names in split-banch-per-folder.js: each top-level folder of the data
 * checkout becomes a branch named after the current branch and the folder.
 */
module BranchNames {

  import opened Wrappers

  /** Characters the class `[a-z0-9]` matches under the `i` flag: ASCII letters of either case and digits. */
  predicate IsAsciiAlnum(c: char) {
    ('a' <= c <= 'z') || ('A' <= c <= 'Z') || ('0' <= c <= '9')
  }

  predicate AllAlnum(s: string) {
    forall i :: 0 <= i < |s| ==> IsAsciiAlnum(s[i])
  }

  /** `s.replace(/[^a-z0-9]/ig, '')`: every character outside the class is removed, the rest keep their order. */
  function StripNonAlnum(s: string): (r: string)
    decreases |s|
  {
    if s == [] then []
    else (if IsAsciiAlnum(s[0]) then [s[0]] else []) + StripNonAlnum(s[1..])
  }

  /** `folderToBranchName(folderName)`. */
  function FolderToBranchName(origBranch: string, folderName: string): string {
    origBranch + "_" + StripNonAlnum(folderName)
  }

  /** Removing characters one by one: the filter of a concatenation is the concatenation of the filters. */
  lemma {:induction false} StripAppend(a: string, b: string)
    ensures StripNonAlnum(a + b) == StripNonAlnum(a) + StripNonAlnum(b)
    decreases |a|
  {
    if a != [] {
      var h: string := if IsAsciiAlnum(a[0]) then [a[0]] else [];
      assert (a + b)[0] == a[0];
      assert (a + b)[1..] == a[1..] + b;
      assert StripNonAlnum(a + b) == h + StripNonAlnum(a[1..] + b);
      StripAppend(a[1..], b);
      assert StripNonAlnum(a) == h + StripNonAlnum(a[1..]);
    } else {
      assert a + b == b;
    }
  }

  /** For one character the filter keeps it exactly when it is an ASCII letter or digit. */
  lemma StripChar(c: char)
    ensures StripNonAlnum([c]) == if IsAsciiAlnum(c) then [c] else []
  {
    assert [c][1..] == [];
  }

  /** What is left is only ASCII letters and digits, and never longer than the folder name. */
  lemma {:induction false} StripAlnum(s: string)
    ensures AllAlnum(StripNonAlnum(s))
    ensures |StripNonAlnum(s)| <= |s|
    decreases |s|
  {
    if s != [] {
      var t := StripNonAlnum(s[1..]);
      StripAlnum(s[1..]);
      var h: string := if IsAsciiAlnum(s[0]) then [s[0]] else [];
      assert StripNonAlnum(s) == h + t;
      forall i | 0 <= i < |h + t| ensures IsAsciiAlnum((h + t)[i]) {
        if i >= |h| {
          assert (h + t)[i] == t[i - |h|];
        }
      }
    }
  }

  /** Each letter and digit of the folder name is kept as often as it occurs; nothing else is. */
  lemma {:induction false} StripCounts(s: string)
    ensures forall c :: IsAsciiAlnum(c) ==> multiset(StripNonAlnum(s))[c] == multiset(s)[c]
    ensures forall c :: !IsAsciiAlnum(c) ==> multiset(StripNonAlnum(s))[c] == 0
    decreases |s|
  {
    if s != [] {
      StripCounts(s[1..]);
      assert s == [s[0]] + s[1..];
      var h: string := if IsAsciiAlnum(s[0]) then [s[0]] else [];
      assert StripNonAlnum(s) == h + StripNonAlnum(s[1..]);
      assert multiset(s) == multiset([s[0]]) + multiset(s[1..]);
      assert multiset(StripNonAlnum(s)) == multiset(h) + multiset(StripNonAlnum(s[1..]));
    }
  }

  /** A name is left as it is exactly when it is made of ASCII letters and digits only. */
  lemma {:induction false} StripFixpoint(s: string)
    ensures StripNonAlnum(s) == s <==> AllAlnum(s)
    decreases |s|
  {
    if s != [] {
      var t := s[1..];
      StripFixpoint(t);
      StripAlnum(t);
      assert s == [s[0]] + t;
      assert AllAlnum(s) <==> IsAsciiAlnum(s[0]) && AllAlnum(t) by {
        forall i | 0 <= i < |t| ensures t[i] == s[i + 1] { }
      }
      if IsAsciiAlnum(s[0]) {
        assert StripNonAlnum(s) == [s[0]] + StripNonAlnum(t);
      } else {
        assert StripNonAlnum(s) == StripNonAlnum(t);
      }
    }
  }

  /** Stripping a second time changes nothing. */
  lemma StripIdempotent(s: string)
    ensures StripNonAlnum(StripNonAlnum(s)) == StripNonAlnum(s)
  {
    StripAlnum(s);
    StripFixpoint(StripNonAlnum(s));
  }

  /**
   * The branch name is the original branch, an underscore, then the folder name with
   * every character other than an ASCII letter or digit removed.
   */
  lemma BranchNameShape(origBranch: string, folderName: string)
    ensures var b := FolderToBranchName(origBranch, folderName);
      && |origBranch| + 1 <= |b| <= |origBranch| + 1 + |folderName|
      && b[..|origBranch| + 1] == origBranch + "_"
      && AllAlnum(b[|origBranch| + 1..])
      && b[|origBranch| + 1..] == StripNonAlnum(folderName)
  {
    var b := FolderToBranchName(origBranch, folderName);
    StripAlnum(folderName);
    assert b[..|origBranch| + 1] == origBranch + "_";
    assert b[|origBranch| + 1..] == StripNonAlnum(folderName);
  }

  /** Whether pat occurs in s at position i. */
  predicate OccursAt(s: string, pat: string, i: nat) {
    i + |pat| <= |s| && s[i..i + |pat|] == pat
  }

  /** Position of the first occurrence of pat in s, searching from position k. */
  function FindFrom(s: string, pat: string, k: nat): (r: Option<nat>)
    requires k <= |s|
    ensures r.Some? ==> k <= r.value && OccursAt(s, pat, r.value)
    ensures r.Some? ==> forall j :: k <= j < r.value ==> !OccursAt(s, pat, j)
    ensures r.None? <==> forall j :: k <= j <= |s| ==> !OccursAt(s, pat, j)
    decreases |s| - k
  {
    if OccursAt(s, pat, k) then Some(k)
    else if k == |s| then None
    else FindFrom(s, pat, k + 1)
  }

  /** `s.replace(pat, rep)` with a string pattern: only the first occurrence is replaced. */
  function ReplaceFirst(s: string, pat: string, rep: string): string {
    match FindFrom(s, pat, 0)
    case None => s
    case Some(i) => s[..i] + rep + s[i + |pat|..]
  }

  /** `folders` at split-banch-per-folder.js:35-36: each glob result with the first `gitPath` removed. */
  function FolderNames(gitPath: string, globbed: seq<string>): (r: seq<string>)
    ensures |r| == |globbed|
  {
    seq(|globbed|, i requires 0 <= i < |globbed| => ReplaceFirst(globbed[i], gitPath, ""))
  }

  /** Text in which the pattern does not occur is returned unchanged. */
  lemma ReplaceFirstAbsent(s: string, pat: string, rep: string)
    requires forall j :: 0 <= j <= |s| ==> !OccursAt(s, pat, j)
    ensures ReplaceFirst(s, pat, rep) == s
  {
  }

  /** Only the first occurrence, at i, is replaced: the text before and after it is kept. */
  lemma ReplaceFirstAt(s: string, pat: string, rep: string, i: nat)
    requires OccursAt(s, pat, i) && forall j :: 0 <= j < i ==> !OccursAt(s, pat, j)
    ensures ReplaceFirst(s, pat, rep) == s[..i] + rep + s[i + |pat|..]
  {
    var r := FindFrom(s, pat, 0);
    assert r.Some?;
    assert !(r.value < i) && !(i < r.value);
  }

  /** A glob result that starts with gitPath gives the rest of the path as the folder name. */
  lemma FolderNameOfPrefixed(gitPath: string, rest: string)
    ensures ReplaceFirst(gitPath + rest, gitPath, "") == rest
  {
    var s := gitPath + rest;
    assert OccursAt(s, gitPath, 0) by {
      assert s[0..|gitPath|] == gitPath;
    }
    assert FindFrom(s, gitPath, 0) == Some(0);
    assert s[|gitPath|..] == rest;
  }

  lemma StripApi()
    ensures StripNonAlnum("api/") == "api"
  {
    assert "api/" == "api" + "/";
    StripAppend("api", "/");
    StripChar('/');
    StripFixpoint("api");
  }

  /** The folder `api/` under the checkout becomes the branch origBranch + "_api". */
  lemma ApiFolderExample(gitPath: string, origBranch: string)
    ensures FolderNames(gitPath, [gitPath + "api/"]) == ["api/"]
    ensures FolderToBranchName(origBranch, "api/") == origBranch + "_api"
  {
    FolderNameOfPrefixed(gitPath, "api/");
    StripApi();
  }
}
