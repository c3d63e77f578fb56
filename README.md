# bcd-tool: Samsung Internet support inferred from Chrome for Android

bcd-tool walks the JSON files of browser-compat-data and fills in the
`samsunginternet_android` support entries from the `chrome_android` entries. It
translates Chrome versions into Samsung Internet versions with a fixed table. A
second script splits the data checkout into one git branch per top-level
folder, and this model covers only how it names those branches.

This Dafny project models that core and proves properties of it:

- `wrappers.dfy`: `Option`.
- `decimal.dfy` (module `Decimal`): `String(n)` for non-negative integers, with a
  parser that reads it back.
- `json.dfy` (module `Json`): the value tree `JSON.parse` produces, with object
  entries in enumeration order. It also defines JavaScript truthiness,
  `Object.entries`, property reads (`Lookup`) and property assignment (`Set`).
- `versions.dfy` (module `SamsungVersions`): the `mappings` table and
  `getSamsungVersion`. `SamsungVersion` is the specification function; the
  method `GetSamsungVersion` is the loop that scans the table and stops at the
  first `break`.
- `walker.dfy` (module `CompatWalker`): `compatWalker`, modelled as the ordered
  list of calls `fn(parentName, record)` it makes.
- `merge.dfy` (module `SamsungMerge`): `getSamsungDataFromChromeData`. The
  specification is the fold `MergeEntries`, and the method has the source's loop
  with its `continue` on `flags`.
- `inference.dfy` (module `SamsungInference`): the callback that `main` passes to
  `compatWalker`. `OnCompat` is the record it leaves behind; the method
  `InferRecord` has the `map` over an array `chrome_android` as a loop.
- `document.dfy` (module `SamsungDocument`): one data file after the section
  loop of `main`. Every section except `browsers` is walked and has its records
  rewritten (`ProcessTree`, `ProcessFile`, method `InferFile`).
- `branches.dfy` (module `BranchNames`): `folderToBranchName` and the `gitPath`
  strip, which is JavaScript's `String.prototype.replace` with a string pattern
  and so replaces only the first occurrence.

The parsed JSON trees share no values, so there is no aliasing to follow. The
model therefore shows each in-place assignment as the value it leaves:

- `data[prop] = value` in the merge;
- `support.samsunginternet_android = …` in the callback.

Each method is proved equal to its specification function. The lemmas state what
the tool promises about those functions.

Points where the behaviour of the code is easy to misread:

- Above the last table bound (Chrome 71), `getSamsungVersion` returns the
  *string* `"false"`. It does not return the boolean, because of `String(version)`
  at index.js:35. The string is truthy, so a later merge keeps it as it is
  (`SamsungMerge.MergeKeepsTruthy`).
- An array `chrome_android` always replaces the Samsung entry. A Samsung entry
  that is itself an array is never merged element by element.
- A `chrome_android` that is a number or `true` has no keys for `Object.keys`.
  The Samsung entry then becomes `{}` when it is absent or falsy, and is left as
  it was otherwise. A string `chrome_android` is enumerated character by
  character, so its characters land under the keys "0", "1", .... Both cases are
  modelled (`SamsungInference.ChromeEntries`).
- A top-level key `__compat` is treated as a section: it is walked into, not
  handed to the callback.
- The file is written back whether or not anything changed. There is no change
  flag.
- The tool does no note rewriting, flag suppression, collapsing of added/removed
  pairs, key sorting or normalisation of any kind. None of these are modelled.

## Model

| member | source | states |
|---|---|---|
| Decimal.NatToString | index.js:35 | `String(n)` for a non-negative integer: its decimal digits, most significant first |
| Decimal.ParseNatToString | index.js:35 | the text `String(n)` gives a Samsung version number reads back as that number |
| Decimal.NatToStringInjective | index.js:40 | different array positions get different `Object.entries` keys |
| Json.Children | index.js:40 | `Object.entries` of an object or array: an object's own entries in order, an array's elements under "0", "1", ...; no entries for any other value; every child smaller than its parent |
| Json.Lookup | index.js:61 | a property read is `undefined` exactly when the key is absent |
| Json.SetProperties | index.js:75 | assigning a property gives that key the new value and changes no other key; an existing key keeps its place, a new one goes last, keys stay distinct |
| Json.SetSame | index.js:75 | assigning a key the value it already holds leaves the object as it was |
| Json.ChildrenUniqueKeys | index.js:40 | the entries of a well-formed value have distinct keys, arrays included |
| SamsungVersions.MappingsStrictlyIncreasing | index.js:11-19 | both columns of `mappings` strictly increase |
| SamsungVersions.FirstBucket | index.js:29-34 | the index where the scan stops is the first row whose Chrome bound is at least v; there is none exactly when every bound is below v |
| SamsungVersions.JsString | index.js:35 | `String(version)` for the two values `version` can hold after the scan: a Samsung number, or `false` |
| SamsungVersions.SamsungVersion | index.js:21-36 | `null`, `false` and `true` come back unchanged; a number below 44 gives `true`; any other number gives a string |
| SamsungVersions.GetSamsungVersion | index.js:21-36 | the loop with `break` returns what `SamsungVersion` specifies |
| SamsungVersions.SamsungVersionOfNumber | index.js:28-35 | from 44 upwards the result is the decimal text of the first Samsung version whose Chrome bound is at least v; above 71 it is the string `"false"`, and only then |
| SamsungVersions.SamsungVersionMonotone | index.js:11-19 | for 44 <= a <= b <= 71, the Samsung number read back for a is at most the one for b |
| SamsungVersions.BucketMonotone | index.js:29-33 | in a table increasing in both columns, the row the scan stops at never moves back as v grows |
| SamsungVersions.SamsungVersionExamples | index.js:11-35 | 43 gives `true`; 44 gives "4"; 45 gives "5"; 56 gives "6"; 60 gives "8"; 71 gives "10"; 72 gives "false" |
| CompatWalker.Walk | index.js:39-47 | the calls `compatWalker(node, parentName, fn)` makes, in the order it makes them |
| CompatWalker.WalkFrom | index.js:40 | the calls made for the first n entries of `Object.entries(node)`, in entry order |
| CompatWalker.WalkChild | index.js:41-45 | one entry: a `__compat` key gives one call with the current parent name; an object or array under another key is walked with that key as the parent name; anything else gives no call |
| CompatWalker.WalkSound | index.js:39-47 | every call's path ends at a `__compat` key and passes no other `__compat` key; the record is the value there; the parent is the enclosing key |
| CompatWalker.WalkComplete | index.js:39-47 | every `__compat` key reachable without passing another `__compat` key is visited |
| CompatWalker.CompatEntryVisited | index.js:41-42 | a `__compat` entry is handed to `fn` with the current parent name and the entry's value as the record |
| CompatWalker.WalkDistinct | index.js:39-47 | no `__compat` key is visited twice |
| CompatWalker.WalkExactlyOnce | index.js:39-47 | `fn` is called exactly once per reachable `__compat` key, with the right record and parent name, and never inside a `__compat` value |
| CompatWalker.WalkScalar | index.js:40 | a value that is not an object or array produces no calls |
| SamsungMerge.Overwritable | index.js:61 | a Samsung field may be written when it is absent, falsy or `true` |
| SamsungMerge.Promoted | index.js:66-72 | the value written: the Chrome value, mapped by `getSamsungVersion` for `version_added` and `version_removed` |
| SamsungMerge.Step | index.js:57-76 | one turn of the loop for one Chrome key |
| SamsungMerge.MergeEntries | index.js:54-77 | the Samsung data after the loop has gone through the Chrome keys in order |
| SamsungMerge.SamsungData | index.js:49-80 | the Samsung data, or a new object when it is absent or falsy, after the loop; a truthy Samsung value that is not an object is returned as it was |
| SamsungMerge.GetSamsungDataFromChromeData | index.js:49-80 | the loop over the Chrome keys, with its `continue` on `flags`, leaves what `SamsungData` specifies |
| SamsungMerge.StepLookup | index.js:57-75 | one turn of the loop writes only `prop`, and writes it exactly when it is not `flags` and its Samsung value is absent, falsy or `true`; a new key goes last |
| SamsungMerge.MergeUnique | index.js:75 | the Samsung entry keeps distinct keys through the loop |
| SamsungMerge.MergeKeeps | index.js:57-61 | `flags`, keys the Chrome entry lacks, and keys holding a truthy value other than `true` keep their Samsung value |
| SamsungMerge.MergeOverwrites | index.js:61-75 | every other Chrome key receives the Chrome value, mapped through `getSamsungVersion` for the two version fields |
| SamsungMerge.MergeLookup | index.js:54-76 | each Chrome key other than `flags` whose Samsung field is absent, falsy or `true` gets the Chrome value, mapped through `getSamsungVersion` for `version_added`/`version_removed`; every other key keeps its value; keys stay distinct |
| SamsungMerge.MergeKeys | index.js:54-76 | the keys afterwards are the old keys in their order, followed by the new Chrome keys (other than `flags`) in Chrome order |
| SamsungMerge.MergeKeySet | index.js:51-79 | the key set afterwards is the old keys together with the Chrome keys other than `flags` |
| SamsungMerge.MergeKeepsFlags | index.js:57 | the Samsung `flags` field is never written |
| SamsungMerge.MergeKeepsTruthy | index.js:61 | a truthy Samsung value other than `true` is kept |
| SamsungMerge.MergeIdempotent | index.js:51-79 | merging the same Chrome entry a second time changes nothing |
| SamsungMerge.MergeWellFormed | index.js:54-76 | the merged entry has distinct keys and well-formed values |
| SamsungMerge.MergeFromEmpty | index.js:51 | merging into a new object gives exactly the Chrome keys other than `flags`, with their mapped values |
| SamsungMerge.SamsungDataIdempotent | index.js:49-80 | passing the result back in as the Samsung data changes nothing |
| SamsungMerge.SamsungDataWellFormed | index.js:49-80 | the result is well-formed |
| SamsungInference.SupportOf | index.js:111-116 | the `support` object of the record, when there is one |
| SamsungInference.ChromeOf | index.js:118-120 | `support.chrome_android` when it is truthy, the only case that infers anything |
| SamsungInference.ChromeEntries | index.js:54 | `Object.keys(chromeData)` with the values read for those keys, for a `chrome_android` that is not an array: an object's entries, a string's characters, nothing for a number or boolean |
| SamsungInference.ChromeEntriesWellFormed | index.js:54 | the enumerated keys are distinct with well-formed values, and a string, number or boolean yields no version field |
| SamsungInference.FreshMerges | index.js:124 | `chromeData.map(...)`: each Chrome element merged into a new object |
| SamsungInference.Inferred | index.js:121-130 | the value assigned to `support.samsunginternet_android` |
| SamsungInference.OnCompat | index.js:111-131 | the record as the callback leaves it |
| SamsungInference.InferRecord | index.js:111-132 | the callback, including the loop that stands for `map`, leaves the record `OnCompat` specifies |
| SamsungInference.OnCompatSkips | index.js:113-120 | with no support object, or with `chrome_android` absent or falsy, the record is unchanged; otherwise `samsunginternet_android` is always assigned |
| SamsungInference.OnCompatArray | index.js:121-124 | an array `chrome_android` gives a Samsung array of the same length; element i is merged from an empty object and holds exactly the non-`flags` keys of Chrome element i; the old Samsung data plays no part |
| SamsungInference.OnCompatScalar | index.js:125-130 | a `chrome_android` that is not an array has its enumerated keys merged into the existing Samsung entry; a number or `true` has none, so the entry becomes `{}` when absent or falsy and is otherwise kept |
| SamsungInference.OnCompatFrame | index.js:124-130 | only `support.samsunginternet_android` changes; the record keeps its keys and order, and every other key keeps its value |
| SamsungInference.OnCompatSupport | index.js:124-130 | the assignment lands in the record's own support object, under `samsunginternet_android` |
| SamsungInference.InferredIdempotent | index.js:121-130 | inferring again from the same Chrome data, with the inferred value as the existing Samsung entry, gives the same value |
| SamsungInference.OnCompatWellFormed | index.js:111-132 | the record stays well-formed, its Chrome data is unchanged, and the callback can run on it again |
| SamsungInference.OnCompatIdempotent | index.js:111-132 | running the callback twice is the same as running it once |
| SamsungDocument.ProcessEntry | index.js:40-45 | what the walk leaves under one key: a rewritten record, a rewritten subtree, or the value as it was |
| SamsungDocument.ProcessTree | index.js:39-47 | the walked tree keeps its object or array kind; a value that is not an object or array is unchanged |
| SamsungDocument.WalkProcessed | index.js:39-47 | walking the rewritten tree meets the same `__compat` keys in the same order with the same parent names, and finds at each one the callback's rewrite of the original record |
| SamsungDocument.ProcessTreeFrame | index.js:39-47 | along a path with no `__compat` key the rewritten tree has a value exactly where the original has one; objects and arrays keep their kind and keys; every other value is unchanged |
| SamsungDocument.ProcessTreeAtCompat | index.js:39-47 | at every `__compat` key the walk reaches, the rewritten tree holds the callback's rewrite of the original record |
| SamsungDocument.ProcessTreeKeeps | index.js:39-47 | everything reached without passing a `__compat` key is kept |
| SamsungDocument.ProcessTreeWellFormed | index.js:39-47 | the rewritten tree is well-formed and can be walked again |
| SamsungDocument.ProcessTreeIdempotent | index.js:107-133 | rewriting a rewritten tree changes nothing |
| SamsungDocument.ProcessSection | index.js:109-111 | a section after the loop body: `browsers` as it was, any other section walked and rewritten |
| SamsungDocument.ProcessFile | index.js:107-133 | the parsed file after the section loop |
| SamsungDocument.InferFile | index.js:107-133 | the section loop, with its `continue` on `browsers`, leaves what `ProcessFile` specifies |
| SamsungDocument.ProcessFileSections | index.js:107-111 | the file keeps its sections in order; `browsers` is never changed; every other section has the callback applied exactly to the records its walk visits, and everything reached without passing a `__compat` key is kept |
| SamsungDocument.ProcessFileIdempotent | index.js:107-133 | running the tool twice over a file gives the same result as running it once |
| SamsungDocument.ProcessFileWellFormed | index.js:107-133 | the rewritten file is well-formed |
| BranchNames.StripNonAlnum | split-banch-per-folder.js:39 | `folderName.replace(/[^a-z0-9]/ig, '')` |
| BranchNames.FolderToBranchName | split-banch-per-folder.js:38-40 | `origBranch + '_'` followed by the stripped folder name |
| BranchNames.StripAppend | split-banch-per-folder.js:39 | filtering a concatenation gives the concatenation of the filtered parts, so characters keep their order |
| BranchNames.StripChar | split-banch-per-folder.js:39 | a single character is kept exactly when it is an ASCII letter of either case or a digit |
| BranchNames.StripAlnum | split-banch-per-folder.js:39 | only ASCII letters and digits remain, and the result is no longer than the folder name |
| BranchNames.StripCounts | split-banch-per-folder.js:39 | each letter and digit occurs in the result as often as in the folder name, and no other character occurs |
| BranchNames.StripFixpoint | split-banch-per-folder.js:39 | a name comes back unchanged exactly when it is all ASCII letters and digits |
| BranchNames.StripIdempotent | split-banch-per-folder.js:39 | stripping a second time changes nothing |
| BranchNames.BranchNameShape | split-banch-per-folder.js:38-40 | the branch name is the original branch, then `_`, then the stripped folder name, which is all ASCII letters and digits and no longer than the folder name |
| BranchNames.FindFrom | split-banch-per-folder.js:36 | the position found is the first occurrence of the pattern; there is none exactly when the pattern does not occur |
| BranchNames.ReplaceFirst | split-banch-per-folder.js:36 | `s.replace(gitPath, '')` with a string pattern: the first occurrence only |
| BranchNames.FolderNames | split-banch-per-folder.js:35-36 | there is one folder name per glob result |
| BranchNames.ReplaceFirstAbsent | split-banch-per-folder.js:36 | a glob result that does not contain `gitPath` is unchanged |
| BranchNames.ReplaceFirstAt | split-banch-per-folder.js:36 | only the first occurrence of `gitPath` is removed; the text before and after it is kept |
| BranchNames.FolderNameOfPrefixed | split-banch-per-folder.js:36 | a glob result that starts with `gitPath` gives the rest of the path |
| BranchNames.StripApi | split-banch-per-folder.js:39 | the folder name `"api/"` strips to `"api"` |
| BranchNames.ApiFolderExample | split-banch-per-folder.js:35-39 | `gitPath + "api/"` gives the folder name `"api/"`, and that gives the branch `origBranch + "_api"` |

## Left out

- I/O is not modelled: cloning the data repository, existence checks, globbing, argument parsing, reading, parsing and writing files, and the handling of invalid JSON. The glob results enter `BranchNames.FolderNames` as a parameter.
- `console.log` diagnostics are not modelled. This includes the call to `getSamsungVersion` at index.js:63, which only builds a log line.
- The git and child-process work in split-banch-per-folder.js (checkout, branch creation, diff, commit, branch deletion) is not modelled. It runs external processes.
- `SamsungVersions.SamsungVersion` takes only `null`, booleans and integers. JavaScript's comparison of version strings such as `"56"` or `"≤37"` against numbers is not modelled.
- `compatWalker` throws on a `null` child, because `typeof null` is `"object"`. The model requires no `null` outside `__compat` values (`CompatWalker.Walkable`). Destructuring a `null` record also throws, so the model requires every record to be non-null (`SamsungInference.RecordOk`).
- `SamsungInference.RecordOk` requires every element of an array `chrome_android` to be an object. A string element would be enumerated character by character, and a number element would give `{}`; neither is modelled.
- `Json.Children` gives no entries for a string, although `Object.entries` lists its characters under "0", "1", .... `compatWalker` neither calls `fn` for such a character nor descends into it, so the calls are the same.
- `SamsungMerge.SamsungData`: the model returns a truthy Samsung entry that is not an object unchanged, because `JSON.stringify` does not show property writes on it. An array Samsung entry receiving Chrome keys that are array indices is not modelled. Neither is one receiving the Chrome key `length`, which resizes the array or throws `RangeError`.
- `SamsungDocument.InferFile` takes the entries of an object. A `null` root makes `Object.entries` throw at index.js:107, and a root that is an array or another value is not modelled.
- `Json.JNum` holds integers only. JSON numbers with a fraction or an exponent are not represented.
- Only own keys are modelled. Chrome keys that name inherited properties (`constructor`, `toString` and so on) would read as truthy in `data[prop]` and are not modelled.
- Keys are enumerated in insertion order. JavaScript lists integer-like keys first, in ascending order; the entries of browser-compat-data support objects have no such keys. The characters of a string `chrome_android` do land under such keys; the model appends them after the existing Samsung keys, where JavaScript would list them first.
- The `/[^a-z0-9]/ig` class is modelled as matching exactly the ASCII letters of either case and the digits. That is what it matches without the `u` flag.
- `parentName` and `propName` are passed only to logging, so the modelled callback and merge do not take them.

