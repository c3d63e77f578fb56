/**
 * The effect on one parsed data file of the loop in `main` (index.js:107-133): every
 * section except `browsers` is walked by `compatWalker`, and the callback rewrites each
 * `__compat` record it is given. The whole pass is modelled as the tree it leaves.
 */
module SamsungDocument {

  import opened Wrappers
  import opened Decimal
  import opened Json
  import opened CompatWalker
  import opened SamsungInference

  /** The walk over node reaches no null and hands the callback only records it handles. */
  predicate Inferable(node: Json)
    decreases node
  {
    forall i :: 0 <= i < |Children(node)| ==>
      var (name, o) := Children(node)[i];
      if name == CompatKey then RecordOk(o) else o != JNull && (IsContainer(o) ==> Inferable(o))
  }

  /** What the walk leaves under key name: a rewritten record, a rewritten subtree, or the value as it was. */
  function ProcessEntry(name: string, o: Json): Json
    requires name == CompatKey ==> RecordOk(o)
    requires name != CompatKey && IsContainer(o) ==> Inferable(o)
    decreases o, 2
  {
    if name == CompatKey then OnCompat(o)
    else if IsContainer(o) then ProcessTree(o)
    else o
  }

  /** `Object.entries(node)` after the walk. */
  function ProcessedChildren(node: Json): (r: Entries)
    requires Inferable(node)
    decreases node, 0
  {
    var c := Children(node);
    seq(|c|, i requires 0 <= i < |c| => (c[i].0, ProcessEntry(c[i].0, c[i].1)))
  }

  /** node after `compatWalker(node, name, callback)`. */
  function ProcessTree(node: Json): (r: Json)
    requires Inferable(node)
    ensures r.JObj? <==> node.JObj?
    ensures r.JArr? <==> node.JArr?
    ensures !IsContainer(node) ==> r == node
    decreases node, 1
  {
    var pc := ProcessedChildren(node);
    match node
    case JObj(_) => JObj(pc)
    case JArr(_) => JArr(seq(|pc|, i requires 0 <= i < |pc| => pc[i].1))
    case _ => node
  }

  lemma ChildrenProcessed(node: Json)
    requires Inferable(node)
    ensures Children(ProcessTree(node)) == ProcessedChildren(node)
  {
    if node.JArr? {
      var pc := ProcessedChildren(node);
      var c := Children(ProcessTree(node));
      assert |c| == |pc|;
      forall i | 0 <= i < |c| ensures c[i] == pc[i] {
        assert Children(node)[i].0 == NatToString(i);
      }
    }
  }

  lemma {:induction false} InferableWalkable(node: Json)
    requires Inferable(node)
    ensures Walkable(node)
    decreases node
  {
    forall i | 0 <= i < |Children(node)| && Children(node)[i].0 != CompatKey && IsContainer(Children(node)[i].1)
      ensures Walkable(Children(node)[i].1)
    {
      InferableWalkable(Children(node)[i].1);
    }
  }

  lemma {:induction false} ProcessedWalkable(node: Json)
    requires Inferable(node)
    ensures Walkable(ProcessTree(node))
    decreases node
  {
    ChildrenProcessed(node);
    var c := Children(node);
    forall i | 0 <= i < |c| && c[i].0 != CompatKey
      ensures ProcessEntry(c[i].0, c[i].1) != JNull
      ensures IsContainer(ProcessEntry(c[i].0, c[i].1)) ==> Walkable(ProcessEntry(c[i].0, c[i].1))
    {
      if IsContainer(c[i].1) {
        ProcessedWalkable(c[i].1);
      }
    }
  }

  /** w2 is the walk w with every record replaced by what the callback makes of it. */
  predicate Relabeled(w2: seq<Visit>, w: seq<Visit>) {
    && |w2| == |w|
    && forall k :: 0 <= k < |w| ==>
         && w2[k].parent == w[k].parent
         && w2[k].path == w[k].path
         && RecordOk(w[k].record)
         && w2[k].record == OnCompat(w[k].record)
  }

  lemma RelabeledConcat(a2: seq<Visit>, a: seq<Visit>, b2: seq<Visit>, b: seq<Visit>)
    requires Relabeled(a2, a) && Relabeled(b2, b)
    ensures Relabeled(a2 + b2, a + b)
  {
    var w2, w := a2 + b2, a + b;
    forall k | 0 <= k < |w|
      ensures w2[k].parent == w[k].parent && w2[k].path == w[k].path
      ensures RecordOk(w[k].record) && w2[k].record == OnCompat(w[k].record)
    {
      if k >= |a| {
        assert w2[k] == b2[k - |a|] && w[k] == b[k - |a|];
      }
    }
  }

  /**
   * Walking the rewritten tree meets the same `__compat` keys, in the same order and with
   * the same parent names, as the walk that rewrote it, and finds at each one the record
   * the callback produced from the original: the callback is applied once per visit.
   */
  lemma {:induction false} WalkProcessed(node: Json, parent: string, at: seq<string>)
    requires Inferable(node) && Walkable(node)
    ensures Walkable(ProcessTree(node))
    ensures Relabeled(Walk(ProcessTree(node), parent, at), Walk(node, parent, at))
    decreases node, 1
  {
    ProcessedWalkable(node);
    ChildrenProcessed(node);
    WalkFromProcessed(node, parent, at, |Children(node)|);
  }

  lemma {:induction false} WalkFromProcessed(node: Json, parent: string, at: seq<string>, n: nat)
    requires Inferable(node) && Walkable(node) && n <= |Children(node)|
    ensures Walkable(ProcessTree(node)) && n <= |Children(ProcessTree(node))|
    ensures Relabeled(WalkFrom(ProcessTree(node), parent, at, n), WalkFrom(node, parent, at, n))
    decreases node, 0, n
  {
    ProcessedWalkable(node);
    ChildrenProcessed(node);
    if n > 0 {
      WalkFromProcessed(node, parent, at, n - 1);
      WalkChildProcessed(node, parent, at, n - 1);
      RelabeledConcat(WalkFrom(ProcessTree(node), parent, at, n - 1), WalkFrom(node, parent, at, n - 1),
                      WalkChild(ProcessTree(node), parent, at, n - 1), WalkChild(node, parent, at, n - 1));
    }
  }

  lemma {:induction false} WalkChildProcessed(node: Json, parent: string, at: seq<string>, i: nat)
    requires Inferable(node) && Walkable(node) && i < |Children(node)|
    ensures Walkable(ProcessTree(node)) && i < |Children(ProcessTree(node))|
    ensures Relabeled(WalkChild(ProcessTree(node), parent, at, i), WalkChild(node, parent, at, i))
    decreases node, 0, i
  {
    ProcessedWalkable(node);
    ChildrenProcessed(node);
    var (name, o) := Children(node)[i];
    assert Children(ProcessTree(node))[i] == (name, ProcessEntry(name, o));
    if name != CompatKey && IsContainer(o) {
      WalkProcessed(o, name, at + [name]);
    }
  }

  /** The rewritten tree is well-formed and can be walked and rewritten again. */
  lemma {:induction false} ProcessTreeWellFormed(node: Json)
    requires Inferable(node) && WellFormed(node)
    ensures WellFormed(ProcessTree(node)) && Inferable(ProcessTree(node))
    decreases node
  {
    ChildrenProcessed(node);
    var c := Children(node);
    var pc := ProcessedChildren(node);
    ChildrenUniqueKeys(node);
    forall i | 0 <= i < |c|
      ensures WellFormed(pc[i].1)
      ensures c[i].0 == CompatKey ==> RecordOk(pc[i].1)
      ensures c[i].0 != CompatKey ==> pc[i].1 != JNull && (IsContainer(pc[i].1) ==> Inferable(pc[i].1))
    {
      ChildrenWellFormed(node, i);
      if c[i].0 == CompatKey {
        OnCompatWellFormed(c[i].1);
      } else if IsContainer(c[i].1) {
        ProcessTreeWellFormed(c[i].1);
      }
    }
    var r := ProcessTree(node);
    if r.JObj? {
      assert UniqueKeys(pc) by {
        forall i, j | 0 <= i < j < |pc| ensures pc[i].0 != pc[j].0 {
          assert pc[i].0 == c[i].0 && pc[j].0 == c[j].0;
        }
      }
    } else if r.JArr? {
      forall i | 0 <= i < |r.items| ensures WellFormed(r.items[i]) {
        assert r.items[i] == pc[i].1;
      }
    }
  }

  /** Rewriting a tree that has already been rewritten changes nothing. */
  lemma {:induction false} ProcessTreeIdempotent(node: Json)
    requires Inferable(node) && WellFormed(node)
    ensures Inferable(ProcessTree(node)) && ProcessTree(ProcessTree(node)) == ProcessTree(node)
    decreases node
  {
    ProcessTreeWellFormed(node);
    var r := ProcessTree(node);
    ChildrenProcessed(node);
    ChildrenProcessed(r);
    var c := Children(node);
    var pc := ProcessedChildren(node);
    forall i | 0 <= i < |c|
      ensures ProcessedChildren(r)[i] == pc[i]
    {
      assert Children(r)[i] == pc[i];
      ChildrenWellFormed(node, i);
      if c[i].0 == CompatKey {
        OnCompatIdempotent(c[i].1);
      } else if IsContainer(c[i].1) {
        ProcessTreeIdempotent(c[i].1);
      }
    }
    assert Children(ProcessTree(r)) == Children(r);
    if IsContainer(node) {
      ChildrenDetermine(ProcessTree(r), r);
    }
  }

  /** A path from the walk's root that passes through no `__compat` key. */
  predicate CompatFree(q: seq<string>) {
    forall j :: 0 <= j < |q| ==> q[j] != CompatKey
  }

  /** y stands where x stood: an object or array of the same kind with the same keys, or the same value. */
  predicate Kept(y: Json, x: Json) {
    if IsContainer(x) then y.JObj? == x.JObj? && y.JArr? == x.JArr? && Keys(Children(y)) == Keys(Children(x))
    else y == x
  }

  /** Everything reached from node without passing a `__compat` key is kept in r. */
  ghost predicate KeptOutsideCompat(r: Json, node: Json) {
    forall q :: CompatFree(q) ==>
      && (At(r, q).Some? <==> At(node, q).Some?)
      && (At(node, q).Some? ==> Kept(At(r, q).value, At(node, q).value))
  }

  /**
   * The walk rewrites nothing but `__compat` values: along a path with no `__compat` key
   * the rewritten tree has a value exactly where the original has one, every object and
   * array keeps its kind and keys, and every other value is unchanged.
   */
  lemma {:induction false} ProcessTreeFrame(node: Json, q: seq<string>)
    requires Inferable(node) && CompatFree(q)
    ensures At(ProcessTree(node), q).Some? <==> At(node, q).Some?
    ensures At(node, q).Some? ==> Kept(At(ProcessTree(node), q).value, At(node, q).value)
    decreases |q|
  {
    ChildrenProcessed(node);
    var c := Children(node);
    var pc := ProcessedChildren(node);
    assert Keys(pc) == Keys(c);
    if q != [] {
      IndexOfKeys(pc, c, q[0]);
      match IndexOf(c, q[0])
      case None =>
      case Some(i) =>
        var (name, o) := c[i];
        assert pc[i].1 == ProcessEntry(name, o);
        assert CompatFree(q[1..]) by {
          forall j | 0 <= j < |q[1..]| ensures q[1..][j] != CompatKey {
            assert q[1..][j] == q[j + 1];
          }
        }
        if IsContainer(o) {
          ProcessTreeFrame(o, q[1..]);
        }
    }
  }

  /**
   * At a `__compat` key the walk visits, the rewritten tree holds what the callback made
   * of the record found there in the original.
   */
  lemma {:induction false} ProcessTreeAtCompat(node: Json, q: seq<string>)
    requires Inferable(node) && IsCompatPath(node, q)
    ensures RecordOk(At(node, q).value) && At(ProcessTree(node), q) == Some(OnCompat(At(node, q).value))
    decreases |q|
  {
    ChildrenProcessed(node);
    var c := Children(node);
    var pc := ProcessedChildren(node);
    assert Keys(pc) == Keys(c);
    IndexOfKeys(pc, c, q[0]);
    var i := IndexOf(c, q[0]).value;
    var (name, o) := c[i];
    assert pc[i].1 == ProcessEntry(name, o);
    if name == CompatKey {
      assert |q| == 1;
    } else {
      var q' := q[1..];
      assert At(node, q) == At(o, q');
      assert |q'| > 0 && At(o, q').Some?;
      assert IsContainer(o) by {
        assert IndexOf(Children(o), q'[0]).Some?;
      }
      assert IsCompatPath(o, q') by {
        assert q'[|q'| - 1] == q[|q| - 1];
        forall j | 0 <= j < |q'| - 1 ensures q'[j] != CompatKey {
          assert q'[j] == q[j + 1];
        }
      }
      ProcessTreeAtCompat(o, q');
    }
  }

  /** Outside the `__compat` values the walk visits, the rewritten tree is the original. */
  lemma ProcessTreeKeeps(node: Json)
    requires Inferable(node)
    ensures KeptOutsideCompat(ProcessTree(node), node)
  {
    forall q | CompatFree(q)
      ensures At(ProcessTree(node), q).Some? <==> At(node, q).Some?
      ensures At(node, q).Some? ==> Kept(At(ProcessTree(node), q).value, At(node, q).value)
    {
      ProcessTreeFrame(node, q);
    }
  }

  /** The parsed file's sections can all be walked, `browsers` apart, which is never walked. */
  predicate FileOk(file: Entries) {
    forall i :: 0 <= i < |file| && file[i].0 != BrowsersKey ==> file[i].1 != JNull && Inferable(file[i].1)
  }

  /** The section type holding api after the loop body has run for it. */
  function ProcessSection(section: string, api: Json): Json
    requires section != BrowsersKey ==> Inferable(api)
  {
    if section == BrowsersKey then api else ProcessTree(api)
  }

  /** The parsed file after the loop of index.js:107-133. */
  function ProcessFile(file: Entries): (r: Entries)
    requires FileOk(file)
  {
    seq(|file|, i requires 0 <= i < |file| => (file[i].0, ProcessSection(file[i].0, file[i].1)))
  }

  /** `for (const [type, api] of Object.entries(file))`: section by section, skipping `browsers`. */
  method InferFile(file: Entries) returns (r: Entries)
    requires FileOk(file)
    ensures r == ProcessFile(file)
  {
    r := file;
    for i := 0 to |file|
      invariant |r| == |file|
      invariant forall j :: 0 <= j < i ==> r[j] == ProcessFile(file)[j]
      invariant forall j :: i <= j < |file| ==> r[j] == file[j]
    {
      var (section, api) := file[i];
      if section == BrowsersKey {
        continue;
      }
      r := r[i := (section, ProcessTree(api))];
    }
  }

  /**
   * The file keeps its sections in their order; `browsers` is never changed, and in
   * every other section the callback has been applied exactly to the records the
   * walk started with that section's name visits, and nothing outside them changed.
   */
  lemma ProcessFileSections(file: Entries)
    requires FileOk(file)
    ensures Keys(ProcessFile(file)) == Keys(file)
    ensures Lookup(ProcessFile(file), BrowsersKey) == Lookup(file, BrowsersKey)
    ensures forall i :: 0 <= i < |file| && file[i].0 != BrowsersKey ==>
      && Walkable(file[i].1) && Walkable(ProcessFile(file)[i].1)
      && Relabeled(Walk(ProcessFile(file)[i].1, file[i].0, []), Walk(file[i].1, file[i].0, []))
      && KeptOutsideCompat(ProcessFile(file)[i].1, file[i].1)
  {
    var r := ProcessFile(file);
    assert Keys(r) == Keys(file);
    IndexOfKeys(r, file, BrowsersKey);
    forall i | 0 <= i < |file| && file[i].0 != BrowsersKey
      ensures Walkable(file[i].1) && Walkable(r[i].1)
      ensures Relabeled(Walk(r[i].1, file[i].0, []), Walk(file[i].1, file[i].0, []))
      ensures KeptOutsideCompat(r[i].1, file[i].1)
    {
      InferableWalkable(file[i].1);
      WalkProcessed(file[i].1, file[i].0, []);
      ProcessTreeKeeps(file[i].1);
    }
  }

  /** Running the tool twice over a file gives what running it once gives. */
  lemma ProcessFileIdempotent(file: Entries)
    requires FileOk(file) && EntriesWellFormed(file)
    ensures FileOk(ProcessFile(file)) && ProcessFile(ProcessFile(file)) == ProcessFile(file)
  {
    var r := ProcessFile(file);
    forall i | 0 <= i < |file| && file[i].0 != BrowsersKey
      ensures r[i].1 != JNull && Inferable(r[i].1) && ProcessTree(r[i].1) == r[i].1
    {
      assert WellFormed(file[i].1);
      ProcessTreeIdempotent(file[i].1);
    }
  }

  /** The rewritten file is still well-formed. */
  lemma ProcessFileWellFormed(file: Entries)
    requires FileOk(file) && EntriesWellFormed(file)
    ensures EntriesWellFormed(ProcessFile(file))
  {
    var r := ProcessFile(file);
    forall i | 0 <= i < |file| ensures WellFormed(r[i].1) {
      assert WellFormed(file[i].1);
      if file[i].0 != BrowsersKey {
        ProcessTreeWellFormed(file[i].1);
      }
    }
    assert Keys(r) == Keys(file);
  }
}
