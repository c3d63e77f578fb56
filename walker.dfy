/**
 * `compatWalker` of index.js: a depth-first walk that calls `fn(parentName, value)`
 * for every `__compat` key and descends into every other child whose type is "object".
 * The walk is modelled as the ordered list of calls it makes.
 */
module CompatWalker {

  import opened Wrappers
  import opened Json

  const CompatKey := "__compat"

  /**
   * One call `fn(parent, record)`. The path of keys from the walk's root to the
   * `__compat` key is not passed to `fn`; it is kept to say which key was visited.
   */
  datatype Visit = Visit(parent: string, path: seq<string>, record: Json)

  /**
   * The walk can run on node without throwing: every child it descends into is not
   * null (`typeof null` is "object", and `Object.entries(null)` throws).
   */
  predicate Walkable(node: Json)
    decreases node
  {
    forall i :: 0 <= i < |Children(node)| ==>
      var (name, o) := Children(node)[i];
      name == CompatKey || (o != JNull && (IsContainer(o) ==> Walkable(o)))
  }

  /** `compatWalker(node, parent, fn)`; `at` is the path from the walk's root to node. */
  function Walk(node: Json, parent: string, at: seq<string>): seq<Visit>
    requires Walkable(node)
    decreases node, 1
  {
    WalkFrom(node, parent, at, |Children(node)|)
  }

  /** The calls made for the first n entries of `Object.entries(node)`. */
  function WalkFrom(node: Json, parent: string, at: seq<string>, n: nat): seq<Visit>
    requires Walkable(node) && n <= |Children(node)|
    decreases node, 0, n
  {
    if n == 0 then [] else WalkFrom(node, parent, at, n - 1) + WalkChild(node, parent, at, n - 1)
  }

  /** The calls made for entry i of `Object.entries(node)`. */
  function WalkChild(node: Json, parent: string, at: seq<string>, i: nat): seq<Visit>
    requires Walkable(node) && i < |Children(node)|
    decreases node, 0, i
  {
    var (name, o) := Children(node)[i];
    if name == CompatKey then [Visit(parent, at + [name], o)]
    else if IsContainer(o) then Walk(o, name, at + [name])
    else []
  }

  /** The value reached from node by following the keys of path, if there is one. */
  function At(node: Json, path: seq<string>): Option<Json>
    decreases |path|
  {
    if path == [] then Some(node)
    else match IndexOf(Children(node), path[0])
      case None => None
      case Some(i) => At(Children(node)[i].1, path[1..])
  }

  /** A path to a `__compat` key that passes through no other `__compat` key. */
  predicate IsCompatPath(node: Json, q: seq<string>) {
    && |q| > 0
    && q[|q| - 1] == CompatKey
    && (forall j :: 0 <= j < |q| - 1 ==> q[j] != CompatKey)
    && At(node, q).Some?
  }

  /** The name `fn` receives: the key holding the `__compat` key, or the walk's own name. */
  function ParentOf(parent: string, q: seq<string>): string
    requires |q| > 0
  {
    if |q| == 1 then parent else q[|q| - 2]
  }

  /** No two visits are for the same `__compat` key. */
  predicate DistinctPaths(w: seq<Visit>) {
    forall i, j :: 0 <= i < j < |w| ==> w[i].path != w[j].path
  }

  ghost predicate SoundVisit(node: Json, parent: string, at: seq<string>, v: Visit) {
    && |at| < |v.path|
    && v.path[..|at|] == at
    && IsCompatPath(node, v.path[|at|..])
    && At(node, v.path[|at|..]) == Some(v.record)
    && v.parent == ParentOf(parent, v.path[|at|..])
  }

  lemma AtChild(node: Json, i: nat, rest: seq<string>)
    requires UniqueKeys(Children(node)) && i < |Children(node)|
    ensures At(node, [Children(node)[i].0] + rest) == At(Children(node)[i].1, rest)
  {
    var q := [Children(node)[i].0] + rest;
    assert q[1..] == rest;
    assert IndexOf(Children(node), q[0]) == Some(i);
  }

  /** A visit found below child i of node, seen from node itself. */
  lemma SoundVisitLift(node: Json, parent: string, at: seq<string>, i: nat, v: Visit)
    requires UniqueKeys(Children(node)) && i < |Children(node)| && Children(node)[i].0 != CompatKey
    requires SoundVisit(Children(node)[i].1, Children(node)[i].0, at + [Children(node)[i].0], v)
    ensures SoundVisit(node, parent, at, v) && v.path[|at|] == Children(node)[i].0
  {
    var (name, o) := Children(node)[i];
    var q' := v.path[|at| + 1..];
    var q := v.path[|at|..];
    assert q == [name] + q' && v.path[|at|] == name by {
      assert v.path[..|at| + 1] == at + [name];
    }
    assert v.path[..|at|] == at by {
      assert v.path[..|at| + 1] == at + [name];
      assert v.path[..|at|] == (at + [name])[..|at|];
    }
    assert At(node, q) == At(o, q') by {
      AtChild(node, i, q');
    }
    assert IsCompatPath(node, q) by {
      assert q[|q| - 1] == q'[|q'| - 1];
      forall j | 0 <= j < |q| - 1 ensures q[j] != CompatKey {
        if j > 0 { assert q[j] == q'[j - 1]; }
      }
    }
    assert v.parent == ParentOf(parent, q) by {
      if |q'| > 1 { assert q[|q| - 2] == q'[|q'| - 2]; }
    }
  }

  lemma {:induction false} WalkChildSound(node: Json, parent: string, at: seq<string>, i: nat)
    requires Walkable(node) && WellFormed(node) && i < |Children(node)|
    ensures forall v :: v in WalkChild(node, parent, at, i) ==>
              SoundVisit(node, parent, at, v) && v.path[|at|] == Children(node)[i].0
    decreases node, 0, i
  {
    ChildrenUniqueKeys(node);
    var (name, o) := Children(node)[i];
    if name == CompatKey {
      var v := Visit(parent, at + [name], o);
      assert WalkChild(node, parent, at, i) == [v];
      assert v.path[|at|..] == [name] + [];
      AtChild(node, i, []);
    } else if IsContainer(o) {
      ChildrenWellFormed(node, i);
      WalkSound(o, name, at + [name]);
      forall v | v in WalkChild(node, parent, at, i)
        ensures SoundVisit(node, parent, at, v) && v.path[|at|] == name
      {
        SoundVisitLift(node, parent, at, i, v);
      }
    }
  }

  lemma {:induction false} WalkFromSound(node: Json, parent: string, at: seq<string>, n: nat)
    requires Walkable(node) && WellFormed(node) && n <= |Children(node)|
    ensures forall v :: v in WalkFrom(node, parent, at, n) ==> SoundVisit(node, parent, at, v)
    ensures forall v :: v in WalkFrom(node, parent, at, n) ==>
              |at| < |v.path| && exists j :: 0 <= j < n && v.path[|at|] == Children(node)[j].0
    decreases node, 0, n
  {
    if n > 0 {
      var a := WalkFrom(node, parent, at, n - 1);
      var b := WalkChild(node, parent, at, n - 1);
      assert WalkFrom(node, parent, at, n) == a + b;
      WalkFromSound(node, parent, at, n - 1);
      WalkChildSound(node, parent, at, n - 1);
      forall v | v in a + b
        ensures SoundVisit(node, parent, at, v)
        ensures |at| < |v.path| && exists j :: 0 <= j < n && v.path[|at|] == Children(node)[j].0
      {
        InConcat(a, b, v);
        if v in b {
          assert v.path[|at|] == Children(node)[n - 1].0;
        }
      }
    }
  }

  /** Every call `fn(parent, record)` is for a `__compat` key reached without passing another one. */
  lemma {:induction false} WalkSound(node: Json, parent: string, at: seq<string>)
    requires Walkable(node) && WellFormed(node)
    ensures forall v :: v in Walk(node, parent, at) ==> SoundVisit(node, parent, at, v)
    decreases node, 1
  {
    WalkFromSound(node, parent, at, |Children(node)|);
  }

  lemma {:induction false} WalkFromDistinct(node: Json, parent: string, at: seq<string>, n: nat)
    requires Walkable(node) && WellFormed(node) && n <= |Children(node)|
    ensures DistinctPaths(WalkFrom(node, parent, at, n))
    decreases node, 0, n
  {
    if n > 0 {
      var a := WalkFrom(node, parent, at, n - 1);
      var b := WalkChild(node, parent, at, n - 1);
      var (name, o) := Children(node)[n - 1];
      WalkFromDistinct(node, parent, at, n - 1);
      assert DistinctPaths(b) by {
        if name == CompatKey {
          assert |b| == 1;
        } else if IsContainer(o) {
          ChildrenWellFormed(node, n - 1);
          WalkDistinct(o, name, at + [name]);
          assert b == Walk(o, name, at + [name]);
        } else {
          assert b == [];
        }
      }
      assert forall i, j :: 0 <= i < |a| && 0 <= j < |b| ==> a[i].path != b[j].path by {
        WalkFromSound(node, parent, at, n - 1);
        WalkChildSound(node, parent, at, n - 1);
        ChildrenUniqueKeys(node);
        forall i, j | 0 <= i < |a| && 0 <= j < |b| ensures a[i].path != b[j].path {
          assert a[i] in a && b[j] in b;
          var k :| 0 <= k < n - 1 && a[i].path[|at|] == Children(node)[k].0;
          assert b[j].path[|at|] == name;
        }
      }
      var w := a + b;
      assert WalkFrom(node, parent, at, n) == w;
      assert DistinctPaths(w) by {
      forall i, j | 0 <= i < j < |w| ensures w[i].path != w[j].path {
        if j < |a| {
          assert w[i] == a[i] && w[j] == a[j];
        } else if i < |a| {
          assert w[i] == a[i] && w[j] == b[j - |a|];
        } else {
          assert w[i] == b[i - |a|] && w[j] == b[j - |a|];
        }
      }
      }
    }
  }

  /** No `__compat` key is visited twice. */
  lemma {:induction false} WalkDistinct(node: Json, parent: string, at: seq<string>)
    requires Walkable(node) && WellFormed(node)
    ensures DistinctPaths(Walk(node, parent, at))
    decreases node, 1
  {
    assert Walk(node, parent, at) == WalkFrom(node, parent, at, |Children(node)|);
    WalkFromDistinct(node, parent, at, |Children(node)|);
  }

  /** Below a key other than `__compat`, the rest of a compat path is a compat path of that child. */
  lemma CompatPathTail(node: Json, i: nat, q: seq<string>)
    requires UniqueKeys(Children(node)) && i < |Children(node)|
    requires IsCompatPath(node, q) && q[0] == Children(node)[i].0 && q[0] != CompatKey
    ensures |q| > 1 && IsContainer(Children(node)[i].1) && IsCompatPath(Children(node)[i].1, q[1..])
  {
    var o := Children(node)[i].1;
    var q' := q[1..];
    assert q == [q[0]] + q';
    AtChild(node, i, q');
    assert |q'| > 0 && At(o, q').Some?;
    assert IsContainer(o) by {
      assert IndexOf(Children(o), q'[0]).Some?;
      assert |Children(o)| > 0;
    }
    assert q'[|q'| - 1] == q[|q| - 1];
    forall j | 0 <= j < |q'| - 1 ensures q'[j] != CompatKey {
      assert q'[j] == q[j + 1];
    }
  }

  /**
   * A compat path whose first key is a `__compat` entry is that entry alone, and it is
   * handed to `fn` with the current parent name and the entry's value.
   */
  lemma CompatEntryVisited(node: Json, parent: string, at: seq<string>, i: nat, q: seq<string>)
    requires Walkable(node) && i < |Children(node)| && Children(node)[i].0 == CompatKey
    requires IsCompatPath(node, q) && q[0] == CompatKey
    ensures exists v :: v in WalkChild(node, parent, at, i) && v.path == at + q && v.parent == parent && v.record == Children(node)[i].1
  {
    assert |q| == 1;
    assert q == [CompatKey];
    var v := Visit(parent, at + [CompatKey], Children(node)[i].1);
    assert WalkChild(node, parent, at, i) == [v];
  }

  /** Entry i, an object or array under a key other than `__compat`, is walked with its key as the parent name. */
  lemma ChildWalk(node: Json, parent: string, at: seq<string>, i: nat)
    requires Walkable(node) && i < |Children(node)|
    requires Children(node)[i].0 != CompatKey && IsContainer(Children(node)[i].1)
    ensures Walkable(Children(node)[i].1)
    ensures WalkChild(node, parent, at, i) == Walk(Children(node)[i].1, Children(node)[i].0, at + [Children(node)[i].0])
  {
  }

  lemma PathConcat(at: seq<string>, name: string, q: seq<string>)
    requires |q| > 0 && q[0] == name
    ensures at + [name] + q[1..] == at + q
  {
    assert q == [name] + q[1..];
  }

  /** A compat path whose first key is entry i's is reached through entry i. */
  lemma {:induction false} WalkChildComplete(node: Json, parent: string, at: seq<string>, i: nat, q: seq<string>)
    requires Walkable(node) && WellFormed(node) && i < |Children(node)|
    requires IsCompatPath(node, q) && q[0] == Children(node)[i].0
    ensures exists v :: v in WalkChild(node, parent, at, i) && v.path == at + q
    decreases node, 0, i
  {
    var name := Children(node)[i].0;
    var o := Children(node)[i].1;
    if name == CompatKey {
      CompatEntryVisited(node, parent, at, i, q);
    } else {
      ChildrenUniqueKeys(node);
      CompatPathTail(node, i, q);
      ChildWalk(node, parent, at, i);
      ChildrenWellFormed(node, i);
      var q' := q[1..];
      WalkComplete(o, name, at + [name], q');
      var v :| v in Walk(o, name, at + [name]) && v.path == at + [name] + q';
      PathConcat(at, name, q);
      assert v in WalkChild(node, parent, at, i) && v.path == at + q;
    }
  }

  lemma {:induction false} WalkFromComplete(node: Json, parent: string, at: seq<string>, n: nat, q: seq<string>, i: nat)
    requires Walkable(node) && WellFormed(node) && i < n <= |Children(node)|
    requires IsCompatPath(node, q) && q[0] == Children(node)[i].0
    ensures exists v :: v in WalkFrom(node, parent, at, n) && v.path == at + q
    decreases node, 0, n
  {
    var a := WalkFrom(node, parent, at, n - 1);
    var b := WalkChild(node, parent, at, n - 1);
    assert WalkFrom(node, parent, at, n) == a + b;
    if i < n - 1 {
      WalkFromComplete(node, parent, at, n - 1, q, i);
      var v :| v in a && v.path == at + q;
      InConcat(a, b, v);
    } else {
      WalkChildComplete(node, parent, at, i, q);
      var v :| v in b && v.path == at + q;
      InConcat(a, b, v);
    }
  }

  lemma InConcat(a: seq<Visit>, b: seq<Visit>, v: Visit)
    ensures v in a + b <==> v in a || v in b
  {
  }

  /** Every `__compat` key reached without passing another `__compat` key is visited. */
  lemma {:induction false} WalkComplete(node: Json, parent: string, at: seq<string>, q: seq<string>)
    requires Walkable(node) && WellFormed(node) && IsCompatPath(node, q)
    ensures exists v :: v in Walk(node, parent, at) && v.path == at + q
    decreases node, 1
  {
    var i := IndexOf(Children(node), q[0]).value;
    WalkFromComplete(node, parent, at, |Children(node)|, q, i);
  }

  /**
   * The walk started as `compatWalker(node, name, fn)` calls `fn` exactly once for every
   * `__compat` key reachable without passing through another one, each time with the key
   * of the enclosing object (or name itself at the top) and the value under that key.
   */
  lemma WalkExactlyOnce(node: Json, name: string)
    requires Walkable(node) && WellFormed(node)
    ensures var w := Walk(node, name, []);
      && (forall v :: v in w ==>
            IsCompatPath(node, v.path) && At(node, v.path) == Some(v.record) &&
            v.parent == ParentOf(name, v.path))
      && (forall q :: IsCompatPath(node, q) ==> exists v :: v in w && v.path == q)
      && DistinctPaths(w)
  {
    var w := Walk(node, name, []);
    WalkSound(node, name, []);
    forall v | v in w
      ensures IsCompatPath(node, v.path) && At(node, v.path) == Some(v.record)
      ensures v.parent == ParentOf(name, v.path)
    {
      assert v.path[0..] == v.path;
    }
    forall q | IsCompatPath(node, q) ensures exists v :: v in w && v.path == q {
      WalkComplete(node, name, [], q);
      assert [] + q == q;
    }
    WalkDistinct(node, name, []);
  }

  /** A value that is not an object or array has no entries, so nothing is visited. */
  lemma WalkScalar(node: Json, name: string, at: seq<string>)
    requires !IsContainer(node)
    ensures Walk(node, name, at) == []
  {
  }
}
