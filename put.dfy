/**
 * What `put` does to a tree: it never loses a node or a datum, it keeps the
 * tree well formed, it adds exactly the missing ancestors of the path (and,
 * when the path is there already, the empty-segment child Java hangs under
 * it), and it stores the datum only when the new node hangs directly under
 * the node put was called on.
 */
module PutFacts {
  import opened Wrappers
  import opened SetAlgebra
  import opened PathStrings
  import opened PathNodes

  /** Put on a node Java has just created is Grow. */
  lemma GrowIsPut<T>(segment: string, path: string, p: string)
    ensures Grow<T>(segment, path, p) == Put(Fresh<T>(segment, path), p, None)
  {
  }

  /** Put never loses a node, and never changes the datum of a node it finds. */
  lemma {:induction false} PutKeeps<T>(n: PathNode<T>, p: string, d: Option<T>, q: string)
    requires Get(n, q).Some?
    ensures Get(Put(n, p, d).0, q).Some?
    ensures Get(Put(n, p, d).0, q).value.data == Get(n, q).value.data
    decreases n
  {
    var f := n.fullPath;
    if StartsWith(p, f) && q != f {
      GetStep(n, q);
      var kq := NextSegment(f, q).segment;
      var r := Put(n, p, d).0;
      if kq == NextSegment(f, p).segment {
        PutExisting(n, p, d);
        PutKeeps(n.inner[kq], p, None, q);
      } else {
        PutOthers(n, p, d);
      }
      assert Get(r, q) == Get(r.inner[kq], q);
    }
  }

  /** Put changes no child but the one at the next segment. */
  lemma PutOthers<T>(n: PathNode<T>, p: string, d: Option<T>)
    requires StartsWith(p, n.fullPath)
    ensures forall j :: j in n.inner && j != NextSegment(n.fullPath, p).segment ==>
      j in Put(n, p, d).0.inner && Put(n, p, d).0.inner[j] == n.inner[j]
  {
    var t := NextSegment(n.fullPath, p);
    if t.segment in n.inner {
      PutExisting(n, p, d);
    } else if t.last {
      PutLeafShape(n, p, d);
    } else {
      PutChainShape(n, p, d);
    }
  }

  /** Grow builds a well-formed chain for a path without a trailing separator. */
  lemma {:induction false} GrowWellFormed<T>(segment: string, path: string, p: string)
    requires DirPath(path) && !EndsWithSlash(p)
    ensures WellFormed(Grow<T>(segment, path, p).0)
    decreases |p| - |path|
  {
    if StartsWith(p, path) {
      var t := NextSegment(path, p);
      var next := ChildPath(path, t.segment);
      var seed := Fresh<T>(segment, path);
      if t.last {
        if t.segment == [] {
          EmptySegment(path, p);
        }
        GrowLastShape<T>(segment, path, p);
        WellFormedReplace(seed, t.segment, Fresh<T>(t.segment, next));
      } else {
        NotLastNonEmpty(path, p);
        ChildDirPath(path, t.segment);
        GrowWellFormed<T>(t.segment, next, p);
        GrowNextShape<T>(segment, path, p);
        WellFormedReplace(seed, t.segment, Grow<T>(t.segment, next, p).0);
      }
    }
  }

  /** Grow when the next segment is the last one: a node with one fresh child. */
  lemma GrowLastShape<T>(segment: string, path: string, p: string)
    requires StartsWith(p, path) && NextSegment(path, p).last
    ensures var k := NextSegment(path, p).segment;
      var seed := Fresh<T>(segment, path);
      Grow<T>(segment, path, p) == (seed.(inner := seed.inner[k := Fresh(k, ChildPath(path, k))]), true)
  {
  }

  /** Grow when more segments follow: a node whose one child grows on. */
  lemma GrowNextShape<T>(segment: string, path: string, p: string)
    requires StartsWith(p, path) && !NextSegment(path, p).last
    ensures var k := NextSegment(path, p).segment;
      var seed := Fresh<T>(segment, path);
      var g := Grow<T>(k, ChildPath(path, k), p);
      Grow<T>(segment, path, p) == (seed.(inner := seed.inner[k := g.0]), g.1)
  {
  }

  /** Where the next segment is the empty one and already has a child, put
      leaves the node as it is and reports false. */
  lemma PutSaturated<T>(n: PathNode<T>, p: string, d: Option<T>)
    requires WellFormed(n) && StartsWith(p, n.fullPath) && !EndsWithSlash(p)
    requires NextSegment(n.fullPath, p).segment == [] && "" in n.inner
    ensures p == n.fullPath
    ensures Put(n, p, d) == (n, false)
  {
    EmptySegment(n.fullPath, p);
    assert ChildOk(n.fullPath, "", n.inner[""]);
    assert |n.inner[""].fullPath| > |p|;
    SaturatedShape(n, p, d);
  }

  lemma SaturatedShape<T>(n: PathNode<T>, p: string, d: Option<T>)
    requires StartsWith(p, n.fullPath)
    requires NextSegment(n.fullPath, p).segment == [] && "" in n.inner
    requires !StartsWith(p, n.inner[""].fullPath)
    ensures Put(n, p, d) == (n, false)
  {
    PutExisting(n, p, d);
    assert n.inner["" := n.inner[""]] == n.inner;
  }

  /** Put where the next segment is new and the last one: a childless child. */
  lemma PutLeafShape<T>(n: PathNode<T>, p: string, d: Option<T>)
    requires StartsWith(p, n.fullPath)
    requires NextSegment(n.fullPath, p).segment !in n.inner && NextSegment(n.fullPath, p).last
    ensures var k := NextSegment(n.fullPath, p).segment;
      Put(n, p, d) == (n.(inner := n.inner[k := PathNode(k, ChildPath(n.fullPath, k), map[], d)]), true)
  {
  }

  /** Put where the next segment is new and not the last one: a grown chain. */
  lemma PutChainShape<T>(n: PathNode<T>, p: string, d: Option<T>)
    requires StartsWith(p, n.fullPath)
    requires NextSegment(n.fullPath, p).segment !in n.inner && !NextSegment(n.fullPath, p).last
    ensures var k := NextSegment(n.fullPath, p).segment;
      var g := Grow<T>(k, ChildPath(n.fullPath, k), p);
      Put(n, p, d) == (n.(inner := n.inner[k := g.0]), g.1)
  {
  }

  /** The child put creates when the next segment is the last one and new. */
  lemma PutNewLeaf<T>(n: PathNode<T>, p: string, d: Option<T>)
    requires WellFormed(n) && DirPath(n.fullPath) && StartsWith(p, n.fullPath) && !EndsWithSlash(p)
    requires NextSegment(n.fullPath, p).segment !in n.inner && NextSegment(n.fullPath, p).last
    ensures var k := NextSegment(n.fullPath, p).segment;
      Put(n, p, d).0 == n.(inner := n.inner[k := PathNode(k, ChildPath(n.fullPath, k), map[], d)])
    ensures WellFormed(Put(n, p, d).0) && Put(n, p, d).1
  {
    var k := NextSegment(n.fullPath, p).segment;
    if k == [] {
      EmptySegment(n.fullPath, p);
    }
    PutLeafShape(n, p, d);
    WellFormedReplace(n, k, PathNode(k, ChildPath(n.fullPath, k), map[], d));
  }

  /** The chain put grows when the next segment is new and not the last one. */
  lemma PutNewChain<T>(n: PathNode<T>, p: string, d: Option<T>)
    requires WellFormed(n) && DirPath(n.fullPath) && StartsWith(p, n.fullPath) && !EndsWithSlash(p)
    requires NextSegment(n.fullPath, p).segment !in n.inner && !NextSegment(n.fullPath, p).last
    ensures var k := NextSegment(n.fullPath, p).segment;
      && Put(n, p, d).0 == n.(inner := n.inner[k := Grow<T>(k, ChildPath(n.fullPath, k), p).0])
      && Put(n, p, d).1 == Grow<T>(k, ChildPath(n.fullPath, k), p).1
    ensures WellFormed(Put(n, p, d).0)
  {
    var k := NextSegment(n.fullPath, p).segment;
    NotLastNonEmpty(n.fullPath, p);
    ChildDirPath(n.fullPath, k);
    GrowWellFormed<T>(k, ChildPath(n.fullPath, k), p);
    PutChainShape(n, p, d);
    WellFormedReplace(n, k, Grow<T>(k, ChildPath(n.fullPath, k), p).0);
  }

  /** Put into an existing child, whose result replaces that child. */
  lemma PutExisting<T>(n: PathNode<T>, p: string, d: Option<T>)
    requires StartsWith(p, n.fullPath) && NextSegment(n.fullPath, p).segment in n.inner
    ensures var k := NextSegment(n.fullPath, p).segment;
      && Put(n, p, d).0 == n.(inner := n.inner[k := Put(n.inner[k], p, None).0])
      && Put(n, p, d).1 == Put(n.inner[k], p, None).1
  {
  }

  /** Putting a path without a trailing separator keeps a tree well formed. */
  lemma {:induction false} PutWellFormed<T>(n: PathNode<T>, p: string, d: Option<T>)
    requires WellFormed(n) && DirPath(n.fullPath) && !EndsWithSlash(p)
    ensures WellFormed(Put(n, p, d).0)
    decreases n
  {
    var f := n.fullPath;
    if StartsWith(p, f) {
      var t := NextSegment(f, p);
      var k := t.segment;
      if k !in n.inner {
        if t.last {
          PutNewLeaf(n, p, d);
        } else {
          PutNewChain(n, p, d);
        }
      } else if k == [] {
        PutSaturated(n, p, d);
      } else {
        var c := n.inner[k];
        PutExisting(n, p, d);
        ChildDirPath(f, k);
        PutWellFormed(c, p, None);
        WellFormedReplace(n, k, Put(c, p, None).0);
      }
    }
  }

  /** The node at `p` exists and already carries the empty-segment child. */
  ghost predicate Saturated<T>(n: PathNode<T>, p: string) {
    Get(n, p).Some? && "" in Get(n, p).value.inner
  }

  /** The path of the empty-segment child a put of an existing path adds. */
  ghost function Dup<T>(n: PathNode<T>, p: string): set<string> {
    if Get(n, p).Some? && "" !in Get(n, p).value.inner then {p + "/"} else {}
  }

  /** Grow when the next segment is the last one: the node and the path itself. */
  lemma GrowPathsLast<T>(segment: string, path: string, p: string)
    requires Canonical(p) && OnTrail(path, p) && path != p
    requires NextSegment(path, p).last
    ensures Paths(Grow<T>(segment, path, p).0) == {path} + AncestorsFrom(|path|, p)
    ensures Grow<T>(segment, path, p).1
  {
    var c := LastStep(path, p);
    var k := NextSegment(path, p).segment;
    var seed := Fresh<T>(segment, path);
    var leaf := Fresh<T>(k, c);
    var g := Grow<T>(segment, path, p).0;
    assert g == seed.(inner := seed.inner[k := leaf]);
    PathsReplace(seed, k, leaf);
    OthersLeaf(seed, k);
    PathsLeaf(leaf);
    DropEmpty(Paths(g), {path}, Others(seed, k), Paths(leaf), AncestorsFrom(|path|, p));
  }

  /** One step of Grow: the node itself, then what Grow builds for the child. */
  lemma GrowStep<T>(segment: string, path: string, p: string)
    requires StartsWith(p, path) && !NextSegment(path, p).last
    ensures var t := NextSegment(path, p);
      Paths(Grow<T>(segment, path, p).0)
      == {path} + Paths(Grow<T>(t.segment, ChildPath(path, t.segment), p).0)
    ensures var t := NextSegment(path, p);
      Grow<T>(segment, path, p).1 == Grow<T>(t.segment, ChildPath(path, t.segment), p).1
  {
    var t := NextSegment(path, p);
    var seed := Fresh<T>(segment, path);
    var h := Grow<T>(t.segment, ChildPath(path, t.segment), p).0;
    var g := Grow<T>(segment, path, p).0;
    assert g == seed.(inner := seed.inner[t.segment := h]);
    PathsReplace(seed, t.segment, h);
    OthersLeaf(seed, t.segment);
    DropEmpty(Paths(g), {path}, Others(seed, t.segment), Paths(h), Paths(h));
  }

  /** Growing along a path adds the node itself and every later ancestor. */
  lemma {:induction false} GrowPaths<T>(segment: string, path: string, p: string)
    requires Canonical(p) && OnTrail(path, p) && path != p
    ensures Paths(Grow<T>(segment, path, p).0) == {path} + AncestorsFrom(|path|, p)
    ensures Grow<T>(segment, path, p).1
    decreases |p| - |path|
  {
    if NextSegment(path, p).last {
      GrowPathsLast<T>(segment, path, p);
    } else {
      var c := TrailStep(path, p);
      GrowStep<T>(segment, path, p);
      GrowPaths<T>(NextSegment(path, p).segment, c, p);
    }
  }

  /** Put at the node whose path is `p` itself. */
  lemma PutPathsSelf<T>(n: PathNode<T>, p: string, d: Option<T>)
    requires WellFormed(n) && Canonical(p) && n.fullPath == p
    ensures Paths(Put(n, p, d).0) == Paths(n) + AncestorsFrom(|n.fullPath|, p) + Dup(n, p)
    ensures Put(n, p, d).1 <==> !Saturated(n, p)
  {
    SegmentAtSelf(p);
    assert AncestorsFrom(|p|, p) == {};
    assert Get(n, p) == Some(n);
    if "" in n.inner {
      PutSaturated(n, p, d);
      AddNothing(Paths(n), AncestorsFrom(|p|, p), Dup(n, p));
    } else {
      PutNewLeaf(n, p, d);
      var leaf := PathNode("", ChildPath(p, ""), map[], d);
      PathsWithout(n, "");
      PathsReplace(n, "", leaf);
      PathsLeaf(leaf);
      assert ChildPath(p, "") == p + "/";
      AddLeaf(Paths(Put(n, p, d).0), Paths(n), {p} + Others(n, ""), Paths(leaf),
        AncestorsFrom(|p|, p), Dup(n, p));
    }
  }

  /** Put where the next segment is new and the last one: the path itself is added. */
  lemma PutPathsNewLeaf<T>(n: PathNode<T>, p: string, d: Option<T>)
    requires WellFormed(n) && Canonical(p) && OnTrail(n.fullPath, p) && n.fullPath != p
    requires NextSegment(n.fullPath, p).segment !in n.inner && NextSegment(n.fullPath, p).last
    ensures Paths(Put(n, p, d).0) == Paths(n) + AncestorsFrom(|n.fullPath|, p)
    ensures Put(n, p, d).1
  {
    var f := n.fullPath;
    var k := NextSegment(f, p).segment;
    var c := LastStep(f, p);
    PathsWithout(n, k);
    PutNewLeaf(n, p, d);
    var leaf := PathNode(k, c, map[], d);
    PathsReplace(n, k, leaf);
    PathsLeaf(leaf);
    AddChild(Paths(Put(n, p, d).0), Paths(n), {f} + Others(n, k), Paths(leaf),
      AncestorsFrom(|f|, p));
  }

  /** Put where the next segment is new and not the last one: Grow adds the rest. */
  lemma PutPathsNewChain<T>(n: PathNode<T>, p: string, d: Option<T>)
    requires WellFormed(n) && Canonical(p) && OnTrail(n.fullPath, p) && n.fullPath != p
    requires NextSegment(n.fullPath, p).segment !in n.inner && !NextSegment(n.fullPath, p).last
    ensures Paths(Put(n, p, d).0) == Paths(n) + AncestorsFrom(|n.fullPath|, p)
    ensures Put(n, p, d).1
  {
    var f := n.fullPath;
    var k := NextSegment(f, p).segment;
    var c := TrailStep(f, p);
    var g := Grow<T>(k, c, p).0;
    PathsWithout(n, k);
    PutNewChain(n, p, d);
    GrowPaths<T>(k, c, p);
    PathsReplace(n, k, g);
    AddChild(Paths(Put(n, p, d).0), Paths(n), {f} + Others(n, k), Paths(g),
      AncestorsFrom(|f|, p));
  }

  /** Put where the next segment has no child yet. */
  lemma PutPathsNew<T>(n: PathNode<T>, p: string, d: Option<T>)
    requires WellFormed(n) && Canonical(p) && OnTrail(n.fullPath, p) && n.fullPath != p
    requires NextSegment(n.fullPath, p).segment !in n.inner
    ensures Paths(Put(n, p, d).0) == Paths(n) + AncestorsFrom(|n.fullPath|, p)
    ensures Put(n, p, d).1 && Get(n, p).None?
  {
    if NextSegment(n.fullPath, p).last {
      PutPathsNewLeaf(n, p, d);
    } else {
      PutPathsNewChain(n, p, d);
    }
  }

  /**
   * Putting a path without repeated or trailing separators adds exactly the
   * ancestors of the path not yet in the tree, and the path itself. When the
   * path is there already Java still adds a child under the empty segment
   * (full path `p + "/"`) and reports true; only when that child exists too
   * does put report false.
   */
  lemma {:induction false} PutPaths<T>(n: PathNode<T>, p: string, d: Option<T>)
    requires WellFormed(n) && Canonical(p) && OnTrail(n.fullPath, p)
    ensures Paths(Put(n, p, d).0) == Paths(n) + AncestorsFrom(|n.fullPath|, p) + Dup(n, p)
    ensures Put(n, p, d).1 <==> !Saturated(n, p)
    decreases n, 1
  {
    var f := n.fullPath;
    if f == p {
      PutPathsSelf(n, p, d);
    } else if NextSegment(f, p).segment !in n.inner {
      PutPathsNew(n, p, d);
      NoDup(n, p);
      AddNone(Paths(Put(n, p, d).0), Paths(n) + AncestorsFrom(|f|, p), Dup(n, p));
    } else {
      PutPathsInChild(n, p, d);
    }
  }

  /** PutPaths where the next segment names an existing child: put into it. */
  lemma {:induction false} PutPathsInChild<T>(n: PathNode<T>, p: string, d: Option<T>)
    requires WellFormed(n) && Canonical(p) && OnTrail(n.fullPath, p) && n.fullPath != p
    requires NextSegment(n.fullPath, p).segment in n.inner
    ensures Paths(Put(n, p, d).0) == Paths(n) + AncestorsFrom(|n.fullPath|, p) + Dup(n, p)
    ensures Put(n, p, d).1 <==> !Saturated(n, p)
    decreases n, 0
  {
    var k := NextSegment(n.fullPath, p).segment;
    var c := TrailNext(n.fullPath, p);
    assert ChildOk(n.fullPath, k, n.inner[k]);
    PutPaths(n.inner[k], p, None);
    PutPathsExisting(n, p, d);
  }

  /** With no node at `p` there is nothing to saturate and no duplicate. */
  lemma NoDup<T>(n: PathNode<T>, p: string)
    requires Get(n, p).None?
    ensures Dup(n, p) == {} && !Saturated(n, p)
  {
  }

  /** The inductive step of PutPaths: put into an existing child. */
  lemma PutPathsExisting<T>(n: PathNode<T>, p: string, d: Option<T>)
    requires WellFormed(n) && Canonical(p) && OnTrail(n.fullPath, p) && n.fullPath != p
    requires NextSegment(n.fullPath, p).segment in n.inner
    requires var ch := n.inner[NextSegment(n.fullPath, p).segment];
      && Paths(Put(ch, p, None).0) == Paths(ch) + AncestorsFrom(|ch.fullPath|, p) + Dup(ch, p)
      && (Put(ch, p, None).1 <==> !Saturated(ch, p))
    ensures Paths(Put(n, p, d).0) == Paths(n) + AncestorsFrom(|n.fullPath|, p) + Dup(n, p)
    ensures Put(n, p, d).1 <==> !Saturated(n, p)
  {
    var f := n.fullPath;
    var k := NextSegment(f, p).segment;
    var c := TrailStep(f, p);
    var ch := n.inner[k];
    var r1 := Put(ch, p, None).0;
    PutExisting(n, p, d);
    ExistingLookup(n, p);
    ReplaceGrown(n, k, r1, AncestorsFrom(|c|, p), Dup(ch, p), c);
  }

  /** Replacing a child by one that has its paths and more adds those more. */
  lemma ReplaceGrown<T>(n: PathNode<T>, k: string, c2: PathNode<T>, a: set<string>,
                        d: set<string>, c: string)
    requires k in n.inner && c in Paths(n.inner[k])
    requires Paths(c2) == Paths(n.inner[k]) + a + d
    ensures Paths(n.(inner := n.inner[k := c2])) == Paths(n) + ({c} + a) + d
  {
    PathsWith(n, k);
    PathsReplace(n, k, c2);
    AddBelow(Paths(n.(inner := n.inner[k := c2])), Paths(n), {n.fullPath} + Others(n, k),
      Paths(n.inner[k]), Paths(c2), {c} + a, a, d, d, c);
  }

  /** Looking `p` up from a node on its trail is looking it up in the next child,
      whose path is the next ancestor of `p`. */
  lemma ExistingLookup<T>(n: PathNode<T>, p: string)
    requires StartsWith(p, n.fullPath) && n.fullPath != p
    requires NextSegment(n.fullPath, p).segment in n.inner
    ensures var ch := n.inner[NextSegment(n.fullPath, p).segment];
      && Get(n, p) == Get(ch, p)
      && Dup(n, p) == Dup(ch, p) && Saturated(n, p) == Saturated(ch, p)
      && ch.fullPath in Paths(ch)
  {
  }

  /** The node Grow creates for the path itself is a leaf without a datum. */
  lemma {:induction false} GrowData<T>(segment: string, path: string, p: string)
    requires Canonical(p) && OnTrail(path, p) && path != p
    ensures Get(Grow<T>(segment, path, p).0, p).Some?
    ensures Get(Grow<T>(segment, path, p).0, p).value.inner == map[]
    ensures Get(Grow<T>(segment, path, p).0, p).value.data == None
    decreases |p| - |path|
  {
    var c := TrailNext(path, p);
    var t := NextSegment(path, p);
    GrowLookup<T>(segment, path, p);
    if !t.last {
      GrowData<T>(t.segment, c, p);
    }
  }

  /** Grow looks `p` up in the one child it creates. */
  lemma GrowLookup<T>(segment: string, path: string, p: string)
    requires StartsWith(p, path) && path != p
    ensures var t := NextSegment(path, p);
      Get(Grow<T>(segment, path, p).0, p)
      == if t.last then Get(Fresh<T>(t.segment, ChildPath(path, t.segment)), p)
         else Get(Grow<T>(t.segment, ChildPath(path, t.segment), p).0, p)
  {
    var t := NextSegment(path, p);
    var g := Grow<T>(segment, path, p).0;
    assert t.segment in g.inner;
    assert Get(g, p) == Get(g.inner[t.segment], p);
  }

  /**
   * A new path becomes a leaf. It receives the datum only when its segment is
   * the one that follows the path of the node put was called on; deeper new
   * paths are put without it, as Java hands the path on with the
   * one-argument put.
   */
  lemma {:induction false} PutData<T>(n: PathNode<T>, p: string, d: Option<T>)
    requires WellFormed(n) && Canonical(p) && OnTrail(n.fullPath, p)
    requires Get(n, p).None?
    ensures Get(Put(n, p, d).0, p).Some?
    ensures Get(Put(n, p, d).0, p).value.inner == map[]
    ensures Get(Put(n, p, d).0, p).value.data
         == if NextSegment(n.fullPath, p).last then d else None
    decreases n
  {
    var f := n.fullPath;
    var k := NextSegment(f, p).segment;
    assert f != p;
    var c := TrailStep(f, p);
    if k !in n.inner {
      PutDataNew(n, p, d);
    } else {
      PutData(n.inner[k], p, None);
      PutDataExisting(n, p, d);
    }
  }

  /** PutData where the next segment has no child yet. */
  lemma PutDataNew<T>(n: PathNode<T>, p: string, d: Option<T>)
    requires WellFormed(n) && Canonical(p) && OnTrail(n.fullPath, p) && n.fullPath != p
    requires NextSegment(n.fullPath, p).segment !in n.inner
    ensures Get(Put(n, p, d).0, p).Some?
    ensures Get(Put(n, p, d).0, p).value.inner == map[]
    ensures Get(Put(n, p, d).0, p).value.data
         == if NextSegment(n.fullPath, p).last then d else None
  {
    var f := n.fullPath;
    var k := NextSegment(f, p).segment;
    var r := Put(n, p, d).0;
    if NextSegment(f, p).last {
      var c := LastStep(f, p);
      PutLeafShape(n, p, d);
      assert Get(r, p) == Get(r.inner[k], p);
    } else {
      var c := TrailNext(f, p);
      PutChainShape(n, p, d);
      GrowData<T>(k, c, p);
      assert Get(r, p) == Get(r.inner[k], p);
    }
  }

  /** The inductive step of PutData: the path is handed on without the datum. */
  lemma PutDataExisting<T>(n: PathNode<T>, p: string, d: Option<T>)
    requires WellFormed(n) && Canonical(p) && OnTrail(n.fullPath, p) && n.fullPath != p
    requires Get(n, p).None?
    requires NextSegment(n.fullPath, p).segment in n.inner
    requires var ch := n.inner[NextSegment(n.fullPath, p).segment];
      && Get(Put(ch, p, None).0, p).Some?
      && Get(Put(ch, p, None).0, p).value.inner == map[]
      && Get(Put(ch, p, None).0, p).value.data == None
    ensures Get(Put(n, p, d).0, p).Some?
    ensures Get(Put(n, p, d).0, p).value.inner == map[]
    ensures Get(Put(n, p, d).0, p).value.data
         == if NextSegment(n.fullPath, p).last then d else None
  {
    var f := n.fullPath;
    var k := NextSegment(f, p).segment;
    var c := TrailStep(f, p);
    var r := Put(n, p, d).0;
    PutExisting(n, p, d);
    assert Get(r, p) == Get(r.inner[k], p);
  }

  /** After put, has finds the path and every ancestor of it below the node
      put was called on. */
  lemma PutHasTrail<T>(n: PathNode<T>, p: string, d: Option<T>)
    requires WellFormed(n) && Canonical(p) && OnTrail(n.fullPath, p)
    ensures forall a :: a in AncestorsFrom(|n.fullPath|, p) ==> Has(Put(n, p, d).0, a)
  {
    PutPaths(n, p, d);
    PutWellFormed(n, p, d);
    forall a | a in AncestorsFrom(|n.fullPath|, p)
      ensures Has(Put(n, p, d).0, a)
    {
      HasPaths(Put(n, p, d).0, a);
    }
  }
}
