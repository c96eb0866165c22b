/**
 * What serialisation keeps. `writeObject` records the leaf paths only and
 * `readObject` puts each of them, without data, into a cleared tree. For a
 * tree in which no node has the empty segment, the tree read back has
 * exactly the paths of the tree written, and no data at all.
 */
module Persistence {
  import opened Wrappers
  import opened SetAlgebra
  import opened PathStrings
  import opened PathNodes
  import opened Traversals
  import opened PutFacts
  import opened PathTrees
  import opened TreeShape

  /** No node of the tree carries a datum. */
  ghost predicate NoData<T>(n: PathNode<T>)
    decreases n
  {
    n.data == None && forall k :: k in n.inner ==> NoData(n.inner[k])
  }

  /** No path of `s` lies at or below another entry of `s`. */
  ghost predicate Antichain(s: seq<string>) {
    forall i, j :: 0 <= i < |s| && 0 <= j < |s| && i != j ==> !Below(s[i], s[j])
  }

  /** The paths other than the root on the trails of the paths of `s`. */
  ghost function Trails(s: seq<string>): set<string>
    decreases |s|
  {
    if s == [] then {} else Trails(s[..|s| - 1]) + AncestorsFrom(1, s[|s| - 1])
  }

  // ---------------------------------------------------------------------------
  // Put without a datum keeps a tree without data
  // ---------------------------------------------------------------------------

  lemma {:induction false} GrowNoData<T>(segment: string, path: string, p: string)
    ensures NoData(Grow<T>(segment, path, p).0)
    decreases |p| - |path|
  {
    var g := Grow<T>(segment, path, p).0;
    if !StartsWith(p, path) {
      NoDataLeaf(g);
    } else {
      var t := NextSegment(path, p);
      var k := t.segment;
      if t.last {
        GrowLastShape<T>(segment, path, p);
        NoDataLeaf(g.inner[k]);
      } else {
        NotLastNonEmpty(path, p);
        GrowNoData<T>(k, ChildPath(path, k), p);
        GrowNextShape<T>(segment, path, p);
      }
      NoDataSingle(g, k);
    }
  }

  lemma NoDataLeaf<T>(n: PathNode<T>)
    requires n.data == None && n.inner == map[]
    ensures NoData(n)
  {
  }

  lemma NoDataSingle<T>(n: PathNode<T>, k: string)
    requires n.data == None && n.inner.Keys == {k} && NoData(n.inner[k])
    ensures NoData(n)
  {
  }

  /** Putting a path without a datum into a tree without data gives a tree
      without data. */
  lemma {:induction false} PutNoData<T>(n: PathNode<T>, p: string)
    requires NoData(n)
    ensures NoData(Put(n, p, None).0)
    decreases n
  {
    if StartsWith(p, n.fullPath) {
      var t := NextSegment(n.fullPath, p);
      var k := t.segment;
      var next := ChildPath(n.fullPath, k);
      if k in n.inner {
        PutExisting(n, p, None);
        PutNoData(n.inner[k], p);
        NoDataReplace(n, k, Put(n.inner[k], p, None).0);
      } else if t.last {
        assert Put(n, p, None).0 == n.(inner := n.inner[k := PathNode(k, next, map[], None)]);
        NoDataReplace(n, k, PathNode(k, next, map[], None));
      } else {
        assert Put(n, p, None).0 == n.(inner := n.inner[k := Grow<T>(k, next, p).0]);
        GrowNoData<T>(k, next, p);
        NoDataReplace(n, k, Grow<T>(k, next, p).0);
      }
    }
  }

  lemma NoDataReplace<T>(n: PathNode<T>, k: string, c: PathNode<T>)
    requires NoData(n) && NoData(c)
    ensures NoData(n.(inner := n.inner[k := c]))
  {
  }

  // ---------------------------------------------------------------------------
  // Trails
  // ---------------------------------------------------------------------------

  lemma {:induction false} TrailsOf(s: seq<string>, a: string) returns (i: nat)
    requires a in Trails(s)
    ensures i < |s| && a in AncestorsFrom(1, s[i])
    decreases |s|
  {
    if a in AncestorsFrom(1, s[|s| - 1]) {
      i := |s| - 1;
    } else {
      i := TrailsOf(s[..|s| - 1], a);
    }
  }

  lemma {:induction false} TrailsHas(s: seq<string>, i: nat, a: string)
    requires i < |s| && a in AncestorsFrom(1, s[i])
    ensures a in Trails(s)
    decreases |s|
  {
    if i < |s| - 1 {
      TrailsHas(s[..|s| - 1], i, a);
    }
  }

  // ---------------------------------------------------------------------------
  // Reading a stream back
  // ---------------------------------------------------------------------------

  /** A path that lies at or below no earlier entry is not yet on their trails. */
  lemma NotOnEarlierTrails(s: seq<string>)
    requires |s| > 0 && Antichain(s)
    ensures s[|s| - 1] !in Trails(s[..|s| - 1])
  {
    var init := s[..|s| - 1];
    var l := s[|s| - 1];
    assert forall i :: 0 <= i < |init| ==> init[i] == s[i];
    if l in Trails(init) {
      var i := TrailsOf(init, l);
      AncestorsAbove(1, init[i], l);
    }
  }

  /**
   * Replaying a stream of root or no-empty-segment paths, none at or below
   * another, builds a well-formed tree without data whose paths are the root
   * and the trails of the stream.
   */
  lemma {:induction false} ReplayShape<T>(s: seq<string>)
    requires forall i :: 0 <= i < |s| ==> s[i] == "/" || Canonical(s[i])
    requires Antichain(s)
    ensures Replay<T>(s).segment == "/" && Replay<T>(s).fullPath == "/"
    ensures WellFormed(Replay<T>(s)) && NoData(Replay<T>(s))
    ensures Paths(Replay<T>(s)) == {"/"} + Trails(s)
    decreases |s|
  {
    if s != [] {
      var init := s[..|s| - 1];
      var l := s[|s| - 1];
      assert forall i :: 0 <= i < |init| ==> init[i] == s[i];
      ReplayShape<T>(init);
      var prev := Replay<T>(init);
      if l == "/" {
        assert AncestorsFrom(1, l) == {};
        assert Normalize(l).None?;
      } else {
        assert Normalize(l) == Some(l);
        assert Replay<T>(s) == Put(prev, l, None).0;
        NotOnEarlierTrails(s);
        PutLeafStep(prev, Trails(init), l);
      }
    }
  }

  /** One step of the replay: putting a path that is not yet in the tree
      adds its trail. */
  lemma PutLeafStep<T>(prev: PathNode<T>, t: set<string>, l: string)
    requires prev.segment == "/" && prev.fullPath == "/" && WellFormed(prev) && NoData(prev)
    requires Paths(prev) == {"/"} + t && Canonical(l) && l !in t
    ensures Put(prev, l, None).0.segment == "/" && Put(prev, l, None).0.fullPath == "/"
    ensures WellFormed(Put(prev, l, None).0) && NoData(Put(prev, l, None).0)
    ensures Paths(Put(prev, l, None).0) == {"/"} + (t + AncestorsFrom(1, l))
  {
    if Has(prev, l) {
      HasInPaths(prev, l);
    }
    NoDup(prev, l);
    PutPaths(prev, l, None);
    PutWellFormed(prev, l, None);
    PutNoData(prev, l);
    Gather(Paths(Put(prev, l, None).0), Paths(prev), {"/"}, t, AncestorsFrom(1, l), Dup(prev, l));
  }

  /** The leaf paths of a well-formed tree, each once, lie at or below no
      other one of them. */
  lemma LeavesApart<T>(root: PathNode<T>, s: seq<string>)
    requires WellFormed(root)
    requires forall q :: q in s ==> q in LeafPaths(root)
    requires forall i, j :: 0 <= i < j < |s| ==> s[i] != s[j]
    ensures Antichain(s)
  {
    forall i, j | 0 <= i < |s| && 0 <= j < |s| && i != j
      ensures !Below(s[i], s[j])
    {
      assert s[i] in s && s[j] in s;
      var m :| m in Subtree(root) && m.inner == map[] && m.fullPath == s[j];
      var x :| x in Subtree(root) && x.inner == map[] && x.fullPath == s[i];
      SubtreePaths(root, x);
      LeafAlone(root, m, s[i]);
    }
  }

  /**
   * The round trip of serialisation: writing a tree in which no node has the
   * empty segment and reading the stream back gives a tree with the same
   * paths, and no data.
   */
  lemma RoundTrip<T>(root: PathNode<T>, stream: seq<string>)
    requires root.fullPath == "/" && WellFormed(root) && NoEmptySegment(root)
    requires forall q :: q in stream ==> q in LeafPaths(root)
    requires forall q :: q in LeafPaths(root) ==> q in stream
    requires forall i, j :: 0 <= i < j < |stream| ==> stream[i] != stream[j]
    ensures WellFormed(Replay<T>(stream)) && NoData(Replay<T>(stream))
    ensures Paths(Replay<T>(stream)) == Paths(root)
  {
    CanonicalPaths(root);
    forall i | 0 <= i < |stream|
      ensures stream[i] == "/" || Canonical(stream[i])
    {
      assert stream[i] in stream;
      var m :| m in Subtree(root) && m.inner == map[] && m.fullPath == stream[i];
      SubtreePaths(root, m);
    }
    LeavesApart(root, stream);
    ReplayShape<T>(stream);
    TrailsInTree(root, stream);
    TreeOnTrails(root, stream);
  }

  /** The trails of the leaves are paths of the tree. */
  lemma TrailsInTree<T>(root: PathNode<T>, stream: seq<string>)
    requires root.fullPath == "/" && WellFormed(root)
    requires forall q :: q in Paths(root) ==> q == "/" || Canonical(q)
    requires forall q :: q in stream ==> q in LeafPaths(root)
    ensures Trails(stream) <= Paths(root)
  {
    forall a | a in Trails(stream)
      ensures a in Paths(root)
    {
      var i := TrailsOf(stream, a);
      var l := stream[i];
      assert l in stream;
      var m :| m in Subtree(root) && m.inner == map[] && m.fullPath == l;
      SubtreePaths(root, m);
      AncestorsAbove(1, l, a);
      BelowLength(l, a);
      AncestorsInTree(root, l);
    }
  }

  /** Every path of the tree other than the root is on the trail of a leaf. */
  lemma TreeOnTrails<T>(root: PathNode<T>, stream: seq<string>)
    requires root.fullPath == "/" && WellFormed(root)
    requires forall q :: q in Paths(root) ==> q == "/" || Canonical(q)
    requires forall q :: q in LeafPaths(root) ==> q in stream
    ensures Paths(root) <= {"/"} + Trails(stream)
  {
    forall q | q in Paths(root) && q != "/"
      ensures q in Trails(stream)
    {
      PathsHas(root, q);
      GetInSubtree(root, q);
      var m := Get(root, q).value;
      SubtreeWellFormed(root, m);
      var l := SomeLeaf(m);
      SubtreeTrans(root, m, l);
      SubtreePaths(m, l);
      PathsBelow(m, l.fullPath);
      BelowLength(l.fullPath, q);
      SubtreePaths(root, l);
      assert l.fullPath in LeafPaths(root);
      var i :| 0 <= i < |stream| && stream[i] == l.fullPath;
      AncestorOfBelow(l.fullPath, q);
      TrailsHas(stream, i, q);
    }
  }
}
