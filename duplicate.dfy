/**
 * Putting a path twice. Java does not refuse a put of a path whose node is
 * already there: the node answers to the empty segment that follows its own
 * path and gains a child under that segment.
 */
module DuplicatePut {
  import opened Wrappers
  import opened SetAlgebra
  import opened PathStrings
  import opened PathNodes
  import opened PutFacts
  import opened TreeShape

  /** A second put of a path whose node has no empty-segment child yet gives
      it that child. */
  lemma {:induction false} PutSelfChild<T>(n: PathNode<T>, p: string, d: Option<T>)
    requires WellFormed(n) && Canonical(p) && OnTrail(n.fullPath, p)
    requires Get(n, p).Some? && "" !in Get(n, p).value.inner
    ensures Saturated(Put(n, p, d).0, p)
    decreases n
  {
    var f := n.fullPath;
    if f == p {
      SegmentAtSelf(p);
      assert Put(n, p, d).0 == n.(inner := n.inner["" := PathNode("", ChildPath(f, ""), map[], d)]);
    } else {
      GetStep(n, p);
      var k := NextSegment(f, p).segment;
      var c := TrailNext(f, p);
      PutExisting(n, p, d);
      PutSelfChild(n.inner[k], p, None);
      var r := Put(n, p, d).0;
      assert k in r.inner && r.inner[k] == Put(n.inner[k], p, None).0;
      assert Get(r, p) == Get(r.inner[k], p);
    }
  }

  /**
   * Putting a path whose node is already there is not refused: put answers
   * true, adds the empty-segment child (whose path is the path followed by a
   * separator) and stores no datum. A third put of the same path answers
   * false and changes no path.
   */
  lemma PutAgain<T>(n: PathNode<T>, p: string, d: Option<T>, e: Option<T>)
    requires WellFormed(n) && Canonical(p) && OnTrail(n.fullPath, p)
    requires Get(n, p).Some? && "" !in Get(n, p).value.inner
    ensures Put(n, p, d).1
    ensures Paths(Put(n, p, d).0) == Paths(n) + {p + "/"}
    ensures Get(Put(n, p, d).0, p).Some?
    ensures Get(Put(n, p, d).0, p).value.data == Get(n, p).value.data
    ensures !Put(Put(n, p, d).0, p, e).1
    ensures Paths(Put(Put(n, p, d).0, p, e).0) == Paths(Put(n, p, d).0)
  {
    SecondPut(n, p, d);
    ThirdPut(Put(n, p, d).0, p, e);
  }

  /** The second put: true, the empty-segment child, and the datum dropped. */
  lemma SecondPut<T>(n: PathNode<T>, p: string, d: Option<T>)
    requires WellFormed(n) && Canonical(p) && OnTrail(n.fullPath, p)
    requires Get(n, p).Some? && "" !in Get(n, p).value.inner
    ensures Put(n, p, d).1
    ensures Paths(Put(n, p, d).0) == Paths(n) + {p + "/"}
    ensures Get(Put(n, p, d).0, p).Some?
    ensures Get(Put(n, p, d).0, p).value.data == Get(n, p).value.data
    ensures WellFormed(Put(n, p, d).0) && Saturated(Put(n, p, d).0, p)
    ensures AncestorsFrom(|n.fullPath|, p) <= Paths(Put(n, p, d).0)
  {
    HasInPaths(n, p);
    AncestorsInTree(n, p);
    PutPaths(n, p, d);
    FreeDup(n, p);
    Absorb(Paths(Put(n, p, d).0), Paths(n), AncestorsFrom(|n.fullPath|, p), Dup(n, p));
    PutKeeps(n, p, d, p);
    PutWellFormed(n, p, d);
    PutSelfChild(n, p, d);
  }

  /** Once the empty-segment child is there, put answers false and adds nothing. */
  lemma ThirdPut<T>(r: PathNode<T>, p: string, e: Option<T>)
    requires WellFormed(r) && Canonical(p) && OnTrail(r.fullPath, p) && Saturated(r, p)
    requires AncestorsFrom(|r.fullPath|, p) <= Paths(r)
    ensures !Put(r, p, e).1
    ensures Paths(Put(r, p, e).0) == Paths(r)
  {
    PutPaths(r, p, e);
    SaturatedNoDup(r, p);
    AbsorbAll(Paths(Put(r, p, e).0), Paths(r), AncestorsFrom(|r.fullPath|, p), Dup(r, p));
  }

  lemma FreeDup<T>(n: PathNode<T>, p: string)
    requires Get(n, p).Some? && "" !in Get(n, p).value.inner
    ensures Dup(n, p) == {p + "/"}
  {
  }

  lemma SaturatedNoDup<T>(r: PathNode<T>, p: string)
    requires Saturated(r, p)
    ensures Dup(r, p) == {}
  {
  }
}
