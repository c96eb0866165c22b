/**
 * What `remove` does to a well-formed tree: it unlinks the node at the path
 * with everything below it and leaves every other node, and its datum, where
 * it was. A node never unlinks itself, so the root is never removed.
 */
module RemoveFacts {
  import opened Wrappers
  import opened PathStrings
  import opened PathNodes

  /** The paths of `s` that lie neither at nor below `p`. */
  ghost function Outside(s: set<string>, p: string): set<string> {
    set q | q in s && !Below(q, p)
  }

  /** Remove of a node's own path finds nothing: Java only ever unlinks a child. */
  lemma RemoveSelf<T>(n: PathNode<T>)
    requires WellFormed(n)
    ensures Remove(n, n.fullPath) == (n, false)
  {
    SegmentAtSelf(n.fullPath);
  }

  /** Nothing at or below a path inside the child at key `k` belongs to the
      node itself or to another child. */
  lemma SiblingsOutside<T>(n: PathNode<T>, k: string, p: string)
    requires WellFormed(n) && k in n.inner
    requires Below(p, n.inner[k].fullPath)
    ensures forall q :: q in {n.fullPath} + Others(n, k) ==> !Below(q, p)
  {
    var f := n.fullPath;
    ChildBelow(f, k);
    BelowLength(p, ChildPath(f, k));
    forall q | q in {f} + Others(n, k)
      ensures !Below(q, p)
    {
      if q == f {
        if Below(q, p) {
          BelowLength(q, p);
        }
      } else {
        var j :| j in n.inner && j != k && q in Paths(n.inner[j]);
        PathsBelow(n.inner[j], q);
        if Below(q, p) {
          BelowTrans(q, p, ChildPath(f, k));
          SameChild(f, j, k, q);
        }
      }
    }
  }

  /** Remove that finds the path at the next child unlinks that child. */
  lemma RemoveChild<T>(n: PathNode<T>, p: string)
    requires WellFormed(n) && StartsWith(p, n.fullPath) && p != n.fullPath
    requires NextSegment(n.fullPath, p).segment in n.inner
    requires n.inner[NextSegment(n.fullPath, p).segment].fullPath == p
    ensures WellFormed(Remove(n, p).0)
    ensures Paths(Remove(n, p).0) == Outside(Paths(n), p)
  {
    var k := NextSegment(n.fullPath, p).segment;
    var ch := n.inner[k];
    assert Remove(n, p).0 == n.(inner := n.inner - {k});
    WellFormedDrop(n, k);
    PathsDrop(n, k);
    PathsWith(n, k);
    SiblingsOutside(n, k, p);
    forall q | q in Paths(ch)
      ensures Below(q, p)
    {
      PathsBelow(ch, q);
    }
    OutsideDrop(Paths(n), {n.fullPath} + Others(n, k), Paths(ch), p);
  }

  /** Remove that hands the path on to the next child replaces that child by
      what remains of it. */
  lemma RemoveInChild<T>(n: PathNode<T>, p: string)
    requires WellFormed(n) && StartsWith(p, n.fullPath) && p != n.fullPath
    requires NextSegment(n.fullPath, p).segment in n.inner
    requires var ch := n.inner[NextSegment(n.fullPath, p).segment];
      && ch.fullPath != p && Remove(ch, p).1
      && WellFormed(Remove(ch, p).0) && Paths(Remove(ch, p).0) == Outside(Paths(ch), p)
    ensures WellFormed(Remove(n, p).0)
    ensures Paths(Remove(n, p).0) == Outside(Paths(n), p)
  {
    var k := NextSegment(n.fullPath, p).segment;
    var ch := n.inner[k];
    var c := Remove(ch, p).0;
    assert Remove(n, p).0 == n.(inner := n.inner[k := c]);
    HasInPaths(ch, p);
    PathsBelow(ch, p);
    SiblingsOutside(n, k, p);
    WellFormedReplace(n, k, c);
    PathsWith(n, k);
    PathsReplace(n, k, c);
    OutsideReplace(Paths(n), Paths(n.(inner := n.inner[k := c])), {n.fullPath} + Others(n, k),
      Paths(ch), Paths(c), p);
  }

  /**
   * A successful remove leaves a well-formed tree whose paths are those of
   * the old tree that lie neither at nor below the removed path.
   */
  lemma {:induction false} RemovePaths<T>(n: PathNode<T>, p: string)
    requires WellFormed(n)
    ensures WellFormed(Remove(n, p).0)
    ensures Remove(n, p).1 ==> Paths(Remove(n, p).0) == Outside(Paths(n), p)
    decreases n
  {
    if p == n.fullPath {
      RemoveSelf(n);
    } else if Remove(n, p).1 {
      var k := NextSegment(n.fullPath, p).segment;
      var ch := n.inner[k];
      if ch.fullPath == p {
        RemoveChild(n, p);
      } else {
        RemovePaths(ch, p);
        RemoveInChild(n, p);
      }
    }
  }

  /** After remove, has answers false at and below the removed path and as
      before everywhere else. */
  lemma RemoveHas<T>(n: PathNode<T>, p: string, q: string)
    requires WellFormed(n) && Remove(n, p).1
    ensures Has(Remove(n, p).0, q) <==> Has(n, q) && !Below(q, p)
  {
    RemovePaths(n, p);
    HasPaths(n, q);
    HasPaths(Remove(n, p).0, q);
  }

  /** Remove leaves every node outside the removed subtree in place, with its datum. */
  lemma {:induction false} RemoveKeepsData<T>(n: PathNode<T>, p: string, q: string)
    requires WellFormed(n) && Get(n, q).Some? && !Below(q, p)
    ensures Get(Remove(n, p).0, q).Some?
    ensures Get(Remove(n, p).0, q).value.data == Get(n, q).value.data
    decreases n
  {
    var f := n.fullPath;
    if p == f {
      RemoveSelf(n);
    } else if Remove(n, p).1 && q != f {
      var k := NextSegment(f, p).segment;
      GetStep(n, q);
      if NextSegment(f, q).segment != k {
        RemoveElsewhere(n, p, q);
      } else {
        var ch := n.inner[k];
        HasInPaths(ch, q);
        PathsBelow(ch, q);
        RemoveKeepsData(ch, p, q);
        RemoveWithin(n, p, q);
      }
    }
  }

  /** Remove does not touch the child that a lookup of another branch goes through. */
  lemma RemoveElsewhere<T>(n: PathNode<T>, p: string, q: string)
    requires p != n.fullPath && Remove(n, p).1
    requires q != n.fullPath && StartsWith(q, n.fullPath)
    requires NextSegment(n.fullPath, q).segment in n.inner
    requires NextSegment(n.fullPath, q).segment != NextSegment(n.fullPath, p).segment
    ensures Get(Remove(n, p).0, q) == Get(n, q)
  {
    var r := Remove(n, p).0;
    var kq := NextSegment(n.fullPath, q).segment;
    RemoveShape(n, p);
    assert kq in r.inner && r.inner[kq] == n.inner[kq];
    assert Get(r, q) == Get(r.inner[kq], q);
  }

  /** The two ways a successful remove changes a node. */
  lemma RemoveShape<T>(n: PathNode<T>, p: string)
    requires Remove(n, p).1
    ensures StartsWith(p, n.fullPath) && NextSegment(n.fullPath, p).segment in n.inner
    ensures var k := NextSegment(n.fullPath, p).segment;
      Remove(n, p).0
      == if n.inner[k].fullPath == p then n.(inner := n.inner - {k})
         else n.(inner := n.inner[k := Remove(n.inner[k], p).0])
  {
  }

  /** Remove that recurses into the next child replaces that child by what is left of it. */
  lemma RemoveDown<T>(n: PathNode<T>, p: string)
    requires StartsWith(p, n.fullPath) && NextSegment(n.fullPath, p).segment in n.inner
    requires n.inner[NextSegment(n.fullPath, p).segment].fullPath != p
    ensures var k := NextSegment(n.fullPath, p).segment;
      Remove(n, p).0 == n.(inner := n.inner[k := Remove(n.inner[k], p).0])
  {
  }

  /** A lookup that goes through the child remove recursed into goes through
      what remains of that child. */
  lemma RemoveWithin<T>(n: PathNode<T>, p: string, q: string)
    requires StartsWith(p, n.fullPath)
    requires q != n.fullPath && StartsWith(q, n.fullPath)
    requires NextSegment(n.fullPath, q).segment == NextSegment(n.fullPath, p).segment
    requires NextSegment(n.fullPath, p).segment in n.inner
    requires n.inner[NextSegment(n.fullPath, p).segment].fullPath != p
    ensures var ch := n.inner[NextSegment(n.fullPath, p).segment];
      Get(Remove(n, p).0, q) == Get(Remove(ch, p).0, q)
  {
    var k := NextSegment(n.fullPath, p).segment;
    var r := Remove(n, p).0;
    RemoveDown(n, p);
    assert k in r.inner && r.inner[k] == Remove(n.inner[k], p).0;
    assert Get(r, q) == Get(r.inner[k], q);
  }

  // The set algebra of the two cases, stated on plain sets.

  lemma OutsideDrop(s: set<string>, keep: set<string>, gone: set<string>, p: string)
    requires s == keep + gone
    requires forall q :: q in keep ==> !Below(q, p)
    requires forall q :: q in gone ==> Below(q, p)
    ensures keep == Outside(s, p)
  {
  }

  lemma OutsideReplace(s: set<string>, r: set<string>, keep: set<string>, c: set<string>,
                       c2: set<string>, p: string)
    requires s == keep + c && r == keep + c2 && c2 == Outside(c, p)
    requires forall q :: q in keep ==> !Below(q, p)
    ensures r == Outside(s, p)
  {
  }
}
