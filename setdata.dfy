/**
 * What `get(p).setData(d)` does to a tree: the node at `p` gets the new
 * datum, and the tree keeps its shape, its paths and every other datum.
 */
module SetDataFacts {
  import opened Wrappers
  import opened PathStrings
  import opened PathNodes

  /** Setting the datum found below the node's own path rebuilds the node
      around the child the path goes through. */
  lemma SetDataShape<T>(n: PathNode<T>, p: string, d: Option<T>)
    requires SetDataAt(n, p, d).1 && p != n.fullPath
    ensures StartsWith(p, n.fullPath) && NextSegment(n.fullPath, p).segment in n.inner
    ensures var k := NextSegment(n.fullPath, p).segment;
      && SetDataAt(n.inner[k], p, d).1
      && SetDataAt(n, p, d).0 == n.(inner := n.inner[k := SetDataAt(n.inner[k], p, d).0])
  {
  }

  /** A new datum on a node changes neither its shape nor what get finds below it. */
  lemma DataOnly<T>(n: PathNode<T>, d: Option<T>, q: string)
    ensures WellFormed(n.(data := d)) == WellFormed(n)
    ensures Paths(n.(data := d)) == Paths(n)
    ensures q != n.fullPath ==> Get(n.(data := d), q) == Get(n, q)
  {
  }

  /** Setting a datum keeps a tree well formed and keeps its paths. */
  lemma {:induction false} SetDataTree<T>(n: PathNode<T>, p: string, d: Option<T>)
    requires WellFormed(n)
    ensures WellFormed(SetDataAt(n, p, d).0)
    ensures Paths(SetDataAt(n, p, d).0) == Paths(n)
    decreases n
  {
    if SetDataAt(n, p, d).1 {
      if p == n.fullPath {
        DataOnly(n, d, p);
      } else {
        SetDataShape(n, p, d);
        var k := NextSegment(n.fullPath, p).segment;
        var ch := n.inner[k];
        var c := SetDataAt(ch, p, d).0;
        SetDataTree(ch, p, d);
        WellFormedReplace(n, k, c);
        PathsWith(n, k);
        PathsReplace(n, k, c);
      }
    }
  }

  /** A node that get finds is still found, with the new datum when it is the
      node at `p` and with its old datum otherwise. */
  lemma {:induction false} SetDataFound<T>(n: PathNode<T>, p: string, d: Option<T>, q: string)
    requires Get(n, q).Some?
    ensures Get(SetDataAt(n, p, d).0, q).Some?
    ensures Get(SetDataAt(n, p, d).0, q).value.data
         == if q == p then d else Get(n, q).value.data
    decreases n
  {
    var f := n.fullPath;
    if SetDataAt(n, p, d).1 {
      if p == f {
        DataOnly(n, d, q);
      } else if q != f {
        GetStep(n, q);
        SetDataShape(n, p, d);
        var k := NextSegment(f, p).segment;
        if NextSegment(f, q).segment != k {
          SetDataElsewhere(n, p, d, q);
        } else {
          SetDataFound(n.inner[k], p, d, q);
          SetDataWithin(n, p, d, q);
        }
      } else {
        SetDataShape(n, p, d);
      }
    }
  }

  /** Setting a datum in one branch does not touch a lookup through another. */
  lemma SetDataElsewhere<T>(n: PathNode<T>, p: string, d: Option<T>, q: string)
    requires SetDataAt(n, p, d).1 && p != n.fullPath
    requires q != n.fullPath && StartsWith(q, n.fullPath)
    requires NextSegment(n.fullPath, q).segment in n.inner
    requires NextSegment(n.fullPath, q).segment != NextSegment(n.fullPath, p).segment
    ensures Get(SetDataAt(n, p, d).0, q) == Get(n, q)
  {
    var r := SetDataAt(n, p, d).0;
    var kq := NextSegment(n.fullPath, q).segment;
    SetDataShape(n, p, d);
    assert kq in r.inner && r.inner[kq] == n.inner[kq];
    assert Get(r, q) == Get(r.inner[kq], q);
  }

  /** A lookup through the branch the datum was set in goes through the new child. */
  lemma SetDataWithin<T>(n: PathNode<T>, p: string, d: Option<T>, q: string)
    requires SetDataAt(n, p, d).1 && p != n.fullPath
    requires q != n.fullPath && StartsWith(q, n.fullPath)
    requires NextSegment(n.fullPath, q).segment == NextSegment(n.fullPath, p).segment
    ensures var k := NextSegment(n.fullPath, p).segment;
      && k in n.inner
      && Get(SetDataAt(n, p, d).0, q) == Get(SetDataAt(n.inner[k], p, d).0, q)
      && Get(n, q) == Get(n.inner[k], q)
  {
    var r := SetDataAt(n, p, d).0;
    var k := NextSegment(n.fullPath, p).segment;
    SetDataShape(n, p, d);
    assert k in r.inner && r.inner[k] == SetDataAt(n.inner[k], p, d).0;
    assert Get(r, q) == Get(r.inner[k], q);
  }

  /** In a well-formed tree setting a datum changes no answer of has, and the
      datum get returns changes at `p` only. */
  lemma SetDataGet<T>(n: PathNode<T>, p: string, d: Option<T>, q: string)
    requires WellFormed(n)
    ensures Has(SetDataAt(n, p, d).0, q) == Has(n, q)
    ensures Get(n, q).Some? ==>
      Get(SetDataAt(n, p, d).0, q).value.data == if q == p then d else Get(n, q).value.data
  {
    SetDataTree(n, p, d);
    HasPaths(n, q);
    HasPaths(SetDataAt(n, p, d).0, q);
    if Get(n, q).Some? {
      SetDataFound(n, p, d, q);
    }
  }
}
