/**
 * Facts about the shape of a well-formed tree: which nodes lie below which,
 * and which paths a node's subtree holds.
 */
module TreeShape {
  import opened PathStrings
  import opened PathNodes
  import opened Traversals

  /** No node of the tree has the empty segment, the child a put of an
      existing path leaves behind. */
  ghost predicate NoEmptySegment<T>(n: PathNode<T>)
    decreases n
  {
    forall k :: k in n.inner ==> k != [] && NoEmptySegment(n.inner[k])
  }

  lemma {:induction false} SubtreeWellFormed<T>(n: PathNode<T>, m: PathNode<T>)
    requires WellFormed(n) && m in Subtree(n)
    ensures WellFormed(m)
    decreases n
  {
    if m != n {
      var k :| k in n.inner && m in Subtree(n.inner[k]);
      SubtreeWellFormed(n.inner[k], m);
    }
  }

  lemma {:induction false} SubtreeTrans<T>(n: PathNode<T>, m: PathNode<T>, x: PathNode<T>)
    requires m in Subtree(n) && x in Subtree(m)
    ensures x in Subtree(n)
    decreases n
  {
    if m != n {
      var k :| k in n.inner && m in Subtree(n.inner[k]);
      SubtreeTrans(n.inner[k], m, x);
    }
  }

  /** Every node has a childless node below it. */
  lemma {:induction false} SomeLeaf<T>(m: PathNode<T>) returns (l: PathNode<T>)
    ensures l in Subtree(m) && l.inner == map[]
    decreases m
  {
    if m.inner == map[] {
      l := m;
    } else {
      var k :| k in m.inner;
      l := SomeLeaf(m.inner[k]);
    }
  }

  /** A path of the tree that lies at or below the path of one of its nodes
      is a path of that node's subtree. */
  lemma {:induction false} BelowInSubtree<T>(n: PathNode<T>, m: PathNode<T>, q: string)
    requires WellFormed(n) && m in Subtree(n) && q in Paths(n) && Below(q, m.fullPath)
    ensures q in Paths(m)
    decreases n
  {
    if m != n {
      var f := n.fullPath;
      var k :| k in n.inner && m in Subtree(n.inner[k]);
      BelowChild(n, k, m);
      BelowLength(q, m.fullPath);
      var j :| j in n.inner && q in Paths(n.inner[j]);
      PathsBelow(n.inner[j], q);
      BelowTrans(q, m.fullPath, ChildPath(f, k));
      SameChild(f, j, k, q);
      BelowInSubtree(n.inner[k], m, q);
    }
  }

  /** Nothing else in the tree lies at or below a childless node. */
  lemma LeafAlone<T>(n: PathNode<T>, m: PathNode<T>, q: string)
    requires WellFormed(n) && m in Subtree(n) && m.inner == map[] && q in Paths(n)
    ensures Below(q, m.fullPath) ==> q == m.fullPath
  {
    if Below(q, m.fullPath) {
      BelowInSubtree(n, m, q);
      PathsLeaf(m);
    }
  }

  /** The paths of a tree whose root is "/" or a path without empty segments,
      and none of whose nodes has the empty segment, are all such paths. */
  lemma {:induction false} CanonicalPaths<T>(n: PathNode<T>)
    requires WellFormed(n) && NoEmptySegment(n)
    requires n.fullPath == "/" || Canonical(n.fullPath)
    ensures forall q :: q in Paths(n) ==> q == "/" || Canonical(q)
    decreases n
  {
    forall q | q in Paths(n)
      ensures q == "/" || Canonical(q)
    {
      if q != n.fullPath {
        var k :| k in n.inner && q in Paths(n.inner[k]);
        CanonicalChild(n.fullPath, k);
        CanonicalPaths(n.inner[k]);
      }
    }
  }

  /** Every prefix on the trail of a path of the tree, from the node `n` on,
      is a path of the tree. */
  lemma {:induction false} AncestorsInTree<T>(n: PathNode<T>, l: string)
    requires WellFormed(n) && Canonical(l) && OnTrail(n.fullPath, l) && l in Paths(n)
    ensures AncestorsFrom(|n.fullPath|, l) <= Paths(n)
    decreases n
  {
    var f := n.fullPath;
    if l == f {
      assert AncestorsFrom(|l|, l) == {};
    } else {
      var k :| k in n.inner && l in Paths(n.inner[k]);
      LookupInChild(n, k, l);
      var c := TrailStep(f, l);
      AncestorsInTree(n.inner[k], l);
      PathsWith(n, k);
    }
  }
}
