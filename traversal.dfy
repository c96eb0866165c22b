/**
 * The two traversals of a node, `prefix` and `postfix`, and the leaf filter
 * `leavesOnly` hands to postfix. Java calls a consumer on every node it
 * visits; here a traversal returns the nodes in the order it visits them.
 * Java walks the children in the iteration order of a HashMap, which it
 * does not specify; the loops below pick the next child key arbitrarily.
 */
module Traversals {
  import opened Wrappers
  import opened PathStrings
  import opened PathNodes

  /** A node of `s` never lies at or below a node that comes after it: every
      node comes before the nodes below it, and no path is visited twice. */
  ghost predicate ParentsFirst<T>(s: seq<PathNode<T>>) {
    forall i, j :: 0 <= i < j < |s| ==> !Below(s[i].fullPath, s[j].fullPath)
  }

  /** A node of `s` never lies at or below a node that comes before it: every
      node comes after the nodes below it, and no path is visited twice. */
  ghost predicate ChildrenFirst<T>(s: seq<PathNode<T>>) {
    forall i, j :: 0 <= i < j < |s| ==> !Below(s[j].fullPath, s[i].fullPath)
  }

  /** The nodes below the children of `n` at the keys `done`. */
  ghost function Within<T>(n: PathNode<T>, done: set<string>): set<PathNode<T>> {
    set k, m | k in done && k in n.inner && m in Subtree(n.inner[k]) :: m
  }

  /** `prefix(action)`: the node, then the prefix traversal of each child. */
  method Prefix<T>(n: PathNode<T>) returns (visit: seq<PathNode<T>>)
    ensures |visit| > 0 && visit[0] == n
    ensures forall m :: m in visit ==> m in Subtree(n)
    ensures forall m :: m in Subtree(n) ==> m in visit
    ensures WellFormed(n) ==> ParentsFirst(visit)
    decreases n
  {
    visit := [n];
    var pending := n.inner.Keys;
    ghost var done: set<string> := {};
    while pending != {}
      invariant pending <= n.inner.Keys && done == n.inner.Keys - pending
      invariant |visit| > 0 && visit[0] == n
      invariant forall m :: m in visit ==> m == n || m in Within(n, done)
      invariant n in visit && forall m :: m in Within(n, done) ==> m in visit
      invariant WellFormed(n) ==> ParentsFirst(visit)
      decreases pending
    {
      var k :| k in pending;
      var sub := Prefix(n.inner[k]);
      if WellFormed(n) {
        NodeApart(n, done, k, visit, sub);
        JoinParentsFirst(visit, sub);
      }
      WithinAdd(n, done, k);
      visit := visit + sub;
      pending := pending - {k};
      done := done + {k};
    }
    SubtreeSplit(n);
  }

  /** `postfix(action)`: the postfix traversal of each child, then the node. */
  method Postfix<T>(n: PathNode<T>) returns (visit: seq<PathNode<T>>)
    ensures |visit| > 0 && visit[|visit| - 1] == n
    ensures forall m :: m in visit ==> m in Subtree(n)
    ensures forall m :: m in Subtree(n) ==> m in visit
    ensures WellFormed(n) ==> ChildrenFirst(visit)
    decreases n
  {
    visit := [];
    var pending := n.inner.Keys;
    ghost var done: set<string> := {};
    while pending != {}
      invariant pending <= n.inner.Keys && done == n.inner.Keys - pending
      invariant forall m :: m in visit ==> m in Within(n, done)
      invariant forall m :: m in Within(n, done) ==> m in visit
      invariant WellFormed(n) ==> ChildrenFirst(visit)
      decreases pending
    {
      var k :| k in pending;
      var sub := Postfix(n.inner[k]);
      if WellFormed(n) {
        ChildrenApart(n, done, k, visit, sub);
        JoinChildrenFirst(visit, sub);
      }
      WithinAdd(n, done, k);
      visit := visit + sub;
      pending := pending - {k};
      done := done + {k};
    }
    if WellFormed(n) {
      OwnPathLast(n, visit);
    }
    visit := visit + [n];
    SubtreeSplit(n);
  }

  /** The childless nodes of a visit, by full path, in visit order: the
      consumer `leavesOnly` hands to postfix. */
  function LeafFilter<T>(s: seq<PathNode<T>>): (r: seq<string>)
    ensures |r| <= |s|
    ensures forall q :: q in r <==> exists m :: m in s && m.inner == map[] && m.fullPath == q
  {
    if s == [] then []
    else
      var rest := LeafFilter(s[1..]);
      assert forall m :: m in s[1..] ==> m in s;
      if s[0].inner == map[] then [s[0].fullPath] + rest else rest
  }

  /** Filtering a visit without repeated paths repeats no path. */
  lemma {:induction false} LeafFilterDistinct<T>(s: seq<PathNode<T>>)
    requires forall i, j :: 0 <= i < j < |s| ==> s[i].fullPath != s[j].fullPath
    ensures forall i, j :: 0 <= i < j < |LeafFilter(s)| ==> LeafFilter(s)[i] != LeafFilter(s)[j]
  {
    if s != [] {
      LeafFilterDistinct(s[1..]);
      var rest := LeafFilter(s[1..]);
      if s[0].inner == map[] {
        forall j | 0 <= j < |rest|
          ensures rest[j] != s[0].fullPath
        {
          assert rest[j] in rest;
          var m :| m in s[1..] && m.inner == map[] && m.fullPath == rest[j];
          var i :| 0 <= i < |s[1..]| && s[1..][i] == m;
          assert s[i + 1] == m;
        }
      }
    }
  }

  // ---------------------------------------------------------------------------
  // Lemmas
  // ---------------------------------------------------------------------------

  /** The nodes of a tree are its root and the nodes below its children. */
  lemma SubtreeSplit<T>(n: PathNode<T>)
    ensures forall m :: m in Subtree(n) <==> m == n || m in Within(n, n.inner.Keys)
  {
  }

  /** Adding the key `k` adds the nodes below its child. */
  lemma WithinAdd<T>(n: PathNode<T>, done: set<string>, k: string)
    requires k in n.inner
    ensures Within(n, done + {k}) == Within(n, done) + Subtree(n.inner[k])
  {
  }

  /** Every node below the child at key `k` lies below that child's path. */
  lemma BelowChild<T>(n: PathNode<T>, k: string, m: PathNode<T>)
    requires WellFormed(n) && k in n.inner && m in Subtree(n.inner[k])
    ensures Below(m.fullPath, ChildPath(n.fullPath, k))
    ensures |m.fullPath| > |n.fullPath|
  {
    SubtreePaths(n.inner[k], m);
    PathsBelow(n.inner[k], m.fullPath);
    ChildBelow(n.fullPath, k);
    BelowLength(m.fullPath, ChildPath(n.fullPath, k));
  }

  /** Nodes below two different children lie neither at nor below each other. */
  lemma SiblingsApart<T>(n: PathNode<T>, k1: string, k2: string, x: PathNode<T>, y: PathNode<T>)
    requires WellFormed(n) && k1 in n.inner && k2 in n.inner && k1 != k2
    requires x in Subtree(n.inner[k1]) && y in Subtree(n.inner[k2])
    ensures !Below(x.fullPath, y.fullPath)
  {
    BelowChild(n, k1, x);
    BelowChild(n, k2, y);
    if Below(x.fullPath, y.fullPath) {
      BelowTrans(x.fullPath, y.fullPath, ChildPath(n.fullPath, k2));
      SameChild(n.fullPath, k1, k2, x.fullPath);
    }
  }

  /** What prefix has visited so far lies at or below nothing in the next child's visit. */
  lemma NodeApart<T>(n: PathNode<T>, done: set<string>, k: string,
                     visit: seq<PathNode<T>>, sub: seq<PathNode<T>>)
    requires WellFormed(n) && k in n.inner && k !in done
    requires forall m :: m in visit ==> m == n || m in Within(n, done)
    requires forall m :: m in sub ==> m in Subtree(n.inner[k])
    ensures forall x, y :: x in visit && y in sub ==> !Below(x.fullPath, y.fullPath)
  {
    forall x, y | x in visit && y in sub
      ensures !Below(x.fullPath, y.fullPath)
    {
      BelowChild(n, k, y);
      if x != n {
        var j :| j in done && j in n.inner && x in Subtree(n.inner[j]);
        SiblingsApart(n, j, k, x, y);
      } else if Below(x.fullPath, y.fullPath) {
        BelowLength(x.fullPath, y.fullPath);
      }
    }
  }

  /** Nothing in the next child's visit lies at or below what postfix has visited so far. */
  lemma ChildrenApart<T>(n: PathNode<T>, done: set<string>, k: string,
                         visit: seq<PathNode<T>>, sub: seq<PathNode<T>>)
    requires WellFormed(n) && k in n.inner && k !in done
    requires forall m :: m in visit ==> m in Within(n, done)
    requires forall m :: m in sub ==> m in Subtree(n.inner[k])
    ensures forall x, y :: x in visit && y in sub ==> !Below(y.fullPath, x.fullPath)
  {
    forall x, y | x in visit && y in sub
      ensures !Below(y.fullPath, x.fullPath)
    {
      var j :| j in done && j in n.inner && x in Subtree(n.inner[j]);
      SiblingsApart(n, k, j, y, x);
    }
  }

  /** A node lies at or below none of the nodes below its children, so it can
      follow them. */
  lemma OwnPathLast<T>(n: PathNode<T>, visit: seq<PathNode<T>>)
    requires WellFormed(n) && ChildrenFirst(visit)
    requires forall m :: m in visit ==> m in Within(n, n.inner.Keys)
    ensures ChildrenFirst(visit + [n])
  {
    forall x | x in visit
      ensures !Below(n.fullPath, x.fullPath)
    {
      var j :| j in n.inner && x in Subtree(n.inner[j]);
      BelowChild(n, j, x);
      if Below(n.fullPath, x.fullPath) {
        BelowLength(n.fullPath, x.fullPath);
      }
    }
    JoinChildrenFirst(visit, [n]);
  }

  lemma JoinParentsFirst<T>(a: seq<PathNode<T>>, b: seq<PathNode<T>>)
    requires ParentsFirst(a) && ParentsFirst(b)
    requires forall x, y :: x in a && y in b ==> !Below(x.fullPath, y.fullPath)
    ensures ParentsFirst(a + b)
  {
    var s := a + b;
    forall i, j | 0 <= i < j < |s|
      ensures !Below(s[i].fullPath, s[j].fullPath)
    {
      if j >= |a| && i < |a| {
        assert s[i] in a && s[j] in b;
      } else if i >= |a| {
        assert s[i] == b[i - |a|] && s[j] == b[j - |a|];
      }
    }
  }

  lemma JoinChildrenFirst<T>(a: seq<PathNode<T>>, b: seq<PathNode<T>>)
    requires ChildrenFirst(a) && ChildrenFirst(b)
    requires forall x, y :: x in a && y in b ==> !Below(y.fullPath, x.fullPath)
    ensures ChildrenFirst(a + b)
  {
    var s := a + b;
    forall i, j | 0 <= i < j < |s|
      ensures !Below(s[j].fullPath, s[i].fullPath)
    {
      if j >= |a| && i < |a| {
        assert s[i] in a && s[j] in b;
      } else if i >= |a| {
        assert s[i] == b[i - |a|] && s[j] == b[j - |a|];
      }
    }
  }
}
