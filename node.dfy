/**
 * The nodes of a PathTree. A node knows its segment, its full path, its
 * children keyed by segment, and an optional datum. Java mutates nodes in
 * place; here every node operation takes a node value and returns the node
 * value it leaves behind, together with the boolean Java returns.
 */
module PathNodes {
  import opened Wrappers
  import opened PathStrings

  datatype PathNode<T> = PathNode(
    segment: string,
    fullPath: string,
    inner: map<string, PathNode<T>>,
    data: Option<T>)

  /** The node `new PathNode(segment, full_path)`: no children, no data. */
  function Fresh<T>(segment: string, fullPath: string): (n: PathNode<T>)
    ensures n.segment == segment && n.fullPath == fullPath
    ensures n.inner == map[] && n.data == None
  {
    PathNode(segment, fullPath, map[], None)
  }

  // ---------------------------------------------------------------------------
  // Operations
  // ---------------------------------------------------------------------------

  /**
   * `put(full_path, data)` on node `n`. When the next segment names an
   * existing child, the path is handed on to that child without the datum
   * (Java calls the one-argument put there). Otherwise a fresh child is
   * created; it receives the datum when its segment is the last one, and is
   * otherwise asked, again without the datum, to put the rest of the path.
   */
  function Put<T>(n: PathNode<T>, p: string, d: Option<T>): (r: (PathNode<T>, bool))
    ensures r.0.segment == n.segment && r.0.fullPath == n.fullPath && r.0.data == n.data
    ensures n.inner.Keys <= r.0.inner.Keys
    ensures !StartsWith(p, n.fullPath) ==> r == (n, false)
    decreases n
  {
    if !StartsWith(p, n.fullPath) then (n, false)
    else
      var t := NextSegment(n.fullPath, p);
      if t.segment in n.inner then
        var (c, ok) := Put(n.inner[t.segment], p, None);
        (n.(inner := n.inner[t.segment := c]), ok)
      else
        var next := ChildPath(n.fullPath, t.segment);
        if t.last then
          (n.(inner := n.inner[t.segment := PathNode(t.segment, next, map[], d)]), true)
        else
          var (c, ok) := Grow(t.segment, next, p);
          (n.(inner := n.inner[t.segment := c]), ok)
  }

  /**
   * What `put(full_path)` does on a node Java has just created with
   * `new PathNode(segment, path)`: every segment it meets is new, so every
   * step creates a child, and none of them receives a datum.
   */
  function Grow<T>(segment: string, path: string, p: string): (r: (PathNode<T>, bool))
    ensures r.0.segment == segment && r.0.fullPath == path && r.0.data == None
    ensures !StartsWith(p, path) ==> r == (Fresh(segment, path), false)
    decreases |p| - |path|
  {
    if !StartsWith(p, path) then (Fresh(segment, path), false)
    else
      var t := NextSegment(path, p);
      var next := ChildPath(path, t.segment);
      if t.last then
        (PathNode(segment, path, map[t.segment := Fresh(t.segment, next)], None), true)
      else
        NotLastNonEmpty(path, p);
        var (c, ok) := Grow(t.segment, next, p);
        (PathNode(segment, path, map[t.segment := c], None), ok)
  }

  /** `has(full_path)` on node `n`. */
  function Has<T>(n: PathNode<T>, p: string): (b: bool)
    ensures b ==> StartsWith(p, n.fullPath)
    decreases n
  {
    if p == n.fullPath then true
    else if StartsWith(p, n.fullPath) then
      var t := NextSegment(n.fullPath, p);
      t.segment in n.inner && Has(n.inner[t.segment], p)
    else false
  }

  /** `get(full_path)` on node `n`: the node reached, or None for Java's null. */
  function Get<T>(n: PathNode<T>, p: string): (r: Option<PathNode<T>>)
    ensures r.Some? <==> Has(n, p)
    ensures r.Some? ==> r.value.fullPath == p
    decreases n
  {
    if p == n.fullPath then Some(n)
    else if StartsWith(p, n.fullPath) then
      var t := NextSegment(n.fullPath, p);
      if t.segment in n.inner then Get(n.inner[t.segment], p) else None
    else None
  }

  /**
   * `remove(full_path)` on node `n`: walk as get does, and unlink the child
   * whose full path is the one asked for, with everything below it. A node
   * never unlinks itself.
   */
  function Remove<T>(n: PathNode<T>, p: string): (r: (PathNode<T>, bool))
    ensures r.0.segment == n.segment && r.0.fullPath == n.fullPath && r.0.data == n.data
    ensures !r.1 ==> r.0 == n
    ensures p != n.fullPath ==> (r.1 <==> Has(n, p))
    ensures n.inner == map[] ==> !r.1
    decreases n
  {
    if StartsWith(p, n.fullPath) then
      var t := NextSegment(n.fullPath, p);
      if t.segment in n.inner then
        if n.inner[t.segment].fullPath == p then
          (n.(inner := n.inner - {t.segment}), true)
        else
          var (c, ok) := Remove(n.inner[t.segment], p);
          (n.(inner := n.inner[t.segment := c]), ok)
      else (n, false)
    else (n, false)
  }

  /**
   * `get(full_path)` followed by `setData(data)` on the node it returns: the
   * node at `p`, reached as get reaches it, gets the new datum.
   */
  function SetDataAt<T>(n: PathNode<T>, p: string, d: Option<T>): (r: (PathNode<T>, bool))
    ensures r.0.segment == n.segment && r.0.fullPath == n.fullPath
    ensures r.1 <==> Has(n, p)
    ensures !r.1 ==> r.0 == n
    ensures n.inner == map[] ==> r.0.inner == map[]
    decreases n
  {
    if p == n.fullPath then (n.(data := d), true)
    else if StartsWith(p, n.fullPath) then
      var t := NextSegment(n.fullPath, p);
      if t.segment in n.inner then
        var (c, ok) := SetDataAt(n.inner[t.segment], p, d);
        if ok then (n.(inner := n.inner[t.segment := c]), true) else (n, false)
      else (n, false)
    else (n, false)
  }

  // ---------------------------------------------------------------------------
  // Specification
  // ---------------------------------------------------------------------------

  /** Every node of the tree rooted at `n`, `n` included. */
  ghost function Subtree<T>(n: PathNode<T>): set<PathNode<T>>
    decreases n
  {
    {n} + set k, m | k in n.inner && m in Subtree(n.inner[k]) :: m
  }

  /** The full paths of the nodes of the tree rooted at `n`. */
  ghost function Paths<T>(n: PathNode<T>): set<string>
    decreases n
  {
    {n.fullPath} + set k, q | k in n.inner && q in Paths(n.inner[k]) :: q
  }

  /** The full paths of the childless nodes of the tree rooted at `n`. */
  ghost function LeafPaths<T>(n: PathNode<T>): set<string> {
    set m | m in Subtree(n) && m.inner == map[] :: m.fullPath
  }

  /** How Java links a child under key `k` of a node whose full path is `f`. */
  ghost predicate ChildOk<T>(f: string, k: string, c: PathNode<T>) {
    && c.segment == k
    && c.fullPath == ChildPath(f, k)
    && NoSlash(k)
    && (k == [] ==> f != "/" && c.inner == map[])
  }

  /**
   * The shape put gives every tree built from paths without a trailing
   * separator: children sit under their segment with the full path Java
   * builds for them, a node with children has a path that can own them, and
   * the empty segment (left by putting a path twice) only ever names a
   * childless child of a node other than the root.
   */
  ghost predicate WellFormed<T>(n: PathNode<T>)
    decreases n
  {
    && (n.inner != map[] ==> DirPath(n.fullPath))
    && forall k :: k in n.inner ==> ChildOk(n.fullPath, k, n.inner[k]) && WellFormed(n.inner[k])
  }

  /** The paths found under the children of `n` other than the one at key `k`. */
  ghost function Others<T>(n: PathNode<T>, k: string): set<string> {
    set j, q | j in n.inner && j != k && q in Paths(n.inner[j]) :: q
  }

  // ---------------------------------------------------------------------------
  // Lemmas about the shape of a tree
  // ---------------------------------------------------------------------------

  /** The paths of a node, seen from one of its keys. */
  lemma PathsSplit<T>(n: PathNode<T>, k: string)
    ensures Paths(n)
         == {n.fullPath} + Others(n, k) + (if k in n.inner then Paths(n.inner[k]) else {})
  {
  }

  /** The paths of a node, seen from a key it has no child under. */
  lemma PathsWithout<T>(n: PathNode<T>, k: string)
    requires k !in n.inner
    ensures Paths(n) == {n.fullPath} + Others(n, k)
  {
    PathsSplit(n, k);
  }

  /** The paths of a node, seen from the key of one of its children. */
  lemma PathsWith<T>(n: PathNode<T>, k: string)
    requires k in n.inner
    ensures Paths(n) == {n.fullPath} + Others(n, k) + Paths(n.inner[k])
  {
    PathsSplit(n, k);
  }

  /** A childless node has its own path only. */
  lemma PathsLeaf<T>(n: PathNode<T>)
    requires n.inner == map[]
    ensures Paths(n) == {n.fullPath}
  {
  }

  /** A childless node has no other children either. */
  lemma OthersLeaf<T>(n: PathNode<T>, k: string)
    requires n.inner == map[]
    ensures Others(n, k) == {}
  {
  }

  /** The paths of a node after the child at key `k` is replaced by `c`. */
  lemma PathsReplace<T>(n: PathNode<T>, k: string, c: PathNode<T>)
    ensures Paths(n.(inner := n.inner[k := c])) == {n.fullPath} + Others(n, k) + Paths(c)
  {
    var m := n.(inner := n.inner[k := c]);
    PathsSplit(m, k);
    OthersUnchanged(n, m, k);
  }

  /** The paths of a node after the child at key `k` is unlinked. */
  lemma PathsDrop<T>(n: PathNode<T>, k: string)
    ensures Paths(n.(inner := n.inner - {k})) == {n.fullPath} + Others(n, k)
  {
    var m := n.(inner := n.inner - {k});
    PathsSplit(m, k);
    OthersUnchanged(n, m, k);
  }

  /** Changing only the child at key `k` leaves the paths of the other children. */
  lemma OthersUnchanged<T>(n: PathNode<T>, m: PathNode<T>, k: string)
    requires forall j :: j != k ==> (j in m.inner <==> j in n.inner)
    requires forall j :: j != k && j in n.inner ==> m.inner[j] == n.inner[j]
    ensures Others(m, k) == Others(n, k)
  {
    forall q | q in Others(m, k)
      ensures q in Others(n, k)
    {
      var j :| j in m.inner && j != k && q in Paths(m.inner[j]);
    }
    forall q | q in Others(n, k)
      ensures q in Others(m, k)
    {
      var j :| j in n.inner && j != k && q in Paths(n.inner[j]);
    }
  }

  /** Linking a well-formed child as Java links it keeps a tree well formed. */
  lemma WellFormedReplace<T>(n: PathNode<T>, k: string, c: PathNode<T>)
    requires WellFormed(n) && DirPath(n.fullPath)
    requires ChildOk(n.fullPath, k, c) && WellFormed(c)
    ensures WellFormed(n.(inner := n.inner[k := c]))
  {
  }

  /** Unlinking a child keeps a tree well formed. */
  lemma WellFormedDrop<T>(n: PathNode<T>, k: string)
    requires WellFormed(n)
    ensures WellFormed(n.(inner := n.inner - {k}))
  {
  }

  /** Every path of a well-formed tree lies at or below the path of its root. */
  lemma {:induction false} PathsBelow<T>(n: PathNode<T>, q: string)
    requires WellFormed(n) && q in Paths(n)
    ensures Below(q, n.fullPath)
  {
    if q != n.fullPath {
      var k :| k in n.inner && q in Paths(n.inner[k]);
      PathsBelow(n.inner[k], q);
      ChildBelow(n.fullPath, k);
      BelowTrans(q, ChildPath(n.fullPath, k), n.fullPath);
    }
  }

  /** The path of every node of the tree is one of its paths. */
  lemma {:induction false} SubtreePaths<T>(n: PathNode<T>, m: PathNode<T>)
    requires m in Subtree(n)
    ensures m.fullPath in Paths(n)
  {
    if m != n {
      var k :| k in n.inner && m in Subtree(n.inner[k]);
      SubtreePaths(n.inner[k], m);
    }
  }

  /** What has finds is one of the paths of the tree. */
  lemma {:induction false} HasInPaths<T>(n: PathNode<T>, q: string)
    requires Has(n, q)
    ensures q in Paths(n)
  {
    if q != n.fullPath {
      HasInPaths(n.inner[NextSegment(n.fullPath, q).segment], q);
    }
  }

  /** In a well-formed tree has finds every one of its paths. */
  lemma {:induction false} PathsHas<T>(n: PathNode<T>, q: string)
    requires WellFormed(n) && q in Paths(n)
    ensures Has(n, q)
  {
    if q != n.fullPath {
      var k :| k in n.inner && q in Paths(n.inner[k]);
      var c := n.inner[k];
      PathsBelow(c, q);
      TokenOfChild(n.fullPath, k, q);
      PathsHas(c, q);
    }
  }

  /** In a well-formed tree, has(q) answers exactly whether q is a path of the tree. */
  lemma HasPaths<T>(n: PathNode<T>, q: string)
    requires WellFormed(n)
    ensures Has(n, q) <==> q in Paths(n)
  {
    if Has(n, q) {
      HasInPaths(n, q);
    }
    if q in Paths(n) {
      PathsHas(n, q);
    }
  }

  /** Below its own path, get goes on in the child named by the next segment. */
  lemma GetStep<T>(n: PathNode<T>, q: string)
    requires Get(n, q).Some? && q != n.fullPath
    ensures StartsWith(q, n.fullPath) && NextSegment(n.fullPath, q).segment in n.inner
    ensures Get(n, q) == Get(n.inner[NextSegment(n.fullPath, q).segment], q)
  {
  }

  /** What get finds is a node of the tree. */
  lemma {:induction false} GetInSubtree<T>(n: PathNode<T>, q: string)
    requires Get(n, q).Some?
    ensures Get(n, q).value in Subtree(n)
    decreases n
  {
    if q != n.fullPath {
      GetStep(n, q);
      GetInSubtree(n.inner[NextSegment(n.fullPath, q).segment], q);
    }
  }

  /** A path below the child at key `k` is looked up in that child. */
  lemma LookupInChild<T>(n: PathNode<T>, k: string, q: string)
    requires WellFormed(n) && k in n.inner
    requires q in Paths(n.inner[k])
    ensures q != n.fullPath && StartsWith(q, n.fullPath)
    ensures NextSegment(n.fullPath, q).segment == k
    ensures Has(n, q) == Has(n.inner[k], q) && Get(n, q) == Get(n.inner[k], q)
  {
    PathsBelow(n.inner[k], q);
    ChildBelow(n.fullPath, k);
    BelowLength(q, ChildPath(n.fullPath, k));
    TokenOfChild(n.fullPath, k, q);
  }
}
