/**
 * `PathTree`: the object a client holds. It owns the root node (segment "/",
 * full path "/"), strips trailing separators off every path before handing it
 * to the root, answers paths made only of separators itself (they name the
 * root), and serialises itself as the list of its leaf paths, which it reads
 * back by putting each of them into a cleared tree.
 */
module PathTrees {
  import opened Wrappers
  import opened PathStrings
  import opened PathNodes
  import opened Traversals
  import opened PutFacts
  import opened RemoveFacts
  import opened SetDataFacts

  /** The root the constructor and `clear` install. */
  function FreshRoot<T>(): (r: PathNode<T>)
    ensures r.segment == "/" && r.fullPath == "/" && r.inner == map[] && r.data == None
    ensures WellFormed(r) && Paths(r) == {"/"} && LeafPaths(r) == {"/"}
  {
    var r := Fresh("/", "/");
    assert r in Subtree(r);
    r
  }

  /** The tree-level put on a root value: strip the trailing separators, then
      put at the root; a path of separators only is refused. */
  function TreePut<T>(root: PathNode<T>, path: string, d: Option<T>): (PathNode<T>, bool) {
    match Normalize(path)
    case None => (root, false)
    case Some(q) => PathNodes.Put(root, q, d)
  }

  /** The root `readObject` leaves behind after reading `stream`: a fresh
      root into which every path was put, in order, without data. */
  function Replay<T>(stream: seq<string>): PathNode<T>
    decreases |stream|
  {
    if stream == [] then FreshRoot()
    else TreePut(Replay(stream[..|stream| - 1]), stream[|stream| - 1], None).0
  }

  /** What a serialised tree holds: the number of leaf paths that follow, then
      the paths. */
  datatype Image = Image(count: int, paths: seq<string>)

  class PathTree<T> {
    var root: PathNode<T>

    /** The root is the node at "/" and the tree has the shape put gives. */
    ghost predicate Valid()
      reads this
    {
      root.segment == "/" && root.fullPath == "/" && WellFormed(root)
    }

    constructor()
      ensures Valid() && root == FreshRoot()
    {
      root := FreshRoot();
    }

    /**
     * `put(full_path, data)`: a path of separators only is refused; any other
     * path loses its trailing separators and is put at the root. For a path
     * without empty segments the tree gains exactly the missing nodes of its
     * trail (and, when the node was already there, the empty-segment child).
     */
    method Put(path: string, d: Option<T>) returns (ok: bool)
      requires Valid()
      modifies this
      ensures Valid()
      ensures (root, ok) == TreePut(old(root), path, d)
      ensures Normalize(path).None? ==> !ok && root == old(root)
      ensures Normalize(path).Some? && Canonical(Normalize(path).value) ==>
        && Paths(root) == Paths(old(root)) + AncestorsFrom(1, Normalize(path).value)
                          + Dup(old(root), Normalize(path).value)
        && (ok <==> !Saturated(old(root), Normalize(path).value))
    {
      var q := StripTrailingSlashes(path);
      if q.None? {
        return false;
      }
      PutWellFormed(root, q.value, d);
      if Canonical(q.value) {
        PutPaths(root, q.value, d);
      }
      var r := PathNodes.Put(root, q.value, d);
      root, ok := r.0, r.1;
    }

    /** `has(full_path)`: true for a path of separators only, and otherwise
        exactly when the stripped path is the path of a node. */
    method Has(path: string) returns (b: bool)
      requires Valid()
      ensures b <==> (path != [] && AllSlashes(path))
                     || (Normalize(path).Some? && Normalize(path).value in Paths(root))
    {
      var q := StripTrailingSlashes(path);
      if q.None? {
        return true;
      }
      HasPaths(root, q.value);
      b := PathNodes.Has(root, q.value);
    }

    /** `get(full_path)`: the root for a path of separators only, and otherwise
        the node whose path is the stripped path, when there is one. */
    method Get(path: string) returns (r: Option<PathNode<T>>)
      requires Valid()
      ensures r.Some? <==> (path != [] && AllSlashes(path))
                           || (Normalize(path).Some? && Normalize(path).value in Paths(root))
      ensures r.Some? ==> r.value in Subtree(root)
      ensures r.Some? && Normalize(path).None? ==> r.value == root
      ensures r.Some? && Normalize(path).Some? ==> r.value.fullPath == Normalize(path).value
    {
      var q := StripTrailingSlashes(path);
      if q.None? {
        assert root in Subtree(root);
        return Some(root);
      }
      HasPaths(root, q.value);
      r := PathNodes.Get(root, q.value);
      if r.Some? {
        GetInSubtree(root, q.value);
      }
    }

    /**
     * `remove(full_path)`: a path of separators only names the root, which is
     * never removed; otherwise the node at the stripped path is unlinked with
     * everything below it, and every other node stays.
     */
    method Remove(path: string) returns (ok: bool)
      requires Valid()
      modifies this
      ensures Valid()
      ensures root == (if Normalize(path).None? then old(root)
                       else PathNodes.Remove(old(root), Normalize(path).value).0)
      ensures ok <==> Normalize(path).Some? && Normalize(path).value in Paths(old(root))
      ensures ok ==> Paths(root) == Outside(Paths(old(root)), Normalize(path).value)
      ensures !ok ==> root == old(root)
    {
      var q := StripTrailingSlashes(path);
      if q.None? {
        return false;
      }
      HasPaths(root, q.value);
      RemovePaths(root, q.value);
      var r := PathNodes.Remove(root, q.value);
      root, ok := r.0, r.1;
    }

    /** `clear()`: a fresh root. */
    method Clear()
      modifies this
      ensures Valid() && root == FreshRoot()
    {
      root := FreshRoot();
    }

    /**
     * `get(full_path)` followed by `setData(data)` on the node found: the data
     * of that node changes, the shape of the tree and every other datum stay.
     */
    method SetData(path: string, d: Option<T>) returns (ok: bool)
      requires Valid()
      modifies this
      ensures Valid()
      ensures root == (if Normalize(path).None? then old(root).(data := d)
                       else SetDataAt(old(root), Normalize(path).value, d).0)
      ensures ok <==> (path != [] && AllSlashes(path))
                      || (Normalize(path).Some? && Normalize(path).value in Paths(old(root)))
      ensures Paths(root) == Paths(old(root))
    {
      var q := StripTrailingSlashes(path);
      if q.None? {
        DataOnly(root, d, "/");
        root := root.(data := d);
        return true;
      }
      HasPaths(root, q.value);
      SetDataTree(root, q.value, d);
      var r := SetDataAt(root, q.value, d);
      root, ok := r.0, r.1;
    }

    /** `leavesOnly()`: the paths of the childless nodes, each once, in the
        order a postfix traversal meets them. */
    method LeavesOnly() returns (leaves: seq<string>)
      requires Valid()
      ensures forall q :: q in leaves ==> q in LeafPaths(root)
      ensures forall q :: q in LeafPaths(root) ==> q in leaves
      ensures forall i, j :: 0 <= i < j < |leaves| ==> leaves[i] != leaves[j]
    {
      var visit := Postfix(root);
      leaves := LeafFilter(visit);
      forall i, j | 0 <= i < j < |visit|
        ensures visit[i].fullPath != visit[j].fullPath
      {
        assert !Below(visit[j].fullPath, visit[i].fullPath);
      }
      LeafFilterDistinct(visit);
    }

    /** `writeObject(out)`: the number of leaves, then each leaf path. */
    method WriteObject() returns (image: Image)
      requires Valid()
      ensures image.count == |image.paths|
      ensures forall q :: q in image.paths ==> q in LeafPaths(root)
      ensures forall q :: q in LeafPaths(root) ==> q in image.paths
      ensures forall i, j :: 0 <= i < j < |image.paths| ==> image.paths[i] != image.paths[j]
    {
      var leaves := LeavesOnly();
      image := Image(|leaves|, leaves);
    }

    /**
     * `readObject(in)`: clear, then read `count` paths and put each without
     * data. When the stream ends early the read stops there (Java throws an
     * end-of-file exception) and the tree keeps what was put so far.
     */
    method ReadObject(image: Image) returns (complete: bool)
      modifies this
      ensures Valid()
      ensures complete <==> image.count <= |image.paths|
      ensures root == Replay(image.paths[..ReadLength(image)])
    {
      Clear();
      var i := 0;
      while i < image.count
        invariant Valid()
        invariant 0 <= i <= |image.paths| && (i == 0 || i <= image.count)
        invariant root == Replay(image.paths[..i])
      {
        if i == |image.paths| {
          return false;
        }
        var _ := Put(image.paths[i], None);
        assert image.paths[..i + 1][..i] == image.paths[..i];
        i := i + 1;
      }
      return true;
    }

    /** `readObjectNoData()`: a serialised form without the tree's data reads
        as a fresh tree. */
    method ReadObjectNoData()
      modifies this
      ensures Valid() && root == FreshRoot()
    {
      Clear();
    }
  }

  /** How many paths `readObject` reads from `image`. */
  function ReadLength(image: Image): (n: nat)
    ensures n <= |image.paths|
  {
    if image.count <= 0 then 0
    else if image.count <= |image.paths| then image.count
    else |image.paths|
  }
}
