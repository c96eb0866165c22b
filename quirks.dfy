/**
 * Answers of the tree on concrete paths that follow from the way every node
 * operation tokenises: a run of separators inside a path is read as one, but
 * the full path it is compared with is the one Java built; and put links a
 * new child before the put below it can fail.
 */
module Quirks {
  import opened Wrappers
  import opened SetAlgebra
  import opened PathStrings
  import opened PathNodes
  import opened PutFacts
  import opened PathTrees

  /**
   * Putting "/a//b" into a fresh tree creates the nodes "/a" and "/a/b" and
   * answers true, yet has("/a//b") is false afterwards: the node at "/a/b"
   * does not have the full path asked for, and "/a//b" does not start with it.
   */
  lemma DoubleSeparator(root: PathNode<int>, p: string)
    requires root.segment == "/" && root.fullPath == "/" && root.inner == map[] && root.data == None
    requires p == "/a//b"
    ensures TreePut(root, p, None).1
    ensures Paths(TreePut(root, p, None).0) == {"/", "/a", "/a/b"}
    ensures !Has(TreePut(root, p, None).0, p)
  {
    var r := PutDoubleSeparator(root, p);
    PathsOfChain(r);
    HasMisses(p, r);
  }

  /**
   * Putting "//a/b" into a fresh tree answers false, yet leaves the node "/a"
   * behind: the root links its new child "a" before the put on that child
   * finds that "//a/b" does not start with "/a".
   */
  lemma StrandedChild(root: PathNode<int>, p: string)
    requires root.segment == "/" && root.fullPath == "/" && root.inner == map[] && root.data == None
    requires p == "//a/b"
    ensures !TreePut(root, p, None).1
    ensures Paths(root) == {"/"}
    ensures Paths(TreePut(root, p, None).0) == {"/", "/a"}
    ensures !Has(TreePut(root, p, None).0, p)
  {
    var r := PutStranded(root, p);
    PathsLeaf(root);
    PathsLeaf(r.inner["a"]);
    PathsOne(r, "a");
    StrandedMisses(p, r);
  }

  /** The tree the failed put leaves behind: "/" -> "/a". */
  lemma PutStranded(root: PathNode<int>, p: string) returns (r: PathNode<int>)
    requires root.fullPath == "/" && root.inner == map[] && p == "//a/b"
    ensures TreePut(root, p, None) == (r, false)
    ensures r.fullPath == "/" && r.inner.Keys == {"a"}
    ensures r.inner["a"].fullPath == "/a" && r.inner["a"].inner == map[]
  {
    r := root.(inner := map["a" := Fresh<int>("a", "/a")]);
    StrandedResult(root, p, r);
    StrandedShape(root, r);
  }

  lemma StrandedShape(root: PathNode<int>, r: PathNode<int>)
    requires root.fullPath == "/" && r == root.(inner := map["a" := Fresh("a", "/a")])
    ensures r.fullPath == "/" && r.inner.Keys == {"a"}
    ensures r.inner["a"].fullPath == "/a" && r.inner["a"].inner == map[]
  {
  }

  lemma StrandedResult(root: PathNode<int>, p: string, r: PathNode<int>)
    requires root.fullPath == "/" && root.inner == map[] && p == "//a/b"
    requires r == root.(inner := map["a" := Fresh("a", "/a")])
    ensures TreePut(root, p, None) == (r, false)
  {
    NormalizeLeadingPair();
    assert TreePut(root, p, None) == Put(root, p, None);
    GrowStranded(p);
    FirstSegmentAfterPair();
    PutChainShape(root, p, None);
    ChildPaths();
  }

  /** The child "a" refuses "//a/b" at once and stays bare. */
  lemma GrowStranded(p: string)
    requires p == "//a/b"
    ensures Grow<int>("a", "/a", p) == (Fresh("a", "/a"), false)
  {
    NotUnderChild(p);
  }

  lemma StrandedMisses(p: string, r: PathNode<int>)
    requires p == "//a/b"
    requires r.fullPath == "/" && "a" in r.inner && r.inner["a"].fullPath == "/a"
    ensures !Has(r, p)
  {
    FirstSegmentAfterPair();
    NotUnderChild(p);
    assert !Has(r.inner["a"], p);
    assert Has(r, p) == Has(r.inner["a"], p);
  }

  /** "//a/b" does not start with the full path of the child "a". */
  lemma NotUnderChild(p: string)
    requires p == "//a/b"
    ensures !StartsWith(p, "/a")
  {
    assert p[1] != "/a"[1];
  }

  lemma NormalizeLeadingPair()
    ensures Normalize("//a/b") == Some("//a/b")
  {
    assert !EndsWithSlash("//a/b");
  }

  lemma FirstSegmentAfterPair()
    ensures NextSegment("/", "//a/b") == Token("a", false)
  {
    assert "//a/b"[1..] == "/a/b";
    assert "/a/b"[1..] == "a/b";
    assert DropLeadingSlashes("a/b") == "a/b";
    assert DropLeadingSlashes("/a/b") == "a/b";
    assert "a/b"[1..] == "/b";
    assert IndexOfSlash("a/b") == 1;
    assert "a/b"[..1] == "a";
  }

  /** The paths of the tree "/" -> "/a" -> "/a/b". */
  lemma PathsOfChain<T>(r: PathNode<T>)
    requires r.fullPath == "/" && r.inner.Keys == {"a"} && r.inner["a"].fullPath == "/a"
    requires r.inner["a"].inner.Keys == {"b"} && r.inner["a"].inner["b"].fullPath == "/a/b"
    requires r.inner["a"].inner["b"].inner == map[]
    ensures Paths(r) == {"/", "/a", "/a/b"}
  {
    var a := r.inner["a"];
    var b := a.inner["b"];
    PathsLeaf(b);
    PathsOne(a, "b");
    PathsOne(r, "a");
    Chain(Paths(r), Paths(a), Paths(b), "/", "/a", "/a/b");
  }

  /** The tree put leaves behind: "/" -> "/a" -> "/a/b". */
  lemma PutDoubleSeparator(root: PathNode<int>, p: string) returns (r: PathNode<int>)
    requires root.fullPath == "/" && root.inner == map[] && p == "/a//b"
    ensures TreePut(root, p, None) == (r, true)
    ensures r.fullPath == "/" && r.inner.Keys == {"a"} && r.inner["a"].fullPath == "/a"
    ensures r.inner["a"].inner.Keys == {"b"} && r.inner["a"].inner["b"].fullPath == "/a/b"
    ensures r.inner["a"].inner["b"].inner == map[]
  {
    var a := PathNode("a", "/a", map["b" := Fresh<int>("b", "/a/b")], None);
    r := root.(inner := map["a" := a]);
    PutResult(root, p, a, r);
    ChainShape(root, a, r);
  }

  lemma ChainShape(root: PathNode<int>, a: PathNode<int>, r: PathNode<int>)
    requires root.fullPath == "/"
    requires a == PathNode("a", "/a", map["b" := Fresh("b", "/a/b")], None)
    requires r == root.(inner := map["a" := a])
    ensures r.fullPath == "/" && r.inner.Keys == {"a"} && r.inner["a"].fullPath == "/a"
    ensures r.inner["a"].inner.Keys == {"b"} && r.inner["a"].inner["b"].fullPath == "/a/b"
    ensures r.inner["a"].inner["b"].inner == map[]
  {
  }

  lemma PutResult(root: PathNode<int>, p: string, a: PathNode<int>, r: PathNode<int>)
    requires root.fullPath == "/" && root.inner == map[] && p == "/a//b"
    requires a == PathNode("a", "/a", map["b" := Fresh("b", "/a/b")], None)
    requires r == root.(inner := map["a" := a])
    ensures TreePut(root, p, None) == (r, true)
  {
    NormalizeDoubleSeparator();
    assert TreePut(root, p, None) == Put(root, p, None);
    GrowDoubleSeparator(p, a);
    FirstSegment();
    PutChainShape(root, p, None);
    ChildPaths();
  }

  /** The chain put grows below the root for "/a//b". */
  lemma GrowDoubleSeparator(p: string, a: PathNode<int>)
    requires p == "/a//b"
    requires a == PathNode("a", "/a", map["b" := Fresh("b", "/a/b")], None)
    ensures Grow<int>("a", "/a", p) == (a, true)
  {
    SecondSegment();
    GrowLastShape<int>("a", "/a", p);
    ChildPaths();
  }

  lemma HasMisses(p: string, r: PathNode<int>)
    requires p == "/a//b"
    requires r.fullPath == "/" && "a" in r.inner && r.inner["a"].fullPath == "/a"
    requires "b" in r.inner["a"].inner && r.inner["a"].inner["b"].fullPath == "/a/b"
    ensures !Has(r, p)
  {
    FirstSegment();
    SecondSegment();
    var a := r.inner["a"];
    var b := a.inner["b"];
    NotUnderBuiltPath(p);
    assert !Has(b, p);
    assert Has(a, p) == Has(b, p);
    assert Has(r, p) == Has(a, p);
  }

  /** The full paths Java builds for the two nodes. */
  lemma ChildPaths()
    ensures ChildPath("/", "a") == "/a" && ChildPath("/a", "b") == "/a/b"
  {
    assert EndsWithSlash("/") && !EndsWithSlash("/a");
    assert "/" + "a" == "/a";
    assert "/a" + "/" + "b" == "/a/b";
  }

  /** The path asked for does not start with the full path Java built. */
  lemma NotUnderBuiltPath(p: string)
    requires p == "/a//b"
    ensures !StartsWith(p, "/a/b")
  {
    assert p[3] != "/a/b"[3];
  }

  /** A node with one child has its own path and the paths of that child. */
  lemma PathsOne<T>(n: PathNode<T>, k: string)
    requires n.inner.Keys == {k}
    ensures Paths(n) == {n.fullPath} + Paths(n.inner[k])
  {
    PathsWith(n, k);
    assert Others(n, k) == {};
  }

  lemma NormalizeDoubleSeparator()
    ensures Normalize("/a//b") == Some("/a//b")
  {
    assert !EndsWithSlash("/a//b");
  }

  lemma FirstSegment()
    ensures NextSegment("/", "/a//b") == Token("a", false)
  {
    assert "/a//b"[1..] == "a//b";
    assert DropLeadingSlashes("a//b") == "a//b";
    assert "a//b"[1..] == "//b";
    assert IndexOfSlash("a//b") == 1;
    assert "a//b"[..1] == "a";
  }

  lemma SecondSegment()
    ensures NextSegment("/a", "/a//b") == Token("b", true)
  {
    assert "/a//b"[2..] == "//b";
    DropTwo();
    assert "b"[1..] == [];
    assert IndexOfSlash("b") == -1;
  }

  lemma DropTwo()
    ensures DropLeadingSlashes("//b") == "b"
  {
    assert "//b"[1..] == "/b";
    assert "/b"[1..] == "b";
    assert DropLeadingSlashes("b") == "b";
    assert DropLeadingSlashes("/b") == "b";
  }

  /**
   * The empty path is handed to the root as it is, where it never matches:
   * has, get, put and remove all miss it, whereas "/" is answered by the
   * tree itself as the root.
   */
  lemma EmptyPath<T>(root: PathNode<T>, d: Option<T>)
    requires WellFormed(root) && root.fullPath == "/"
    ensures Normalize("") == Some("") && Normalize("/").None?
    ensures "" !in Paths(root) && !Has(root, "") && Get(root, "").None?
    ensures Put(root, "", d) == (root, false) && Remove(root, "") == (root, false)
  {
    forall q | q in Paths(root)
      ensures Below(q, root.fullPath)
    {
      PathsBelow(root, q);
    }
    assert !Below("", "/");
  }
}
