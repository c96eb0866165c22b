/**
 * The string handling of PathTree: Java's startsWith/endsWith tests, the
 * trailing-separator loop that opens every tree-level operation, and the
 * tokenisation step that every node operation repeats (drop the node's own
 * full path, drop the separators that follow it, take the text up to the
 * next separator).
 */
module PathStrings {
  import opened Wrappers
  import opened SetAlgebra

  /** Java's `s.startsWith(prefix)`. */
  predicate StartsWith(s: string, prefix: string) {
    prefix <= s
  }

  /** Java's `s.endsWith("/")`. */
  predicate EndsWithSlash(s: string) {
    |s| > 0 && s[|s| - 1] == '/'
  }

  predicate AllSlashes(s: string) {
    forall i :: 0 <= i < |s| ==> s[i] == '/'
  }

  predicate NoSlash(s: string) {
    forall i :: 0 <= i < |s| ==> s[i] != '/'
  }

  /** Every character of `p` from `a` up to (excluding) `b` is a separator. */
  predicate SlashesIn(p: string, a: int, b: int) {
    forall i :: a <= i < b && 0 <= i < |p| ==> p[i] == '/'
  }

  /** No character of `p` from `a` up to (excluding) `b` is a separator. */
  predicate NoSlashIn(p: string, a: int, b: int) {
    forall i :: a <= i < b && 0 <= i < |p| ==> p[i] != '/'
  }

  // ---------------------------------------------------------------------------
  // Normalisation done by the tree-level wrappers
  // ---------------------------------------------------------------------------

  /** The path with every trailing separator dropped. */
  function TrimTrailing(s: string): (t: string)
    ensures t <= s
    ensures !EndsWithSlash(t)
    ensures SlashesIn(s, |t|, |s|)
    decreases |s|
  {
    if EndsWithSlash(s) then TrimTrailing(s[..|s| - 1]) else s
  }

  /**
   * What a tree-level wrapper hands on to the root: the path without its
   * trailing separators, or None when dropping them empties a path made only
   * of separators (the wrapper then answers by itself). The empty path does
   * not enter the loop and is handed on as it is.
   */
  function Normalize(s: string): (r: Option<string>)
    ensures r.None? <==> s != [] && AllSlashes(s)
    ensures r.Some? ==> r.value <= s && !EndsWithSlash(r.value) && SlashesIn(s, |r.value|, |s|)
    ensures r.Some? && r.value == [] ==> s == []
  {
    var t := TrimTrailing(s);
    if t == [] && s != [] then None else Some(t)
  }

  /**
   * The `while (full_path.endsWith("/"))` loop that opens the tree-level put,
   * has, get and remove: drop one separator at a time and stop as soon as
   * nothing is left.
   */
  method StripTrailingSlashes(s: string) returns (r: Option<string>)
    ensures r == Normalize(s)
  {
    var path := s;
    while EndsWithSlash(path)
      invariant TrimTrailing(path) == TrimTrailing(s)
      invariant path == [] ==> s == []
      decreases |path|
    {
      path := path[..|path| - 1];
      if |path| == 0 {
        return None;
      }
    }
    return Some(path);
  }

  // ---------------------------------------------------------------------------
  // Tokenisation done by every node operation
  // ---------------------------------------------------------------------------

  /** The `while (sub.startsWith("/")) sub = sub.substring(1)` loop. */
  function DropLeadingSlashes(s: string): (t: string)
    ensures |t| <= |s| && t == s[|s| - |t|..]
    ensures SlashesIn(s, 0, |s| - |t|)
    ensures t == [] || t[0] != '/'
    decreases |s|
  {
    if |s| > 0 && s[0] == '/' then DropLeadingSlashes(s[1..]) else s
  }

  /** Java's `s.indexOf('/')`: the position of the first separator, or -1. */
  function IndexOfSlash(s: string): (i: int)
    ensures -1 <= i < |s|
    ensures i >= 0 ==> s[i] == '/' && NoSlashIn(s, 0, i)
    ensures i == -1 ==> NoSlashIn(s, 0, |s|)
  {
    if |s| == 0 then -1
    else if s[0] == '/' then 0
    else
      var i := IndexOfSlash(s[1..]);
      if i == -1 then -1 else i + 1
  }

  /** Where the next segment of `p` begins, seen from a node whose full path is
      `f`: just past the separators that follow `f`. */
  function SegmentStart(f: string, p: string): (s: nat)
    requires StartsWith(p, f)
    ensures |f| <= s <= |p|
    ensures SlashesIn(p, |f|, s)
    ensures s == |p| || p[s] != '/'
  {
    var sub := p[|f|..];
    var t := DropLeadingSlashes(sub);
    assert forall i :: |f| <= i < |p| ==> p[i] == sub[i - |f|];
    |p| - |t|
  }

  /** The outcome of one tokenisation step: the next segment, and whether it is
      the last one of the path (Java: `index == -1`). */
  datatype Token = Token(segment: string, last: bool)

  /**
   * The tokenisation step at a node whose full path is `f`: drop `f`, drop the
   * separators after it, and cut at the next separator. NextSegmentShape states
   * what comes out in terms of `p` itself.
   */
  function NextSegment(f: string, p: string): (t: Token)
    requires StartsWith(p, f)
    ensures NoSlash(t.segment)
    ensures t.last ==> t.segment == DropLeadingSlashes(p[|f|..])
  {
    var sub := DropLeadingSlashes(p[|f|..]);
    var index := IndexOfSlash(sub);
    if index == -1 then Token(sub, true) else Token(sub[..index], false)
  }

  /**
   * The segment is the run of non-separators of `p` from `s` = SegmentStart(f, p)
   * up to `e`; it is the last one exactly when it reaches the end of `p`, and
   * otherwise a separator follows it.
   */
  lemma NextSegmentShape(f: string, p: string) returns (s: nat, e: nat)
    requires StartsWith(p, f)
    ensures s == SegmentStart(f, p) && e == s + |NextSegment(f, p).segment| && e <= |p|
    ensures NextSegment(f, p).segment == p[s..e]
    ensures NoSlashIn(p, s, e)
    ensures NextSegment(f, p).last <==> e == |p|
    ensures !NextSegment(f, p).last ==> p[e] == '/'
  {
    var sub := DropLeadingSlashes(p[|f|..]);
    DroppedFromSegmentStart(f, p, sub);
    s := SegmentStart(f, p);
    var index := IndexOfSlash(sub);
    SegmentOfSub(p, s, sub, index);
    var t := NextSegment(f, p);
    assert t.segment == (if index == -1 then sub else sub[..index]);
    e := if index == -1 then |p| else s + index;
    assert |t.segment| == e - s;
  }

  /** A segment that is not the last one of the path is never empty: the
      separators after a node's path are skipped, so a separator cannot
      follow at once. */
  lemma NotLastNonEmpty(f: string, p: string)
    requires StartsWith(p, f) && !NextSegment(f, p).last
    ensures NextSegment(f, p).segment != []
  {
    var s, e := NextSegmentShape(f, p);
  }

  /** For a path without a trailing separator, the next segment is empty only
      when the path is the node's own path, which then is not the root. */
  lemma EmptySegment(f: string, p: string)
    requires StartsWith(p, f) && !EndsWithSlash(p)
    requires NextSegment(f, p).segment == []
    ensures p == f && f != "/" && NextSegment(f, p).last
  {
    var s, e := NextSegmentShape(f, p);
    assert s == |p|;
  }

  /** At its own path a node reads the empty segment, as the last one. */
  lemma SegmentAtSelf(f: string)
    ensures NextSegment(f, f) == Token([], true)
  {
    var s, e := NextSegmentShape(f, f);
  }

  /** What DropLeadingSlashes leaves is the text from SegmentStart on. */
  lemma DroppedFromSegmentStart(f: string, p: string, sub: string)
    requires StartsWith(p, f)
    requires sub == DropLeadingSlashes(p[|f|..])
    ensures sub == p[SegmentStart(f, p)..]
  {
    assert SegmentStart(f, p) == |p| - |sub|;
  }

  /** Reading indexOf('/') in the text from `s` on, in terms of `p` itself. */
  lemma SegmentOfSub(p: string, s: nat, sub: string, index: int)
    requires s <= |p| && sub == p[s..] && index == IndexOfSlash(sub)
    ensures var e := if index == -1 then |p| else s + index;
      && s <= e <= |p|
      && (if index == -1 then sub else sub[..index]) == p[s..e]
      && NoSlashIn(p, s, e)
      && (index != -1 ==> p[e] == '/')
  {
    var e := if index == -1 then |p| else s + index;
    forall i | s <= i < e
      ensures p[i] != '/'
    {
      assert p[i] == sub[i - s];
    }
  }

  /** The full path Java gives a new child: the parent's path, a separator unless
      that path already ends with one, then the segment. */
  function ChildPath(f: string, segment: string): string {
    if EndsWithSlash(f) then f + segment else f + "/" + segment
  }

  // ---------------------------------------------------------------------------
  // Vocabulary for the properties
  // ---------------------------------------------------------------------------

  /** A full path that can own children: the root, or a path not ending in a separator. */
  predicate DirPath(f: string) {
    f == "/" || (|f| > 0 && !EndsWithSlash(f))
  }

  /** The prefix shared by every path strictly below `p`. */
  function DirPrefix(p: string): string {
    if p == "/" then p else p + "/"
  }

  /** `q` is `p` itself or lies somewhere below it. */
  predicate Below(q: string, p: string) {
    q == p || StartsWith(q, DirPrefix(p))
  }

  /** An absolute path other than the root, with no empty segment: no repeated
      separator and no trailing one. */
  ghost predicate Canonical(p: string) {
    && |p| >= 2
    && p[0] == '/'
    && !EndsWithSlash(p)
    && forall i, j :: 0 <= i && j == i + 1 && j < |p| && p[j] == '/' ==> p[i] != '/'
  }

  /** `f` is the root, or one of the prefixes of `p` that end just before a
      separator of `p` (or at its end). */
  predicate OnTrail(f: string, p: string) {
    && StartsWith(p, f)
    && DirPath(f)
    && (f == "/" || |f| == |p| || p[|f|] == '/')
  }

  /** The prefixes of `p` longer than `lo` that end just before a separator of
      `p` or at its end: for a canonical `p` and lo = 1, every ancestor of `p`
      other than the root, and `p` itself. */
  ghost function AncestorsFrom(lo: nat, p: string): set<string> {
    set i | lo < i <= |p| && (i == |p| || p[i] == '/') :: p[..i]
  }

  // ---------------------------------------------------------------------------
  // Lemmas
  // ---------------------------------------------------------------------------

  /** A run of separators starting at `a` ends at one place only. */
  lemma SlashRunUnique(p: string, a: nat, s1: nat, s2: nat)
    requires a <= s1 <= |p| && a <= s2 <= |p|
    requires SlashesIn(p, a, s1) && SlashesIn(p, a, s2)
    requires s1 == |p| || p[s1] != '/'
    requires s2 == |p| || p[s2] != '/'
    ensures s1 == s2
  {
  }

  /** A run of non-separators starting at `s` ends at one place only. */
  lemma SegmentUnique(p: string, s: nat, e1: nat, e2: nat)
    requires s <= e1 <= |p| && s <= e2 <= |p|
    requires NoSlashIn(p, s, e1) && NoSlashIn(p, s, e2)
    requires e1 == |p| || p[e1] == '/'
    requires e2 == |p| || p[e2] == '/'
    ensures e1 == e2
  {
  }

  /** Where the segment of a child starts inside its full path. */
  function ChildSegmentStart(f: string): nat {
    if f == "/" then 1 else |f| + 1
  }

  /** A path below the child `k` of `f` carries `k` as the segment that starts
      where the child's segment starts, followed by a separator or the end. */
  lemma BelowChildSegment(f: string, k: string, q: string)
    requires DirPath(f) && NoSlash(k)
    requires f == "/" ==> k != []
    requires Below(q, ChildPath(f, k))
    ensures ChildSegmentStart(f) + |k| <= |q|
    ensures StartsWith(q, f) && StartsWith(q, ChildPath(f, k))
    ensures |ChildPath(f, k)| == ChildSegmentStart(f) + |k|
    ensures SlashesIn(q, |f|, ChildSegmentStart(f))
    ensures q[ChildSegmentStart(f)..ChildSegmentStart(f) + |k|] == k
    ensures NoSlashIn(q, ChildSegmentStart(f), ChildSegmentStart(f) + |k|)
    ensures ChildSegmentStart(f) + |k| == |q| || q[ChildSegmentStart(f) + |k|] == '/'
  {
    var c := ChildPath(f, k);
    var j := ChildSegmentStart(f);
    assert DirPrefix(c) == c + "/";
    assert q[..|c|] == c;
    assert c[j..] == k;
    assert forall i :: j <= i < |c| ==> q[i] == k[i - j];
  }

  /** Tokenising a path that lies at or below the child `k` of `f` gives `k`,
      and says "last" exactly when the path is the child itself. */
  lemma TokenOfChild(f: string, k: string, q: string)
    requires DirPath(f) && NoSlash(k)
    requires f == "/" ==> k != []
    requires k == [] ==> q == ChildPath(f, k)
    requires Below(q, ChildPath(f, k))
    ensures StartsWith(q, f)
    ensures NextSegment(f, q) == Token(k, q == ChildPath(f, k))
  {
    var j, e := ChildSegmentBounds(f, k, q);
    SegmentAt(f, q, j, e);
  }

  /** Where the segment of the child `k` of `f` sits in a path below that child. */
  lemma ChildSegmentBounds(f: string, k: string, q: string) returns (j: nat, e: nat)
    requires DirPath(f) && NoSlash(k)
    requires f == "/" ==> k != []
    requires k == [] ==> q == ChildPath(f, k)
    requires Below(q, ChildPath(f, k))
    ensures StartsWith(q, f) && |f| <= j <= e <= |q|
    ensures SlashesIn(q, |f|, j) && (j == |q| || q[j] != '/')
    ensures NoSlashIn(q, j, e) && (e == |q| || q[e] == '/')
    ensures q[j..e] == k && (e == |q| <==> q == ChildPath(f, k))
  {
    BelowChildSegment(f, k, q);
    j := ChildSegmentStart(f);
    e := j + |k|;
    assert k != [] ==> q[j] == k[0];
  }

  /** Tokenising reads the run of non-separators that follows the separators
      after `f`. */
  lemma SegmentAt(f: string, q: string, j: nat, e: nat)
    requires StartsWith(q, f) && |f| <= j <= e <= |q|
    requires SlashesIn(q, |f|, j) && (j == |q| || q[j] != '/')
    requires NoSlashIn(q, j, e) && (e == |q| || q[e] == '/')
    ensures NextSegment(f, q) == Token(q[j..e], e == |q|)
  {
    var s, e2 := NextSegmentShape(f, q);
    SlashRunUnique(q, |f|, s, j);
    SegmentUnique(q, j, e2, e);
  }

  /** A path lies below at most one child of a node: sibling subtrees are disjoint. */
  lemma SameChild(f: string, k1: string, k2: string, q: string)
    requires DirPath(f) && NoSlash(k1) && NoSlash(k2)
    requires f == "/" ==> k1 != [] && k2 != []
    requires Below(q, ChildPath(f, k1)) && Below(q, ChildPath(f, k2))
    ensures k1 == k2
  {
    BelowChildSegment(f, k1, q);
    BelowChildSegment(f, k2, q);
    var j := ChildSegmentStart(f);
    SegmentUnique(q, j, j + |k1|, j + |k2|);
  }

  /** Nothing lies below a path that is longer than itself. */
  lemma BelowLength(q: string, p: string)
    requires Below(q, p)
    ensures |q| >= |p|
  {
  }

  /** A child with a non-empty segment can own children of its own. */
  lemma ChildDirPath(f: string, k: string)
    requires NoSlash(k) && k != []
    ensures DirPath(ChildPath(f, k))
  {
    var c := ChildPath(f, k);
    assert c[|c| - 1] == k[|k| - 1];
  }

  lemma BelowTrans(x: string, y: string, z: string)
    requires Below(x, y) && Below(y, z)
    ensures Below(x, z)
  {
    assert y <= DirPrefix(y);
  }

  /** A child lies strictly below its parent. */
  lemma ChildBelow(f: string, k: string)
    requires DirPath(f)
    requires f == "/" ==> k != []
    ensures Below(ChildPath(f, k), f)
    ensures |ChildPath(f, k)| > |f|
    ensures ChildPath(f, k) != "/"
  {
  }

  /** The prefixes AncestorsFrom collects past `lo`, when the first boundary
      after `lo` is `e`. */
  lemma AncestorsStep(p: string, lo: nat, e: nat)
    requires lo < e <= |p|
    requires e == |p| || p[e] == '/'
    requires NoSlashIn(p, lo + 1, e)
    ensures AncestorsFrom(lo, p) == {p[..e]} + AncestorsFrom(e, p)
  {
    forall a | a in AncestorsFrom(lo, p)
      ensures a in {p[..e]} + AncestorsFrom(e, p)
    {
      var i :| lo < i <= |p| && (i == |p| || p[i] == '/') && a == p[..i];
      assert i >= e;
    }
  }

  /** On a canonical path, one tokenisation step from a node on its trail moves
      to the next ancestor of the path: the prefix of `p` up to `e`. */
  lemma TrailChild(f: string, p: string) returns (c: string, e: nat)
    requires Canonical(p) && OnTrail(f, p) && f != p
    ensures NextSegment(f, p).segment != []
    ensures c == ChildPath(f, NextSegment(f, p).segment)
    ensures |f| < e <= |p| && c == p[..e]
    ensures e == |p| || p[e] == '/'
    ensures NoSlashIn(p, |f| + 1, e)
    ensures OnTrail(c, p)
    ensures NextSegment(f, p).last <==> c == p
  {
    e := TrailBounds(f, p);
    c := TrailPrefix(f, p, e);
  }

  /** The child path built from the segment that ends at `e` is the prefix of
      `p` up to `e`, and is on the trail of `p`. */
  lemma TrailPrefix(f: string, p: string, e: nat) returns (c: string)
    requires OnTrail(f, p) && |f| < |p|
    requires ChildSegmentStart(f) < e <= |p| && NoSlashIn(p, ChildSegmentStart(f), e)
    requires e == |p| || p[e] == '/'
    ensures c == ChildPath(f, p[ChildSegmentStart(f)..e])
    ensures c == p[..e] && |c| == e && OnTrail(c, p)
    ensures c == p <==> e == |p|
  {
    assert p[e - 1] != '/';
    assert p[..|p|] == p;
    ChildPathIsPrefix(f, p, e);
    c := ChildPath(f, p[ChildSegmentStart(f)..e]);
    PrefixOnTrail(p, e);
  }

  /** On a canonical path, the segment that follows a node on its trail starts
      just past one separator and runs up to `e`. */
  lemma TrailBounds(f: string, p: string) returns (e: nat)
    requires Canonical(p) && OnTrail(f, p) && f != p
    ensures |f| <= ChildSegmentStart(f) <= |f| + 1
    ensures ChildSegmentStart(f) < e <= |p|
    ensures NextSegment(f, p).segment == p[ChildSegmentStart(f)..e]
    ensures NoSlashIn(p, ChildSegmentStart(f), e) && NoSlashIn(p, |f| + 1, e)
    ensures NextSegment(f, p).segment != []
    ensures e == |p| || p[e] == '/'
    ensures NextSegment(f, p).last <==> e == |p|
  {
    var j := NextStart(f, p);
    var s;
    s, e := NextSegmentShape(f, p);
    SlashRunUnique(p, |f|, s, j);
  }

  /** On a canonical path, one separator follows a node on its trail. */
  lemma NextStart(f: string, p: string) returns (j: nat)
    requires Canonical(p) && OnTrail(f, p) && f != p
    ensures j == ChildSegmentStart(f) && |f| <= j <= |f| + 1 && j < |p|
    ensures SlashesIn(p, |f|, j) && p[j] != '/'
  {
    j := ChildSegmentStart(f);
    assert |f| < |p|;
    assert p[j - 1] == '/';
    assert j < |p|;
  }

  /** The child path built from the segment of `p` that follows the trail node
      `f` is the prefix of `p` that ends with that segment. */
  lemma ChildPathIsPrefix(f: string, p: string, e: nat)
    requires OnTrail(f, p) && |f| < |p|
    requires ChildSegmentStart(f) <= e <= |p|
    ensures ChildPath(f, p[ChildSegmentStart(f)..e]) == p[..e]
  {
    var j := ChildSegmentStart(f);
    assert p[..e] == p[..|f|] + p[|f|..j] + p[j..e];
    assert f != "/" ==> p[|f|..j] == "/";
  }

  /** A prefix of `p` that ends on a non-separator, just before a separator of
      `p` or at its end, is on the trail of `p`. */
  lemma PrefixOnTrail(p: string, e: nat)
    requires 0 < e <= |p| && p[e - 1] != '/'
    requires e == |p| || p[e] == '/'
    ensures OnTrail(p[..e], p)
  {
    assert p[..e][e - 1] == p[e - 1];
  }

  /** One tokenisation step along the trail of a canonical path, stated
      without the positions TrailChild names. */
  lemma TrailNext(f: string, p: string) returns (c: string)
    requires Canonical(p) && OnTrail(f, p) && f != p
    ensures NextSegment(f, p).segment != []
    ensures c == ChildPath(f, NextSegment(f, p).segment)
    ensures OnTrail(c, p) && |c| > |f|
    ensures NextSegment(f, p).last <==> c == p
  {
    var e;
    c, e := TrailChild(f, p);
  }

  /** The step of TrailChild is the next prefix counted by AncestorsFrom. */
  lemma TrailStep(f: string, p: string) returns (c: string)
    requires Canonical(p) && OnTrail(f, p) && f != p
    ensures NextSegment(f, p).segment != []
    ensures c == ChildPath(f, NextSegment(f, p).segment)
    ensures OnTrail(c, p) && |c| > |f|
    ensures NextSegment(f, p).last <==> c == p
    ensures AncestorsFrom(|f|, p) == {c} + AncestorsFrom(|c|, p)
  {
    var e;
    c, e := TrailChild(f, p);
    AncestorsStep(p, |f|, e);
  }

  /** When the step from a node on the trail of `p` reads the last segment, the
      child it leads to is `p` itself, the only prefix left to collect. */
  lemma LastStep(f: string, p: string) returns (c: string)
    requires Canonical(p) && OnTrail(f, p) && f != p
    requires NextSegment(f, p).last
    ensures c == ChildPath(f, NextSegment(f, p).segment) && c == p
    ensures AncestorsFrom(|f|, p) == {p}
  {
    c := TrailStep(f, p);
    NoAncestorsPast(p);
    OnlyOne(AncestorsFrom(|f|, p), c, AncestorsFrom(|c|, p));
  }

  lemma NoAncestorsPast(p: string)
    ensures AncestorsFrom(|p|, p) == {}
  {
  }

  /** A string below a node path longer than the root is one of the prefixes
      AncestorsFrom collects. */
  lemma AncestorOfBelow(l: string, q: string)
    requires Canonical(l) && Below(l, q) && |q| > 1
    ensures q in AncestorsFrom(1, l)
  {
    assert l[..|q|] == q;
  }

  /** Every prefix that AncestorsFrom collects lies above the path. */
  lemma AncestorsAbove(lo: nat, p: string, a: string)
    requires a in AncestorsFrom(lo, p)
    ensures |a| > lo && Below(p, a)
  {
  }

  /** A child with a non-empty segment of the root or of a canonical path is canonical. */
  lemma CanonicalChild(f: string, k: string)
    requires f == "/" || Canonical(f)
    requires k != [] && NoSlash(k)
    ensures Canonical(ChildPath(f, k))
  {
    var c := ChildPath(f, k);
    var j := ChildSegmentStart(f);
    assert c[j..] == k;
    assert forall i :: j <= i < |c| ==> c[i] == k[i - j];
    assert forall i :: 0 <= i < |f| ==> c[i] == f[i];
    assert c[j - 1] == '/';
  }
}
