/**
 * Regrouping identities on plain sets. The proofs about paths end by
 * regrouping unions of sets of paths; stated on plain sets, these identities
 * let the solver regroup without unfolding the tree functions that produced
 * the sets. They model nothing of their own.
 */
module SetAlgebra {
  lemma OnlyOne<X>(r: set<X>, c: X, e: set<X>)
    requires r == {c} + e && e == {}
    ensures r == {c}
  {
  }

  lemma DropEmpty<X>(r: set<X>, a: set<X>, o: set<X>, l: set<X>, x: set<X>)
    requires r == a + o + l && o == {} && l == x
    ensures r == a + x
  {
  }

  lemma AddNone<X>(r: set<X>, a: set<X>, d: set<X>)
    requires r == a && d == {}
    ensures r == a + d
  {
  }

  lemma AddNothing<X>(n: set<X>, a: set<X>, d: set<X>)
    requires a == {} && d == {}
    ensures n == n + a + d
  {
  }

  lemma AddLeaf<X>(r: set<X>, n: set<X>, fo: set<X>, l: set<X>, a: set<X>, d: set<X>)
    requires n == fo && r == fo + l && a == {} && d == l
    ensures r == n + a + d
  {
  }

  lemma AddChild<X>(r: set<X>, n: set<X>, fo: set<X>, g: set<X>, a: set<X>)
    requires n == fo && r == fo + g && g == a
    ensures r == n + a
  {
  }

  lemma AddBelow<X>(r: set<X>, n: set<X>, fo: set<X>, ch: set<X>, r1: set<X>,
                    af: set<X>, ac: set<X>, dn: set<X>, dc: set<X>, c: X)
    requires n == fo + ch && r == fo + r1 && r1 == ch + ac + dc
    requires af == {c} + ac && dn == dc && c in ch
    ensures r == n + af + dn
  {
  }

  lemma AbsorbAll<X>(r: set<X>, s: set<X>, a: set<X>, d: set<X>)
    requires r == s + a + d && a <= s && d == {}
    ensures r == s
  {
  }

  lemma Absorb<X>(r: set<X>, s: set<X>, a: set<X>, d: set<X>)
    requires r == s + a + d && a <= s
    ensures r == s + d
  {
  }

  lemma Gather<X>(r: set<X>, p: set<X>, top: set<X>, t: set<X>, a: set<X>, d: set<X>)
    requires r == p + a + d && p == top + t && d == {}
    ensures r == top + (t + a)
  {
  }

  lemma Chain<X>(r: set<X>, a: set<X>, b: set<X>, x: X, y: X, z: X)
    requires r == {x} + a && a == {y} + b && b == {z}
    ensures r == {x, y, z}
  {
  }
}
