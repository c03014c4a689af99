/** Object identifiers: lexicographic comparison, first differing position,
    and the interval of OIDs that a registration name owns. */
module Oids {

  type Oid = seq<nat>

  /** The strict lexicographic order: a proper prefix comes first. */
  predicate Lt(a: Oid, b: Oid) {
    b != [] && (a == [] || a[0] < b[0] || (a[0] == b[0] && Lt(a[1..], b[1..])))
  }

  predicate Leq(a: Oid, b: Oid) { a == b || Lt(a, b) }

  /** The three-way result of the comparison routines. */
  function Cmp(a: Oid, b: Oid): int {
    if Lt(a, b) then -1 else if a == b then 0 else 1
  }

  /** Length of the longest common prefix. */
  function Common(a: Oid, b: Oid): (k: nat)
    ensures k <= |a| && k <= |b| && a[..k] == b[..k]
    ensures k < |a| && k < |b| ==> a[k] != b[k]
  {
    if a == [] || b == [] || a[0] != b[0] then 0 else 1 + Common(a[1..], b[1..])
  }

  /** The position the routines report: one past the common prefix. */
  function Diff(a: Oid, b: Oid): nat { Common(a, b) + 1 }

  // ----- the order is a strict total order -----

  lemma {:induction false} Trichotomy(a: Oid, b: Oid)
    ensures Lt(a, b) || a == b || Lt(b, a)
    ensures !(Lt(a, b) && Lt(b, a))
    ensures !Lt(a, a)
  {
    if a != [] { Trichotomy(a[1..], a[1..]); }
    if a != [] && b != [] {
      Trichotomy(a[1..], b[1..]);
      assert a == [a[0]] + a[1..] && b == [b[0]] + b[1..];
    }
  }

  lemma {:induction false} Transitive(a: Oid, b: Oid, c: Oid)
    requires Lt(a, b) && Lt(b, c)
    ensures Lt(a, c)
  {
    if a != [] && a[0] == b[0] == c[0] { Transitive(a[1..], b[1..], c[1..]); }
  }

  /** The order facts in quantified form, for proofs about sorted sequences. */
  lemma TotalOrder()
    ensures forall a, b {:trigger Lt(a, b)} :: !(Lt(a, b) && Lt(b, a)) && !Lt(a, a)
    ensures forall a, b {:trigger Lt(a, b)} :: Lt(a, b) || a == b || Lt(b, a)
    ensures forall a, b, c {:trigger Lt(a, b), Lt(b, c)} :: Lt(a, b) && Lt(b, c) ==> Lt(a, c)
  {
    forall a, b
      ensures !(Lt(a, b) && Lt(b, a)) && !Lt(a, a)
      ensures Lt(a, b) || a == b || Lt(b, a)
    {
      Trichotomy(a, b);
    }
    forall a, b, c | Lt(a, b) && Lt(b, c) ensures Lt(a, c) { Transitive(a, b, c); }
  }

  /** The order read off the first difference. */
  lemma {:induction false} LtByDiff(a: Oid, b: Oid)
    ensures var k := Common(a, b);
            Lt(a, b) <==> k < |b| && (k == |a| || a[k] < b[k])
    ensures a == b <==> Common(a, b) == |a| == |b|
  {
    if a != [] && b != [] && a[0] == b[0] {
      LtByDiff(a[1..], b[1..]);
      assert a == [a[0]] + a[1..] && b == [b[0]] + b[1..];
    }
  }

  lemma {:induction false} CommonIs(a: Oid, b: Oid, k: nat)
    requires k <= |a| && k <= |b| && a[..k] == b[..k]
    requires k < |a| && k < |b| ==> a[k] != b[k]
    ensures Common(a, b) == k
  {
    if k > 0 {
      assert a[0] == a[..k][0] == b[..k][0] == b[0];
      assert a[1..][..k - 1] == a[..k][1..] == b[1..][..k - 1];
      CommonIs(a[1..], b[1..], k - 1);
    }
  }

  /** Why the scan may skip a comparison: when n lies after p and the next
      start q agrees with p beyond the point where n and p part, then n lies
      after q too, and parts from q at that same point. */
  lemma SkipSound(n: Oid, p: Oid, q: Oid)
    requires Leq(p, n) && Diff(p, q) > Diff(n, p)
    ensures Lt(q, n) && Diff(n, q) == Diff(n, p)
  {
    var k := Common(n, p);
    LtByDiff(p, n);
    CommonIs(p, n, k);
    assert k < |p| && p[..Common(p, q)][k] == q[..Common(p, q)][k];
    assert q[..k] == q[..Common(p, q)][..k] == p[..Common(p, q)][..k] == p[..k];
    CommonIs(n, q, k);
    CommonIs(q, n, k);
    LtByDiff(q, n);
  }

  // ----- the comparison loops -----

  /** The comparison loop that also reports where the two names first differ. */
  method CompareLl(a: Oid, b: Oid) returns (c: int, off: nat)
    ensures c == Cmp(a, b)
    ensures off == Diff(a, b)
  {
    var initlen := if |a| < |b| then |a| else |b|;
    var len := initlen;
    while len > 0
      invariant 0 <= len <= initlen
      invariant a[..initlen - len] == b[..initlen - len]
    {
      var i := initlen - len;
      if a[i] != b[i] {
        CommonIs(a, b, i);
        LtByDiff(a, b);
        return if a[i] < b[i] then -1 else 1, i + 1;
      }
      len := len - 1;
    }
    CommonIs(a, b, initlen);
    LtByDiff(a, b);
    off := initlen + 1;
    c := if |a| < |b| then -1 else if |b| < |a| then 1 else 0;
  }

  /** The three-way comparison without the position. */
  method Compare(a: Oid, b: Oid) returns (c: int)
    ensures c == Cmp(a, b)
  {
    var off;
    c, off := CompareLl(a, b);
  }

  // ----- regions -----

  predicate Prefix(p: Oid, x: Oid) { |p| <= |x| && x[..|p|] == p }

  /** The name with its last sub-identifier raised by one. */
  function Bump(n: Oid): Oid
    requires n != []
  {
    n[..|n| - 1] + [n[|n| - 1] + 1]
  }

  lemma Cons(h: nat, a: Oid, g: nat, b: Oid)
    ensures Lt([h] + a, [g] + b) <==> h < g || (h == g && Lt(a, b))
    ensures [h] + a == [g] + b <==> h == g && a == b
    ensures Prefix([h] + a, [g] + b) <==> h == g && Prefix(a, b)
  {
    assert ([h] + a)[1..] == a && ([g] + b)[1..] == b;
    assert |a| <= |b| ==> ([g] + b)[..|a| + 1] == [g] + b[..|a|];
  }

  /** The half-open interval [n, Bump(n)) is exactly the set of OIDs that
      have n as a prefix. */
  lemma {:induction false} Region(n: Oid, x: Oid)
    requires n != []
    ensures Lt(n, Bump(n))
    ensures Leq(n, x) && Lt(x, Bump(n)) <==> Prefix(n, x)
  {
    var m := n[1..];
    var b, c := if m == [] then n[0] + 1 else n[0], if m == [] then [] else Bump(m);
    assert n == [n[0]] + m && Bump(n) == [b] + c;
    if m != [] { Region(m, if x == [] then [] else x[1..]); }
    Cons(n[0], m, b, c);
    if x != [] {
      assert x == [x[0]] + x[1..];
      Cons(n[0], m, x[0], x[1..]);
      Cons(x[0], x[1..], b, c);
    }
  }

  /** Everything in [[0], [3]) starts with sub-identifier 0, 1 or 2. */
  lemma UnderRoots(x: Oid)
    ensures Leq([0], x) && Lt(x, [3]) <==> x != [] && x[0] < 3
  {
    if x != [] {
      assert x == [x[0]] + x[1..] && [0] == [0] + [] && [3] == [3] + [];
      Cons(0, [], x[0], x[1..]);
      Cons(x[0], x[1..], 3, []);
    }
  }
}
