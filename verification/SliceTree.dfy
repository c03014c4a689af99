/** The registration tree as a value: the OID space [0, 3) cut into slices,
    each carrying the stack of registrations that compete for it. */
module SliceTree {
  import opened Oids

  /** A registration, as far as resolution is concerned. */
  datatype Reg = Reg(name: Oid, priority: int)

  datatype Slice = Slice(start: Oid, end: Oid, stack: seq<Reg>)

  /** The part [lo, hi) of its region that a registration currently covers. */
  datatype Extent = Extent(lo: Oid, hi: Oid)

  type Tree = seq<Slice>

  const DEFAULT_PRIORITY := 127
  const ROOTS: set<Reg> := {Reg([0], DEFAULT_PRIORITY), Reg([1], DEFAULT_PRIORITY), Reg([2], DEFAULT_PRIORITY)}

  /** The full region of a registration. */
  function Full(r: Reg): Extent
    requires r.name != []
  {
    Extent(r.name, Bump(r.name))
  }

  // ----- the reference definition: a plain set of registrations -----

  /** The preference order of section 7.1.4.1 of RFC 2741: the longer name
      wins, then the numerically smaller priority. */
  predicate Above(a: Reg, b: Reg) {
    |a.name| > |b.name| || (|a.name| == |b.name| && a.priority < b.priority)
  }

  /** r is the authoritative registration for x among the live ones. */
  predicate Authoritative(live: set<Reg>, x: Oid, r: Reg) {
    && r in live
    && Prefix(r.name, x)
    && forall q | q in live && Prefix(q.name, x) :: q == r || Above(r, q)
  }

  lemma AuthoritativeUnique(live: set<Reg>, x: Oid, a: Reg, b: Reg)
    requires Authoritative(live, x, a) && Authoritative(live, x, b)
    ensures a == b
  {
  }

  // ----- the shape of the tree -----

  /** Slices are non-empty, sorted and tile [0, 3) without gap or overlap. */
  ghost predicate Tiles(t: Tree) {
    && |t| > 0
    && t[0].start == [0]
    && t[|t| - 1].end == [3]
    && (forall i | 0 <= i < |t| :: Lt(t[i].start, t[i].end))
    && (forall i, j | 0 <= i < j < |t| ::
          Leq(t[i].end, t[j].start) && (j == i + 1 ==> t[i].end == t[j].start))
  }

  /** A stack is strictly ordered, best registration first. */
  ghost predicate Ordered(s: seq<Reg>) {
    forall a, b | 0 <= a < b < |s| :: Above(s[a], s[b])
  }

  predicate Within(e: Extent, s: Slice) { Leq(e.lo, s.start) && Leq(s.end, e.hi) }

  predicate Apart(e: Extent, s: Slice) {
    !Lt(e.lo, e.hi) || Leq(e.hi, s.start) || Leq(s.end, e.lo)
  }

  /** A slice fits the registrations of ext, each on its extent: the stack is
      ordered and holds exactly those whose extent meets the slice, and no
      extent ends in the middle of it. */
  ghost predicate Fits(s: Slice, ext: map<Reg, Extent>) {
    && s.stack != []
    && Ordered(s.stack)
    && (forall r | r in s.stack :: r in ext && Within(ext[r], s))
    && (forall r | r in ext :: r in s.stack || Apart(ext[r], s))
  }

  /** Extents lie inside the regions of well-formed names below the roots. */
  ghost predicate Proper(ext: map<Reg, Extent>) {
    forall r | r in ext :: r.name != [] && r.name[0] < 3
        && Leq(r.name, ext[r].lo) && Leq(ext[r].hi, Bump(r.name))
  }

  /** The tree represents the registrations of ext, each on its extent. */
  ghost predicate Represents(t: Tree, ext: map<Reg, Extent>) {
    Tiles(t) && Proper(ext) && forall i | 0 <= i < |t| :: Fits(t[i], ext)
  }

  /** Every registration of the set, on its full region. */
  function Whole(live: set<Reg>): map<Reg, Extent>
    requires forall r | r in live :: r.name != []
  {
    map r | r in live :: Full(r)
  }

  ghost predicate Nameable(live: set<Reg>) {
    forall r | r in live :: r.name != [] && r.name[0] < 3
  }

  /** The tree represents the whole regions of a set of live registrations. */
  ghost predicate Holds(t: Tree, live: set<Reg>) {
    Nameable(live) && ROOTS <= live && Represents(t, Whole(live))
  }

  // ----- resolution -----

  predicate At(t: Tree, i: int, x: Oid) {
    0 <= i < |t| && Leq(t[i].start, x) && Lt(x, t[i].end)
  }

  /** A point in both an extent and a slice keeps them from being apart. */
  lemma Meet(e: Extent, s: Slice, x: Oid)
    requires Leq(s.start, x) && Lt(x, s.end)
    ensures Leq(e.lo, x) && Lt(x, e.hi) ==> !Apart(e, s)
    ensures Within(e, s) ==> Leq(e.lo, x) && Lt(x, e.hi)
  {
    TotalOrder();
  }

  /** The slice of an OID is unique ... */
  lemma AtUnique(t: Tree, i: int, j: int, x: Oid)
    requires Tiles(t) && At(t, i, x) && At(t, j, x)
    ensures i == j
  {
    TotalOrder();
  }

  /** ... and exists exactly when the OID lies under a root. */
  lemma AtExists(t: Tree, x: Oid)
    requires Tiles(t)
    ensures x != [] && x[0] < 3 <==> exists i :: At(t, i, x)
  {
    TotalOrder();
    UnderRoots(x);
    if Leq([0], x) && Lt(x, [3]) {
      var i := 0;
      while i + 1 < |t| && Leq(t[i + 1].start, x)
        invariant 0 <= i < |t| && Leq(t[i].start, x)
      {
        i := i + 1;
      }
      assert At(t, i, x);
    }
    forall i | At(t, i, x) ensures Leq([0], x) && Lt(x, [3]) {
      assert i == 0 || Leq(t[0].end, t[i].start);
      assert i == |t| - 1 || Leq(t[i].end, t[|t| - 1].start);
    }
  }

  /** A stack is exactly the set of registrations whose extent contains a
      given point of the slice. */
  lemma StackAt(t: Tree, ext: map<Reg, Extent>, i: int, x: Oid, q: Reg)
    requires Represents(t, ext) && At(t, i, x)
    ensures q in t[i].stack <==> q in ext && Leq(ext[q].lo, x) && Lt(x, ext[q].hi)
  {
    if q in ext { Meet(ext[q], t[i], x); }
  }

  /** Main resolution theorem: the head of the slice that contains x is the
      authoritative registration of x. */
  lemma HeadIsAuthoritative(t: Tree, live: set<Reg>, i: int, x: Oid)
    requires Holds(t, live) && At(t, i, x)
    ensures Authoritative(live, x, t[i].stack[0])
  {
    var r := t[i].stack[0];
    assert r in t[i].stack;
    assert r in live && Prefix(r.name, x) by {
      StackAt(t, Whole(live), i, x, r);
      Region(r.name, x);
    }
    forall q | q in live && Prefix(q.name, x) ensures q == r || Above(r, q) {
      StackAt(t, Whole(live), i, x, q);
      Region(q.name, x);
    }
  }

  /** Where no slice contains x, no live registration covers it. */
  lemma NowhereIsUnregistered(t: Tree, live: set<Reg>, x: Oid)
    requires Holds(t, live) && !exists i :: At(t, i, x)
    ensures forall r | r in live :: !Prefix(r.name, x)
  {
    AtExists(t, x);
    forall r | r in live ensures !Prefix(r.name, x) {
      assert x == [] || x[0] != r.name[0];
    }
  }

  // ----- cutting a slice -----

  function SplitAt(t: Tree, i: nat, p: Oid): Tree
    requires i < |t|
  {
    t[..i] + [t[i].(end := p), t[i].(start := p)] + t[i + 1..]
  }

  /** Cutting a slice in two changes neither the tiling nor what is represented. */
  lemma SplitRepresents(t: Tree, ext: map<Reg, Extent>, i: nat, p: Oid)
    requires Represents(t, ext)
    requires i < |t| && Lt(t[i].start, p) && Lt(p, t[i].end)
    ensures Represents(SplitAt(t, i, p), ext)
  {
    SplitTiles(t, i, p);
    var u := SplitAt(t, i, p);
    assert Fits(t[i], ext);
    HalvesFit(t[i], ext, p);
    forall j | 0 <= j < |u| ensures Fits(u[j], ext) {
      assert j < i ==> u[j] == t[j];
      assert j > i + 1 ==> u[j] == t[j - 1];
    }
  }

  lemma SplitTiles(t: Tree, i: nat, p: Oid)
    requires Tiles(t)
    requires i < |t| && Lt(t[i].start, p) && Lt(p, t[i].end)
    ensures Tiles(SplitAt(t, i, p))
  {
    var u := SplitAt(t, i, p);
    assert u[i] == t[i].(end := p) && u[i + 1] == t[i].(start := p);
    forall j, k | 0 <= j < k < |u| ensures Leq(u[j].end, u[k].start) && (k == j + 1 ==> u[j].end == u[k].start) {
      var j', k' := if j <= i then j else j - 1, if k <= i then k else k - 1;
      if j' < k' {
        assert Leq(t[j'].end, t[k'].start) && Lt(t[i].start, t[i].end);
        TotalOrder();
      }
    }
  }

  lemma HalvesFit(s: Slice, ext: map<Reg, Extent>, p: Oid)
    requires Fits(s, ext) && Lt(s.start, p) && Lt(p, s.end)
    ensures Fits(s.(end := p), ext) && Fits(s.(start := p), ext)
  {
    TotalOrder();
  }

  // ----- merging one registration into one slice -----

  /** Where a registration belongs in a stack: below everything above it. */
  function Slot(s: seq<Reg>, r: Reg): (k: nat)
    ensures k <= |s|
    ensures forall j | 0 <= j < k :: Above(s[j], r)
    ensures k < |s| ==> !Above(s[k], r)
  {
    if s == [] || !Above(s[0], r) then 0 else 1 + Slot(s[1..], r)
  }

  function Placed(s: seq<Reg>, r: Reg): (w: seq<Reg>)
    ensures |w| == |s| + 1
    ensures forall q :: q in w <==> q == r || q in s
  {
    var k := Slot(s, r);
    assert forall q | q in s :: q in s[..k] || q in s[k..];
    s[..k] + [r] + s[k..]
  }

  lemma PlacedOrdered(s: seq<Reg>, r: Reg)
    requires Ordered(s) && forall q | q in s :: Above(q, r) || Above(r, q)
    ensures Ordered(Placed(s, r))
  {
    var k, w := Slot(s, r), Placed(s, r);
    assert w[..k] == s[..k] && w[k] == r && w[k + 1..] == s[k..];
    if k < |s| { assert s[k] in s; }
    forall a, b | 0 <= a < b < |w| ensures Above(w[a], w[b]) {
      assert a < k ==> w[a] == s[a];
      assert b < k ==> w[b] == s[b];
      assert a > k ==> w[a] == s[a - 1];
      assert b > k ==> w[b] == s[b - 1];
    }
  }

  function Insert(t: Tree, i: nat, r: Reg): Tree
    requires i < |t|
  {
    t[i := t[i].(stack := Placed(t[i].stack, r))]
  }

  /** Two registrations of one slice that agree on length and priority are the
      same registration: equal-length regions coincide or are disjoint. */
  lemma NoClash(s: Slice, ext: map<Reg, Extent>, q: Reg, r: Reg)
    requires Proper(ext) && Fits(s, ext) && Lt(s.start, s.end) && q in s.stack
    requires r.name != [] && Within(Full(r), s)
    requires |q.name| == |r.name| && q.priority == r.priority
    ensures q == r
  {
    TotalOrder();
    Region(q.name, s.start);
    Region(r.name, s.start);
  }

  /** Changing one extent leaves a slice fitting when it lies within the new
      extent exactly if within the old, or apart from both. */
  lemma ReachFits(s: Slice, ext: map<Reg, Extent>, r: Reg, e: Extent)
    requires Fits(s, ext) && r in ext
    requires Within(ext[r], s) ==> Within(e, s)
    requires Apart(ext[r], s) ==> Apart(e, s)
    ensures Fits(s, ext[r := e])
  {
  }

  lemma Restacked(t: Tree, i: nat, stack: seq<Reg>)
    requires i < |t| && Tiles(t)
    ensures Tiles(t[i := t[i].(stack := stack)])
  {
  }

  /** Merging r into the slice at which its extent currently ends extends it
      over that slice. */
  lemma InsertRepresents(t: Tree, ext: map<Reg, Extent>, i: nat, r: Reg)
    requires i < |t| && r in ext && Represents(t, ext) && ext[r].hi == t[i].start
    requires Leq(ext[r].lo, t[i].start) && Leq(t[i].end, Bump(r.name))
    ensures Represents(Insert(t, i, r), ext[r := Extent(ext[r].lo, t[i].end)])
  {
    var u, e := Insert(t, i, r), Extent(ext[r].lo, t[i].end);
    Restacked(t, i, Placed(t[i].stack, r));
    forall j | 0 <= j < |t| ensures Fits(u[j], ext[r := e]) {
      assert Fits(t[j], ext);
      if j == i {
        InsertFits(t[i], ext, r);
      } else {
        Neighbours(t, i, j);
        ReachHi(t[j], ext[r], t[i]);
        ReachFits(t[j], ext, r, e);
      }
    }
  }

  lemma Neighbours(t: Tree, i: int, j: int)
    requires Tiles(t) && 0 <= i < |t| && 0 <= j < |t| && i != j
    ensures Leq(t[i].end, t[j].start) || Leq(t[j].end, t[i].start)
    ensures Lt(t[i].start, t[i].end) && Lt(t[j].start, t[j].end)
  {
    assert i < j ==> Leq(t[i].end, t[j].start);
  }

  lemma ReachHi(s: Slice, e: Extent, g: Slice)
    requires Leq(g.end, s.start) || Leq(s.end, g.start)
    requires Lt(g.start, g.end) && Lt(s.start, s.end) && e.hi == g.start && Leq(e.lo, e.hi)
    ensures Within(e, s) ==> Within(Extent(e.lo, g.end), s)
    ensures Apart(e, s) ==> Apart(Extent(e.lo, g.end), s)
  {
    TotalOrder();
  }

  lemma ReachLo(s: Slice, e: Extent, g: Slice)
    requires Leq(g.end, s.start) || Leq(s.end, g.start)
    requires Lt(g.start, g.end) && Lt(s.start, s.end) && e.lo == g.start && Leq(g.end, e.hi)
    ensures Within(e, s) ==> Within(Extent(g.end, e.hi), s)
    ensures Apart(e, s) ==> Apart(Extent(g.end, e.hi), s)
  {
    TotalOrder();
  }

  lemma InsertFits(s: Slice, ext: map<Reg, Extent>, r: Reg)
    requires Proper(ext) && Fits(s, ext) && Lt(s.start, s.end)
    requires r in ext && ext[r].hi == s.start && Leq(ext[r].lo, s.start) && Leq(s.end, Bump(r.name))
    ensures Fits(s.(stack := Placed(s.stack, r)), ext[r := Extent(ext[r].lo, s.end)])
  {
    assert r !in s.stack && Within(Extent(ext[r].lo, s.end), s) && Leq(r.name, s.start) by { TotalOrder(); }
    forall q | q in s.stack ensures Above(q, r) || Above(r, q) {
      if |q.name| == |r.name| && q.priority == r.priority { NoClash(s, ext, q, r); }
    }
    PlacedOrdered(s.stack, r);
  }

  // ----- removing one registration from one slice -----

  function Without(s: seq<Reg>, r: Reg): (w: seq<Reg>)
    ensures forall q :: q in w <==> q in s && q != r
    ensures Ordered(s) ==> Ordered(w)
  {
    if s == [] then []
    else if s[0] == r then Without(s[1..], r)
    else
      var w := Without(s[1..], r);
      assert forall j | 0 <= j < |w| :: w[j] in s[1..];
      [s[0]] + w
  }

  function Remove(t: Tree, i: nat, r: Reg): Tree
    requires i < |t|
  {
    t[i := t[i].(stack := Without(t[i].stack, r))]
  }

  /** Every slice carries a root, so a stack never empties. */
  lemma RootBelow(t: Tree, ext: map<Reg, Extent>, i: nat)
    requires Represents(t, ext) && i < |t|
    requires forall q | q in ROOTS :: q in ext && ext[q] == Full(q)
    ensures exists q :: q in ROOTS && q in t[i].stack
  {
    var x := t[i].start;
    TotalOrder();
    assert At(t, i, x);
    AtExists(t, x);
    var q := Reg([x[0]], DEFAULT_PRIORITY);
    assert q in ROOTS;
    Region(q.name, x);
    assert x[..1] == [x[0]];
    StackAt(t, ext, i, x, q);
  }

  /** Removing r from the slice at which its extent starts shrinks it by that slice. */
  lemma RemoveRepresents(t: Tree, ext: map<Reg, Extent>, i: nat, r: Reg)
    requires i < |t| && r in ext && Represents(t, ext) && ext[r].lo == t[i].start
    requires r in t[i].stack && r !in ROOTS
    requires forall q | q in ROOTS :: q in ext && ext[q] == Full(q)
    ensures Represents(Remove(t, i, r), ext[r := Extent(t[i].end, ext[r].hi)])
  {
    var u, e := Remove(t, i, r), Extent(t[i].end, ext[r].hi);
    Restacked(t, i, Without(t[i].stack, r));
    assert Leq(r.name, e.lo) by { TotalOrder(); }
    forall j | 0 <= j < |t| ensures Fits(u[j], ext[r := e]) {
      assert Fits(t[j], ext);
      if j == i {
        RootBelow(t, ext, i);
        RemoveFits(t[i], ext, r);
      } else {
        Neighbours(t, i, j);
        ReachLo(t[j], ext[r], t[i]);
        ReachFits(t[j], ext, r, e);
      }
    }
  }

  lemma RemoveFits(s: Slice, ext: map<Reg, Extent>, r: Reg)
    requires Fits(s, ext) && Lt(s.start, s.end) && r in s.stack && ext[r].lo == s.start
    requires exists q :: q in ROOTS && q in s.stack
    requires r !in ROOTS
    ensures Fits(s.(stack := Without(s.stack, r)), ext[r := Extent(s.end, ext[r].hi)])
  {
    TotalOrder();
  }

  /** A registration on no slice may be forgotten. */
  lemma Forget(t: Tree, ext: map<Reg, Extent>, r: Reg)
    requires Represents(t, ext) && forall i | 0 <= i < |t| :: r !in t[i].stack
    ensures Represents(t, ext - {r})
  {
  }

  /** A registration not yet on any slice may be listed with an empty extent. */
  lemma Announce(t: Tree, ext: map<Reg, Extent>, r: Reg)
    requires Represents(t, ext) && r !in ext && r.name != [] && r.name[0] < 3
    ensures Represents(t, ext[r := Extent(r.name, r.name)])
  {
    TotalOrder();
    Region(r.name, r.name);
  }

  // ----- what the code can observe about a stack -----

  /** Is a registration of this length and priority already in the stack? */
  predicate Clash(s: seq<Reg>, r: Reg) {
    var k := Slot(s, r);
    k < |s| && |s[k].name| == |r.name| && s[k].priority == r.priority
  }

  /** On a slice inside its region, a registration clashes only with itself. */
  lemma ClashIsPresence(s: Slice, ext: map<Reg, Extent>, r: Reg)
    requires Proper(ext) && Fits(s, ext) && Lt(s.start, s.end) && r.name != [] && Within(Full(r), s)
    ensures Clash(s.stack, r) <==> r in s.stack
  {
    var k := Slot(s.stack, r);
    if r in s.stack {
      var j :| 0 <= j < |s.stack| && s.stack[j] == r;
      assert k == j;
    } else if Clash(s.stack, r) {
      NoClash(s, ext, s.stack[k], r);
    }
  }

  /** The registry keeps a pointer to the first stack's head. It stays right as
      long as nothing outranks the root [0] on the slice that starts there. */
  predicate Anchored(r: Reg) {
    !(r.name == [0] && r.priority < DEFAULT_PRIORITY)
  }

  ghost predicate Firm(ext: map<Reg, Extent>) {
    forall q | q in ext :: Anchored(q)
  }

  ghost predicate Rooted(ext: map<Reg, Extent>) {
    forall q | q in ROOTS :: q in ext && ext[q] == Full(q)
  }

  lemma OnlyRootAtZero(n: Oid)
    requires n != [] && Leq(n, [0])
    ensures n == [0]
  {
    assert n == [n[0]] + n[1..] && [0] == [0] + [];
    Cons(n[0], n[1..], 0, []);
  }

  /** A registration not yet there takes the head of the first stack exactly
      when it is not anchored: named [0], with a priority below the default. */
  lemma HeadOfFirst(t: Tree, ext: map<Reg, Extent>, r: Reg)
    requires Represents(t, ext) && Rooted(ext) && Firm(ext - {r})
    requires r.name != [] && Within(Full(r), t[0]) && r !in t[0].stack
    ensures Slot(t[0].stack, r) == 0 <==> !Anchored(r)
  {
    var s, root := t[0].stack, Reg([0], DEFAULT_PRIORITY);
    assert Fits(t[0], ext) && At(t, 0, [0]);
    OnlyRootAtZero(r.name);
    assert root in ROOTS;
    Region([0], [0]);
    StackAt(t, ext, 0, [0], root);
    StackIsLive(t, ext, 0);
    HeadIsRoot(t, ext);
    assert s[0] == root;
  }

  lemma HeadIsRoot(t: Tree, ext: map<Reg, Extent>)
    requires Represents(t, ext) && Rooted(ext) && (forall q | q in t[0].stack :: Anchored(q))
    ensures t[0].stack != [] && t[0].stack[0] == Reg([0], DEFAULT_PRIORITY)
  {
    var s, root := t[0].stack, Reg([0], DEFAULT_PRIORITY);
    assert Fits(t[0], ext) && At(t, 0, [0]);
    assert root in ROOTS;
    Region([0], [0]);
    StackAt(t, ext, 0, [0], root);
    assert s[0] in s && Leq(s[0].name, [0]) by { TotalOrder(); }
    OnlyRootAtZero(s[0].name);
  }

  lemma StackIsLive(t: Tree, ext: map<Reg, Extent>, i: nat)
    requires Represents(t, ext) && i < |t|
    ensures forall q | q in t[i].stack :: q in ext
  {
    assert Fits(t[i], ext);
  }

  /** With one registration outranking the root at the very start, the root is
      second. */
  lemma SecondIsRoot(t: Tree, ext: map<Reg, Extent>, r: Reg)
    requires Represents(t, ext) && Rooted(ext) && Firm(ext - {r}) && !Anchored(r) && r in t[0].stack
    ensures |t[0].stack| > 1 && t[0].stack[0] == r && t[0].stack[1] == Root(0)
  {
    var s := t[0].stack;
    assert Fits(t[0], ext) && At(t, 0, [0]);
    assert Root(0) in ROOTS;
    Region([0], [0]);
    StackAt(t, ext, 0, [0], Root(0));
    StackIsLive(t, ext, 0);
    forall q | q in s ensures q.name == [0] && (q == r || q.priority >= DEFAULT_PRIORITY) {
      assert Leq(q.name, [0]) by { TotalOrder(); }
      OnlyRootAtZero(q.name);
      assert q == r || q in ext - {r};
    }
    var i :| 0 <= i < |s| && s[i] == r;
    var j :| 0 <= j < |s| && s[j] == Root(0);
    assert s[1] in s;
  }

  /** Everything in a registration's region lies under the same root. */
  lemma CoveredStart(r: Reg, x: Oid)
    requires r.name != [] && r.name[0] < 3 && Leq(r.name, x) && Lt(x, Bump(r.name))
    ensures x != [] && x[0] < 3
  {
    Region(r.name, x);
    assert x[..|r.name|][0] == x[0];
  }

  ghost predicate Solid(t: Tree) {
    Tiles(t) && forall i | 0 <= i < |t| :: t[i].stack != []
  }

  // ----- stable states and the steps between them -----

  /** A tree between two steps of a load or unload, with its roots whole. */
  ghost predicate Settled(t: Tree, ext: map<Reg, Extent>) {
    Represents(t, ext) && Solid(t) && Rooted(ext)
  }

  /** [start, end) is what is left to load of r's region, or all of it when r
      is already loaded. */
  ghost predicate Piece(ext: map<Reg, Extent>, r: Reg, start: Oid, end: Oid) {
    && r in ext && r.name != [] && r.name[0] < 3
    && Lt(start, end) && Leq(r.name, start) && Leq(end, Bump(r.name))
    && ext[r].lo == r.name && (ext[r].hi == start || (ext[r] == Full(r) && start == r.name))
  }

  /** One merge: the clash test tells the two cases of Piece apart, and merging
      extends the loaded part by the slice. */
  lemma MergeStep(t: Tree, ext: map<Reg, Extent>, i: nat, r: Reg)
    requires Settled(t, ext) && i < |t| && Piece(ext, r, t[i].start, t[i].end)
    ensures Ordered(t[i].stack)
    ensures Clash(t[i].stack, r) <==> ext[r] == Full(r)
    ensures ext[r] != Full(r) ==>
              && Settled(Insert(t, i, r), ext[r := Extent(r.name, t[i].end)]) && Solid(Insert(t, i, r))
              && (i == 0 && Firm(ext - {r}) ==> (Slot(t[0].stack, r) == 0 <==> !Anchored(r)))
              && r !in ROOTS
  {
    assert Fits(t[i], ext);
    ClashIsPresence(t[i], ext, r);
    assert r in t[i].stack <==> ext[r] == Full(r) by { TotalOrder(); }
    if ext[r] != Full(r) {
      if i == 0 && Firm(ext - {r}) { HeadOfFirst(t, ext, r); }
      InsertRepresents(t, ext, i, r);
      MergeKeepsRoots(t, ext, i, r);
      assert Solid(Insert(t, i, r));
    }
  }

  lemma MergeKeepsRoots(t: Tree, ext: map<Reg, Extent>, i: nat, r: Reg)
    requires Settled(t, ext) && i < |t| && Piece(ext, r, t[i].start, t[i].end) && ext[r] != Full(r)
    ensures Rooted(ext[r := Extent(r.name, t[i].end)]) && r !in ROOTS
  {
  }

  /** What a split preserves. */
  lemma SplitStep(t: Tree, ext: map<Reg, Extent>, i: nat, p: Oid)
    requires Settled(t, ext) && i < |t| && Lt(t[i].start, p) && Lt(p, t[i].end)
    ensures Settled(SplitAt(t, i, p), ext) && Solid(SplitAt(t, i, p))
    ensures SplitAt(t, i, p)[i] == t[i].(end := p) && SplitAt(t, i, p)[i + 1] == t[i].(start := p)
    ensures forall j | 0 <= j < i :: SplitAt(t, i, p)[j] == t[j]
    ensures |SplitAt(t, i, p)| == |t| + 1
  {
    hide Fits, Tiles, Lt, Rooted;
    SplitRepresents(t, ext, i, p);
    RepresentsSolid(SplitAt(t, i, p), ext);
  }

  lemma RepresentsSolid(t: Tree, ext: map<Reg, Extent>)
    requires Represents(t, ext)
    ensures Solid(t)
  {
    hide Tiles, Ordered;
    assert forall i | 0 <= i < |t| :: Fits(t[i], ext);
  }

  // ----- how far a load still has to go -----

  /** Number of slices that start after x. */
  function Remaining(t: Tree, x: Oid): nat {
    if t == [] then 0 else Remaining(t[1..], x) + if Lt(x, t[0].start) then 1 else 0
  }

  lemma {:induction false} RemainingAt(t: Tree, i: nat, x: Oid)
    requires i < |t| && (forall j | 0 <= j <= i :: !Lt(x, t[j].start)) && (forall j | i < j < |t| :: Lt(x, t[j].start))
    ensures Remaining(t, x) == |t| - 1 - i
  {
    if i > 0 {
      RemainingAt(t[1..], i - 1, x);
    } else {
      RemainingAll(t[1..], x);
    }
  }

  lemma {:induction false} RemainingAll(t: Tree, x: Oid)
    requires forall j | 0 <= j < |t| :: Lt(x, t[j].start)
    ensures Remaining(t, x) == |t|
  {
    if t != [] { RemainingAll(t[1..], x); }
  }

  /** The slices that start after a point are those after its own slice. */
  lemma RemainingFrom(t: Tree, i: int, x: Oid)
    requires Tiles(t) && At(t, i, x)
    ensures Remaining(t, x) == |t| - 1 - i
  {
    TotalOrder();
    RemainingAt(t, i, x);
  }

  ghost predicate SameCuts(t: Tree, u: Tree) {
    |t| == |u| && forall i | 0 <= i < |t| :: t[i].start == u[i].start && t[i].end == u[i].end
  }

  lemma {:induction false} SameCutsRemaining(t: Tree, u: Tree, x: Oid)
    requires SameCuts(t, u)
    ensures Remaining(t, x) == Remaining(u, x)
  {
    if t != [] { SameCutsRemaining(t[1..], u[1..], x); }
  }

  /** A whole region that is already loaded begins at a slice boundary, and no
      slice there reaches beyond it; so a repeated registration is noticed
      before anything is split. */
  lemma PieceAt(t: Tree, ext: map<Reg, Extent>, i: int, r: Reg, start: Oid, end: Oid)
    requires Settled(t, ext) && Piece(ext, r, start, end) && At(t, i, start)
    ensures ext[r] == Full(r) ==> t[i].start == start
    ensures ext[r] == Full(r) && end == Bump(r.name) ==> Leq(t[i].end, end)
  {
    TotalOrder();
    Region(r.name, start);
    if ext[r] == Full(r) { StackAt(t, ext, i, start, r); }
  }

  /** Where a piece begins there is always a slice. */
  lemma PieceHasSlice(t: Tree, ext: map<Reg, Extent>, r: Reg, start: Oid, end: Oid)
    requires Settled(t, ext) && Piece(ext, r, start, end)
    ensures exists i :: At(t, i, start)
  {
    TotalOrder();
    CoveredStart(r, start);
    AtExists(t, start);
  }

  /** What remains of a piece after its first slice has been loaded. */
  lemma PieceRest(t: Tree, ext: map<Reg, Extent>, i: nat, r: Reg, end: Oid)
    requires Settled(t, ext) && i < |t| && Piece(ext, r, t[i].start, end) && Lt(t[i].end, end)
    ensures i + 1 < |t| && t[i + 1].start == t[i].end
    ensures Remaining(t, t[i].end) < Remaining(t, t[i].start)
    ensures Piece(ext, r, t[i].start, t[i].end)
    ensures ext[r] != Full(r) ==> Piece(ext[r := Extent(r.name, t[i].end)], r, t[i].end, end)
    ensures Extent(r.name, t[i].end) != Full(r)
  {
    TotalOrder();
    RemainingFrom(t, i, t[i].start);
    LastEnd(t, r, end);
    RemainingFrom(t, i + 1, t[i].end);
  }

  /** No region below the roots ends beyond the last slice. */
  lemma LastEnd(t: Tree, r: Reg, end: Oid)
    requires Tiles(t) && r.name != [] && r.name[0] < 3 && Leq(end, Bump(r.name))
    ensures Leq(end, t[|t| - 1].end)
  {
    var b := Bump(r.name);
    assert b == [b[0]] + b[1..] && [3] == [3] + [];
    Cons(b[0], b[1..], 3, []);
    TotalOrder();
  }

  /** Splitting so that a slice starts at p leaves as many slices after p. */
  lemma ApproachStep(t: Tree, ext: map<Reg, Extent>, i: int, p: Oid)
    requires Settled(t, ext) && At(t, i, p)
    ensures t[i].start != p ==>
              && Lt(t[i].start, p)
              && var u := SplitAt(t, i, p);
                 |u| == |t| + 1 && u[i + 1] == t[i].(start := p) && Remaining(u, p) == Remaining(t, p)
    ensures forall j | 0 <= j < |t| && t[j].start == p :: j == i
  {
    RemainingFrom(t, i, p);
    if t[i].start != p {
      SplitStep(t, ext, i, p);
      RemainingFrom(SplitAt(t, i, p), i + 1, p);
    }
    forall j | 0 <= j < |t| && t[j].start == p ensures j == i { AtUnique(t, i, j, p); }
  }

  /** With whole extents the tree stands for a plain set of registrations. */
  lemma SettledHolds(t: Tree, ext: map<Reg, Extent>)
    requires Settled(t, ext) && forall r | r in ext :: r.name != [] && ext[r] == Full(r)
    ensures Holds(t, ext.Keys)
  {
    assert Whole(ext.Keys) == ext;
  }

  /** How a registration starts out: its whole region is still to be loaded. */
  lemma AnnounceStep(t: Tree, ext: map<Reg, Extent>, r: Reg)
    requires Settled(t, ext) && r.name != [] && r.name[0] < 3
    requires r in ext ==> ext[r] == Full(r)
    ensures r !in ext ==> var e := ext[r := Extent(r.name, r.name)];
                          Settled(t, e) && Piece(e, r, r.name, Bump(r.name)) && e[r] != Full(r)
    ensures r in ext ==> Piece(ext, r, r.name, Bump(r.name))
  {
    Region(r.name, r.name);
    if r !in ext { Announce(t, ext, r); }
  }

  // ----- unregistering -----

  /** One step of an unregistration: the registration leaves the slice at which
      what is left of it begins. */
  lemma RemoveStep(t: Tree, ext: map<Reg, Extent>, i: nat, r: Reg)
    requires Settled(t, ext) && i < |t| && r in t[i].stack && r !in ROOTS && ext[r].lo == t[i].start
    ensures r in ext && Settled(Remove(t, i, r), ext[r := Extent(t[i].end, ext[r].hi)])
    ensures Solid(Remove(t, i, r)) && Ordered(t[i].stack) && |t[i].stack| >= 2
    ensures i == 0 && Firm(ext) ==> t[0].stack[0] != r
  {
    hide Tiles, Lt, Without;
    assert Fits(t[i], ext);
    RootBelow(t, ext, i);
    StackIsLive(t, ext, i);
    if i == 0 && Firm(ext) { HeadIsRoot(t, ext); }
    RemoveRepresents(t, ext, i, r);
    RepresentsSolid(Remove(t, i, r), ext[r := Extent(t[i].end, ext[r].hi)]);
    var q :| q in ROOTS && q in t[i].stack;
    TwoMembers(t[i].stack, q, r);
  }

  lemma TwoMembers(s: seq<Reg>, a: Reg, b: Reg)
    requires a in s && b in s && a != b
    ensures |s| >= 2
  {
  }

  /** Where an unregistration that has reached slice k stands. */
  function Frontier(t: Tree, k: nat): Oid
    requires k <= |t|
  {
    if k < |t| then t[k].start else if k > 0 then t[k - 1].end else []
  }

  /** The first slice that lacks the registration ends the unregistration: no
      later slice can still have it. */
  lemma GoneStep(t: Tree, ext: map<Reg, Extent>, k: nat, r: Reg)
    requires Settled(t, ext) && k <= |t| && r in ext && r !in ROOTS && ext[r].lo == Frontier(t, k)
    requires k < |t| ==> r !in t[k].stack
    ensures Settled(t, ext - {r})
  {
    forall j | 0 <= j < |t| ensures r !in t[j].stack {
      assert Fits(t[j], ext) && (k < |t| ==> Fits(t[k], ext));
      TotalOrder();
    }
    Forget(t, ext, r);
  }

  lemma FrontierStep(t: Tree, k: nat, r: Reg)
    requires Tiles(t) && k < |t|
    ensures Tiles(Remove(t, k, r)) && Frontier(Remove(t, k, r), k + 1) == t[k].end
  {
    Restacked(t, k, Without(t[k].stack, r));
  }

  /** A live registration is on the slice of its own name, from its start. */
  lemma LiveAtName(t: Tree, ext: map<Reg, Extent>, i: int, r: Reg)
    requires Settled(t, ext) && r.name != [] && At(t, i, r.name) && (r in ext ==> ext[r] == Full(r))
    ensures r in ext <==> r in t[i].stack
    ensures r in ext ==> t[i].start == r.name
  {
    Region(r.name, r.name);
    StackAt(t, ext, i, r.name, r);
    if r in t[i].stack {
      assert Fits(t[i], ext);
      TotalOrder();
    }
  }

  // ----- the initial tree -----

  function Root(k: nat): Reg { Reg([k], DEFAULT_PRIORITY) }

  /** The three roots, side by side. */
  const INITIAL: Tree := [Slice([0], [1], [Root(0)]), Slice([1], [2], [Root(1)]), Slice([2], [3], [Root(2)])]

  lemma SmallOrder()
    ensures Lt([0], [1]) && Lt([1], [2]) && Lt([2], [3])
    ensures Bump([0]) == [1] && Bump([1]) == [2] && Bump([2]) == [3]
  {
    assert [0] == [0] + [] && [1] == [1] + [] && [2] == [2] + [] && [3] == [3] + [];
    Cons(0, [], 1, []);
    Cons(1, [], 2, []);
    Cons(2, [], 3, []);
  }

  /** The slice of one root holds that root alone. */
  lemma RootFits(k: nat)
    requires k < 3
    ensures Fits(INITIAL[k], Whole(ROOTS))
  {
    hide Lt, Bump;
    SmallOrder();
    var s, ext := INITIAL[k], Whole(ROOTS);
    assert s.stack == [Root(k)] && Full(Root(k)) == Extent(s.start, s.end);
    forall r | r in ROOTS ensures r == Root(k) || Apart(ext[r], s) {
      assert r == Root(0) || r == Root(1) || r == Root(2);
      assert ext[r] == Full(r);
    }
  }

  lemma InitialSettled()
    ensures Settled(INITIAL, Whole(ROOTS)) && Solid(INITIAL)
  {
    hide Fits, Lt, Bump;
    RootFits(0);
    RootFits(1);
    RootFits(2);
    SmallOrder();
    assert Tiles(INITIAL) by { TotalOrder(); }
    assert Whole(ROOTS).Keys == ROOTS;
  }

  /** Registering a name whose region is exactly one slice. */
  lemma Loaded(t: Tree, live: set<Reg>, i: nat, r: Reg)
    requires (forall q | q in live :: q.name != []) && Settled(t, Whole(live)) && r !in live
    requires r.name != [] && r.name[0] < 3 && i < |t| && t[i].start == r.name && t[i].end == Bump(r.name)
    ensures Settled(Insert(t, i, r), Whole(live + {r})) && Holds(Insert(t, i, r), live + {r})
  {
    hide Represents, Rooted, Solid, Lt, Insert, Bump;
    var ext := Whole(live);
    AnnounceStep(t, ext, r);
    var e := ext[r := Extent(r.name, r.name)];
    MergeStep(t, e, i, r);
    assert e[r := Extent(r.name, t[i].end)] == Whole(live + {r});
    SettledHolds(Insert(t, i, r), Whole(live + {r}));
  }

  /** After setup and the registration of {1} with a handler of its own. */
  const OWN_ROOT: Tree := [Slice([0], [1], [Root(0)]), Slice([1], [2], [Reg([1], 100), Root(1)]), Slice([2], [3], [Root(2)])]

  lemma OwnRoot()
    ensures Holds(OWN_ROOT, ROOTS + {Reg([1], 100)}) && Anchored(Reg([1], 100))
  {
    hide Settled, Holds, Lt, Bump, Slot;
    var r := Reg([1], 100);
    InitialSettled();
    SmallOrder();
    FirstPlaced(r, Root(1));
    assert Insert(INITIAL, 1, r) == OWN_ROOT;
    Loaded(INITIAL, ROOTS, 1, r);
  }

  lemma FirstPlaced(r: Reg, q: Reg)
    requires Above(r, q)
    ensures Placed([q], r) == [r, q]
  {
  }

  /** After setup and the registration of {1 5}. */
  const LEAF := Reg([1, 5], DEFAULT_PRIORITY)
  const LEAF_TREE: Tree := [Slice([0], [1], [Root(0)]), Slice([1], [1, 5], [Root(1)]),
                            Slice([1, 5], [1, 6], [LEAF, Root(1)]), Slice([1, 6], [2], [Root(1)]),
                            Slice([2], [3], [Root(2)])]

  lemma LeafTree()
    ensures Holds(LEAF_TREE, ROOTS + {LEAF})
  {
    hide Settled, Holds, Slot, Lt, Bump;
    InitialSettled();
    LeafOrder();
    SplitStep(INITIAL, Whole(ROOTS), 1, [1, 5]);
    var u := SplitAt(INITIAL, 1, [1, 5]);
    SplitStep(u, Whole(ROOTS), 2, [1, 6]);
    var v := SplitAt(u, 2, [1, 6]);
    FirstPlaced(LEAF, Root(1));
    assert Insert(v, 2, LEAF) == LEAF_TREE;
    Loaded(v, ROOTS, 2, LEAF);
  }

  lemma LeafOrder()
    ensures Lt([1], [1, 5]) && Lt([1, 5], [2]) && Lt([1, 5], [1, 6]) && Lt([1, 6], [2]) && Bump([1, 5]) == [1, 6]
    ensures Lt([1, 5], [1, 5, 2]) && Lt([1, 5, 2], [1, 6])
  {
  }

  /** {0} below the default priority outranks the root at {0}. */
  lemma Outranks()
    ensures var r := Reg([0], DEFAULT_PRIORITY - 1);
            && !Anchored(r) && r !in ROOTS
            && Authoritative(ROOTS + {r}, [0], r) && Prefix(Root(0).name, [0]) && Root(0) in ROOTS
  {
    var live := ROOTS + {Reg([0], DEFAULT_PRIORITY - 1)};
    assert forall q | q in live && Prefix(q.name, [0]) :: q.name == [0];
  }

  /** Number of leading slices that start at or before x: what a scan without
      cache and without comparison skip computes. */
  function Scan(t: Tree, x: Oid, i: nat): (k: nat)
    requires i <= |t|
    decreases |t| - i
    ensures i <= k <= |t|
  {
    if i < |t| && !Lt(x, t[i].start) then Scan(t, x, i + 1) else i
  }

  lemma {:induction false} ScanFrom(t: Tree, x: Oid, i: nat, k: nat)
    requires i <= k <= |t| && forall j | i <= j < k :: Leq(t[j].start, x)
    requires k < |t| ==> Lt(x, t[k].start)
    ensures Scan(t, x, i) == k
    decreases k - i
  {
    if i < k {
      Trichotomy(t[i].start, x);
      ScanFrom(t, x, i + 1, k);
    }
  }

  /** A scan from slice from on ends just past the slice of x, if x has one
      there. */
  lemma ScanFinds(t: Tree, x: Oid, from: nat)
    requires Tiles(t) && from <= |t|
    ensures var k := Scan(t, x, from);
            if k > from && Lt(x, t[k - 1].end) then At(t, k - 1, x) else !exists i :: from <= i && At(t, i, x)
  {
    TotalOrder();
    var k := from;
    while k < |t| && Leq(t[k].start, x)
      invariant from <= k <= |t| && forall j | from <= j < k :: Leq(t[j].start, x)
    {
      k := k + 1;
    }
    ScanFrom(t, x, from, k);
    assert forall i | from <= i < k - 1 :: Leq(t[i].end, t[k - 1].start);
    assert forall i | k < i < |t| :: Leq(t[k].end, t[i].start);
  }

  /** A scan may start anywhere before its end. */
  lemma {:induction false} ScanOn(t: Tree, x: Oid, i: nat)
    requires i <= |t| && forall j | 0 <= j < i :: Leq(t[j].start, x)
    ensures Scan(t, x, 0) == Scan(t, x, i)
  {
    if i > 0 {
      ScanOn(t, x, i - 1);
      Trichotomy(t[i - 1].start, x);
    }
  }
}
