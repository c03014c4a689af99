/** The GETNEXT search: each varbind is handed from slice to slice until some
    handler has an instance that the requester may see. */
module GetNext {
  import opened Oids
  import opened SliceTree

  datatype VarType = Null | Retry | EndOfMibView | Value(v: int)

  /** Everything a search depends on: the slices, the instances with their
      values, the access view, and what the access check says of subtrees. */
  datatype World = World(t: Tree, mib: map<Oid, int>, inView: Oid -> bool, excluded: Oid -> bool)

  /** One varbind of the request and its search state: the slice it was last
      given to, and whether that slice's handlers have yet to answer. */
  datatype Request = Request(name: Oid, typ: VarType, inclusive: bool, at: nat, cached: bool, delegated: bool)

  // ----- what the answer should be -----

  /** Can the search reach slice k at all? It looks for the longest common
      prefix of the two ends and passes over a slice that has none. */
  predicate Searchable(t: Tree, k: nat)
    requires k < |t|
  {
    t[k].start != [] && t[k].end != [] && t[k].start[0] == t[k].end[0]
  }

  /** An instance that the search can find and the requester may see. */
  ghost predicate Visible(w: World, x: Oid) {
    x in w.mib && w.inView(x) && exists k: nat {:trigger InSlice(w.t, k, x)} :: InSlice(w.t, k, x) && Searchable(w.t, k)
  }

  /** x lies in slice k. */
  predicate InSlice(t: Tree, k: nat, x: Oid) { At(t, k, x) }

  /** The rule of section 4.2.2 of RFC 3416: the first instance strictly after
      the requested name, or endOfMibView under that name. */
  ghost predicate Correct(w: World, name: Oid, r: Request) {
    if exists x :: Visible(w, x) && Lt(name, x)
    then
      && Visible(w, r.name) && Lt(name, r.name) && r.typ == Value(w.mib[r.name])
      && forall x | Visible(w, x) && Lt(name, x) :: Leq(r.name, x)
    else r.typ == EndOfMibView && r.name == name
  }

  /** An instance that the requester may see, whether or not the search can
      find it. */
  ghost predicate Present(w: World, x: Oid) {
    x in w.mib && w.inView(x) && exists k: nat {:trigger InSlice(w.t, k, x)} :: InSlice(w.t, k, x)
  }

  ghost predicate TrulyCorrect(w: World, name: Oid, r: Request) {
    if exists x :: Present(w, x) && Lt(name, x)
    then
      && Present(w, r.name) && Lt(name, r.name) && r.typ == Value(w.mib[r.name])
      && forall x | Present(w, x) && Lt(name, x) :: Leq(r.name, x)
    else r.typ == EndOfMibView && r.name == name
  }

  /** The answer among all instances is right exactly when none that the search
      cannot find comes after the name and before everything that it can find.
      By SearchableSlice below, such an instance lies in a slice that is headed
      by a registration of a single sub-identifier. */
  lemma Overlooked(w: World, name: Oid, r: Request)
    requires Correct(w, name, r)
    ensures TrulyCorrect(w, name, r) <==>
            !exists x :: Present(w, x) && !Visible(w, x) && Lt(name, x) && forall y | Visible(w, y) && Lt(name, y) :: Lt(x, y)
  {
    TotalOrder();
    assert forall x :: Visible(w, x) ==> Present(w, x) by { hide Lt; }
    hide Lt, Visible, Present;
    if x :| Present(w, x) && !Visible(w, x) && Lt(name, x) && forall y | Visible(w, y) && Lt(name, y) :: Lt(x, y) {
      assert !(TrulyCorrect(w, name, r) && r.typ.Value? && Leq(r.name, x));
    } else if x :| Present(w, x) && Lt(name, x) {
      assert r.typ == EndOfMibView ==> Visible(w, x);
    }
  }

  /** Slices owned by a registration of two or more sub-identifiers are always
      searched; only one headed by a registration of a single sub-identifier can
      be passed over for lack of a common prefix. */
  lemma SearchableSlice(t: Tree, ext: map<Reg, Extent>, k: nat)
    requires Represents(t, ext) && k < |t| && |t[k].stack[0].name| >= 2
    ensures Searchable(t, k)
  {
    var s, r := t[k], t[k].stack[0];
    assert Fits(s, ext) && r in s.stack;
    TotalOrder();
    var n := r.name;
    assert Leq(n, s.start) && Lt(n, s.end) && Leq(s.end, Bump(n)) && Lt(s.start, Bump(n));
    HeadAtLeast(n, s.start);
    HeadAtLeast(n, s.end);
    HeadAtLeast(s.end, Bump(n));
    HeadAtLeast(s.start, Bump(n));
  }

  lemma HeadAtLeast(a: Oid, b: Oid)
    requires a != [] && Leq(a, b)
    ensures b != [] && a[0] <= b[0]
  {
  }

  /** It does happen: when {1} is registered with a handler of its own, an
      instance below it is present and never found. */
  lemma OverlookedHappens()
    ensures exists w: World, live: set<Reg>, r: Request ::
              Holds(w.t, live) && Sensible(w) && Correct(w, [1], r) && !TrulyCorrect(w, [1], r)
  {
    hide Searchable, Lt, TrulyCorrect, Visible, Tiles, Holds;
    var w := World(OWN_ROOT, map[[1, 5] := 7], x => true, p => false);
    var live := ROOTS + {Reg([1], 100)};
    var r := Request([1], EndOfMibView, false, 0, false, false);
    OwnRoot();
    HoldsTiles(w.t, live);
    LeafOrder();
    assert InSlice(w.t, 1, [1, 5]);
    assert Present(w, [1, 5]);
    RootsUnsearchable(w);
    assert Correct(w, [1], r);
    Overlooked(w, [1], r);
  }

  lemma HoldsTiles(t: Tree, live: set<Reg>)
    requires Holds(t, live)
    ensures Tiles(t)
  {
  }

  lemma RootsUnsearchable(w: World)
    requires w.t == OWN_ROOT
    ensures forall x :: !Visible(w, x)
  {
    assert forall k: nat | k < |w.t| :: w.t[k].start == [k] && w.t[k].end == [k + 1];
  }

  // ----- what handlers may do -----

  predicate After(name: Oid, inclusive: bool, x: Oid) { Lt(name, x) || (inclusive && x == name) }

  /** Instances of slice k that a question can be answered with. */
  ghost predicate Candidate(w: World, name: Oid, inclusive: bool, k: nat, x: Oid) {
    x in w.mib && InSlice(w.t, k, x) && After(name, inclusive, x)
  }

  /** A slice's handlers answer with the first candidate, or ask to be called
      again under the same or a later name that passes over no candidate. If
      there is none they leave the varbind alone, say so, or answer with
      something past the slice. */
  ghost predicate Honest(w: World, name: Oid, inclusive: bool, k: nat, name': Oid, typ': VarType)
    requires k < |w.t|
  {
    if typ' == Retry then Leq(name, name') && forall x | Candidate(w, name, inclusive, k, x) :: After(name', inclusive, x)
    else if exists x :: Candidate(w, name, inclusive, k, x)
    then
      && Candidate(w, name, inclusive, k, name') && typ' == Value(w.mib[name'])
      && forall x | Candidate(w, name, inclusive, k, x) :: Leq(name', x)
    else
      || (name' == name && (typ' == Null || typ' == EndOfMibView))
      || (Leq(w.t[k].end, name') && (typ'.Value? || typ' == EndOfMibView))
  }

  /** The answers that bring the search no further: the handlers ask to be
      called again, or say endOfMibView under the name they were asked about
      while that name is outside the view. */
  predicate Again(w: World, r: Request, name: Oid) {
    if r.typ == Retry then r.at < |w.t| && Lt(r.name, w.t[r.at].end)
    else r.typ == EndOfMibView && r.name == name && !w.inView(name)
  }

  // ----- the steps of one pass, for one varbind -----

  function FindPrefix(a: Oid, b: Oid): int {
    if a == [] || b == [] then -1 else Common(a, b)
  }

  /** The access check passes over slice k as a whole. */
  predicate Hidden(w: World, k: nat)
    requires k < |w.t|
  {
    var n := FindPrefix(w.t[k].start, w.t[k].end);
    n < 1 || w.excluded(w.t[k].start[..n])
  }

  /** The first slice from k on that is worth searching. */
  function Skip(w: World, k: nat): (j: nat)
    requires k <= |w.t|
    ensures k <= j <= |w.t| && (j < |w.t| ==> !Hidden(w, j))
    ensures forall i | k <= i < j :: Hidden(w, i)
    decreases |w.t| - k
  {
    if k < |w.t| && Hidden(w, k) then Skip(w, k + 1) else k
  }

  /** Hand the varbind to slice k or the first one after it that is worth
      searching; if there is none, the end of the MIB view is reached. */
  function Assign(w: World, r: Request, k: nat): Request
    requires k <= |w.t|
  {
    var j := Skip(w, k);
    if j == |w.t| then r.(typ := EndOfMibView, cached := false)
    else r.(typ := Null, at := j, cached := true, delegated := false)
  }

  /** Drop an answer that the requester may not see. */
  function Screened(w: World, r: Request): Request {
    if r.cached && r.typ != Null && r.typ != Retry && !w.inView(r.name)
    then r.(typ := Retry, inclusive := false)
    else r
  }

  /** Replace an answer from past the slice, or an illegal one, by nothing. */
  function Checked(w: World, r: Request): Request
    requires r.cached ==> r.at < |w.t|
  {
    if !r.cached then r
    else
      var r' := if Leq(w.t[r.at].end, r.name)
                then r.(inclusive := true, name := w.t[r.at].end, typ := Null)
                else r;
      if r'.typ == EndOfMibView then r'.(typ := Null, inclusive := true) else r'
  }

  /** Give varbinds without an answer to the next slice, and retried ones to
      the same slice again. */
  function Reassigned(w: World, r: Request): Request
    requires r.cached ==> r.at < |w.t|
    requires r.typ == Null || r.typ == Retry ==> r.cached
  {
    if r.typ == Null then Assign(w, r, r.at + 1)
    else if r.typ == Retry then Assign(w, r.(typ := Null), r.at)
    else r.(cached := false)
  }

  // ----- one varbind: what is known between passes -----

  /** The access check tells no lies about whole subtrees. */
  ghost predicate Sensible(w: World) {
    && Tiles(w.t)
    && forall p, x {:trigger w.excluded(p), w.inView(x)} :: w.excluded(p) && Prefix(p, x) ==> !w.inView(x)
  }

  /** Question (name, inclusive) to slice k overlooks nothing, and every
      candidate lies after the requested name. Past the last slice there is
      nothing left to find. */
  ghost predicate Sound(w: World, want: Oid, name: Oid, inclusive: bool, k: nat) {
    if k < |w.t| then
      && Lt(want, w.t[k].end) && Lt(name, w.t[k].end)
      && (forall x | Visible(w, x) && Lt(want, x) :: Leq(w.t[k].start, x) && After(name, inclusive, x))
      && (forall x | InSlice(w.t, k, x) && After(name, inclusive, x) :: Lt(want, x))
    else forall x :: !(Visible(w, x) && Lt(want, x))
  }

  ghost predicate Asked(w: World, want: Oid, name: Oid, inclusive: bool, k: nat) {
    k < |w.t| && !Hidden(w, k) && Sound(w, want, name, inclusive, k)
  }

  lemma Between(p: Oid, n: nat, a: Oid, b: Oid, x: Oid)
    requires n <= |a| && n <= |b| && a[..n] == b[..n] == p
    requires Leq(a, x) && Lt(x, b)
    ensures Prefix(p, x)
  {
    if n > 0 {
      assert a == [a[0]] + a[1..] && b == [b[0]] + b[1..];
      assert a[0] == a[..n][0] == b[..n][0] == b[0];
      assert a[1..][..n - 1] == a[..n][1..] && b[1..][..n - 1] == b[..n][1..];
      assert x != [] && x == [x[0]] + x[1..];
      Cons(a[0], a[1..], x[0], x[1..]);
      Cons(x[0], x[1..], b[0], b[1..]);
      Between(p[1..], n - 1, a[1..], b[1..], x[1..]);
      assert p == [p[0]] + p[1..];
      Cons(p[0], p[1..], x[0], x[1..]);
    }
  }

  /** Nothing visible lies in a slice that is passed over. */
  lemma HiddenHasNothing(w: World, k: nat, x: Oid)
    requires Sensible(w) && k < |w.t| && Hidden(w, k) && InSlice(w.t, k, x)
    ensures !Visible(w, x)
  {
    var s := w.t[k];
    var n := FindPrefix(s.start, s.end);
    if Visible(w, x) {
      var j: nat :| InSlice(w.t, j, x) && Searchable(w.t, j);
      AtUnique(w.t, j, k, x);
      assert n >= 1;
      Between(s.start[..n], n, s.start, s.end, x);
    }
  }

  function Fixed(want: Oid, r: Request): Request {
    if r.typ == EndOfMibView then r.(name := want) else r
  }

  /** The instances a question to slice k can still be answered with. */
  ghost function Candidates(w: World, name: Oid, inclusive: bool, k: nat): set<Oid> {
    set x | x in w.mib.Keys && Candidate(w, name, inclusive, k, x)
  }

  /** How much searching is left: slices first, then candidates. */
  ghost function Left(w: World, name: Oid, inclusive: bool, k: nat): nat
    requires k <= |w.t|
  {
    (|w.t| - k) * (|w.mib.Keys| + 1) + |Candidates(w, name, inclusive, k)|
  }

  lemma Product(a: nat, b: nat, m: nat)
    requires a < b
    ensures a * m + m <= b * m
  {
    if b == a + 1 {
      assert (a + 1) * m == a * m + m;
    } else {
      Product(a, b - 1, m);
      assert (b - 1) * m + m == b * m;
    }
  }

  lemma LeftBySlice(w: World, name: Oid, inclusive: bool, k: nat, name': Oid, inclusive': bool, k': nat)
    requires k < k' <= |w.t|
    ensures Left(w, name', inclusive', k') < Left(w, name, inclusive, k)
  {
    hide Candidate;
    CardinalitySub(Candidates(w, name', inclusive', k'), w.mib.Keys);
    Product(|w.t| - k', |w.t| - k, |w.mib.Keys| + 1);
  }

  lemma CardinalitySub<T>(a: set<T>, b: set<T>)
    requires a <= b
    ensures |a| <= |b| && (a != b ==> |a| < |b|)
  {
    assert b == a + (b - a) && a * (b - a) == {};
  }

  lemma LeftByCandidate(w: World, name: Oid, inclusive: bool, k: nat, x: Oid)
    requires k <= |w.t| && Candidate(w, name, inclusive, k, x)
    ensures Left(w, x, false, k) < Left(w, name, inclusive, k)
  {
    TotalOrder();
    var a, b := Candidates(w, x, false, k), Candidates(w, name, inclusive, k);
    assert x in b && x !in a;
    CardinalitySub(a, b);
  }

  lemma VisibleSomewhere(w: World, x: Oid)
    requires Visible(w, x) && Tiles(w.t)
    ensures Lt(x, [3])
  {
    var k: nat :| InSlice(w.t, k, x) && Searchable(w.t, k);
    TotalOrder();
    assert k < |w.t| - 1 ==> Leq(w.t[k].end, w.t[|w.t| - 1].start);
  }

  /** When slice k has nothing (more) to offer, the search may move on. */
  lemma SoundNext(w: World, want: Oid, name: Oid, inclusive: bool, k: nat, name': Oid, inclusive': bool)
    requires Sensible(w) && k < |w.t| && Sound(w, want, name, inclusive, k)
    requires forall x | Visible(w, x) && Lt(want, x) :: !InSlice(w.t, k, x)
    requires (name' == name && (inclusive ==> inclusive')) || (name' == w.t[k].end && inclusive')
    ensures Sound(w, want, name', inclusive', k + 1)
  {
    hide Visible, Hidden;
    TotalOrder();
    forall x | Visible(w, x) && Lt(want, x) ensures Leq(w.t[k].end, x) && After(name', inclusive', x) && Lt(x, [3]) {
      VisibleSomewhere(w, x);
      Trichotomy(x, w.t[k].end);
    }
  }

  /** Passing over hidden slices overlooks nothing. */
  lemma {:induction false} SoundSkip(w: World, want: Oid, name: Oid, inclusive: bool, k: nat)
    requires Sensible(w) && k <= |w.t| && Sound(w, want, name, inclusive, k)
    ensures Sound(w, want, name, inclusive, Skip(w, k))
    decreases |w.t| - k
  {
    hide Sound, Visible, Sensible;
    if k < |w.t| && Hidden(w, k) {
      forall x | Visible(w, x) && Lt(want, x) ensures !InSlice(w.t, k, x) {
        if InSlice(w.t, k, x) {
          HiddenHasNothing(w, k, x);
        }
      }
      SoundNext(w, want, name, inclusive, k, name, inclusive);
      SoundSkip(w, want, name, inclusive, k + 1);
    }
  }

  lemma Assigned(w: World, want: Oid, r: Request, k: nat)
    requires Sensible(w) && k <= |w.t| && Sound(w, want, r.name, r.inclusive, k)
    ensures var r' := Assign(w, r, k);
            if r'.cached then Asked(w, want, r'.name, r'.inclusive, r'.at) && r'.at >= k
            else Correct(w, want, Fixed(want, r'))
  {
    SoundSkip(w, want, r.name, r.inclusive, k);
  }

  /** A varbind is still in the search, with its slice's answer if that is not
      delegated; or its answer is final. */
  ghost predicate Searching(w: World, want: Oid, r: Request, name: Oid, inclusive: bool) {
    if r.cached then
      && want != [] && Asked(w, want, name, inclusive, r.at) && r.inclusive == inclusive
      && (if r.delegated then r.name == name && r.typ == Null
          else Honest(w, name, inclusive, r.at, r.name, r.typ))
    else Final(r) && Delivered(w, want, Fixed(want, r))
  }

  predicate Final(r: Request) { r.typ.Value? || r.typ == EndOfMibView }

  /** The answer is the right one. An empty name, which no request carries, is
      not even searched for. */
  ghost predicate Delivered(w: World, want: Oid, r: Request) {
    if want == [] then r.typ == EndOfMibView && r.name == [] else Correct(w, want, r)
  }

  function Pass(w: World, r: Request): Request
    requires r.cached ==> r.at < |w.t|
    requires r.typ == Null || r.typ == Retry ==> r.cached
  {
    Reassigned(w, Checked(w, Screened(w, r)))
  }

  /** The heart of the search: one pass brings a varbind's final answer or asks
      a sound question, and it gets ahead (with less left to search) exactly
      unless the handlers' answer is one of those that bring it no further. */
  lemma PassStep(w: World, want: Oid, r: Request, name: Oid, inclusive: bool)
    requires Sensible(w) && r.cached && !r.delegated && Searching(w, want, r, name, inclusive)
    ensures var r' := Pass(w, r);
            && (if r'.cached
                then Asked(w, want, r'.name, r'.inclusive, r'.at)
                     && Left(w, r'.name, r'.inclusive, r'.at) <= Left(w, name, inclusive, r.at)
                else Correct(w, want, Fixed(want, r')))
            && (Again(w, r, name) <==>
                r'.cached && Left(w, r'.name, r'.inclusive, r'.at) == Left(w, name, inclusive, r.at))
  {
    hide Sound, Hidden, Left, Visible, Tiles, Lt, Pass;
    var k := r.at;
    if Again(w, r, name) {
      Stalled(w, want, r, name, inclusive);
    } else if r.typ == Retry || !exists x :: Candidate(w, name, inclusive, k, x) {
      Nothing(w, want, r, name, inclusive);
    } else if w.inView(r.name) {
      Found(w, want, r, name, inclusive);
    } else {
      Unseen(w, want, r, name, inclusive);
    }
  }

  /** Such an answer leaves the varbind where it was: the same slice is asked
      again, about the same name unless a retry moved it, with as much left to
      search as before. */
  lemma Stalled(w: World, want: Oid, r: Request, name: Oid, inclusive: bool)
    requires Sensible(w) && r.cached && !r.delegated && Searching(w, want, r, name, inclusive) && Again(w, r, name)
    ensures var r' := Pass(w, r);
            && r' == r.(typ := Null, inclusive := inclusive && r.typ == Retry)
            && Asked(w, want, r'.name, r'.inclusive, r'.at)
            && Left(w, r'.name, r'.inclusive, r'.at) == Left(w, name, inclusive, r.at)
  {
    hide Hidden, Tiles, Lt, Skip, Left, Visible;
    TotalOrder();
    SkipNone(w, r.at);
    SameCandidates(w, name, inclusive, r.at, r.name, inclusive && r.typ == Retry);
    forall x | Visible(w, x) && Lt(want, x) ensures After(r.name, inclusive && r.typ == Retry, x) {
      if Lt(x, w.t[r.at].end) {
        VisibleIn(w, r.at, x);
        assert Candidate(w, name, inclusive, r.at, x);
      }
    }
  }

  lemma VisibleIn(w: World, k: nat, x: Oid)
    requires Visible(w, x) && k < |w.t| && Leq(w.t[k].start, x) && Lt(x, w.t[k].end)
    ensures x in w.mib && InSlice(w.t, k, x)
  {
  }

  lemma SameCandidates(w: World, name: Oid, inclusive: bool, k: nat, name': Oid, inclusive': bool)
    requires k < |w.t| && Leq(name, name') && (inclusive' ==> inclusive)
    requires forall x | Candidate(w, name, inclusive, k, x) :: After(name', inclusive', x)
    ensures Left(w, name', inclusive', k) == Left(w, name, inclusive, k)
  {
    TotalOrder();
    assert Candidates(w, name', inclusive', k) == Candidates(w, name, inclusive, k);
  }

  lemma NotHidden(w: World, k: nat)
    requires k < |w.t| && !Hidden(w, k)
    ensures Searchable(w.t, k)
  {
  }

  /** A sound question's first candidate comes before anything visible. */
  lemma FirstIsFirst(w: World, want: Oid, name: Oid, inclusive: bool, k: nat, first: Oid)
    requires Tiles(w.t) && k < |w.t| && Sound(w, want, name, inclusive, k)
    requires Candidate(w, name, inclusive, k, first)
    requires forall x | Candidate(w, name, inclusive, k, x) :: Leq(first, x)
    ensures forall x | Visible(w, x) && Lt(want, x) :: Leq(first, x)
    ensures Lt(want, first) && Lt(first, w.t[k].end) && !Leq(w.t[k].end, first)
  {
    hide Tiles, Searchable, Lt;
    TotalOrder();
    forall x | Visible(w, x) && Lt(want, x) ensures Leq(first, x) {
      if Lt(x, w.t[k].end) {
        assert Candidate(w, name, inclusive, k, x);
      }
    }
  }

  /** The slice's first candidate is visible: it is the answer. */
  lemma Found(w: World, want: Oid, r: Request, name: Oid, inclusive: bool)
    requires Sensible(w) && r.cached && !r.delegated && Searching(w, want, r, name, inclusive)
    requires Candidate(w, name, inclusive, r.at, r.name) && w.inView(r.name)
    requires forall x | Candidate(w, name, inclusive, r.at, x) :: Leq(r.name, x)
    requires r.typ == Value(w.mib[r.name])
    ensures Pass(w, r) == r.(cached := false) && Correct(w, want, r)
  {
    hide Sound, Hidden, Tiles, Lt, Searchable;
    FirstIsFirst(w, want, name, inclusive, r.at, r.name);
    NotHidden(w, r.at);
    assert InSlice(w.t, r.at, r.name);
    assert Visible(w, r.name);
  }

  lemma SkipNone(w: World, k: nat)
    requires k < |w.t| && !Hidden(w, k)
    ensures Skip(w, k) == k
  {
  }

  /** The slice's first candidate is not visible: ask again after it. */
  lemma Unseen(w: World, want: Oid, r: Request, name: Oid, inclusive: bool)
    requires Sensible(w) && r.cached && !r.delegated && Searching(w, want, r, name, inclusive)
    requires Candidate(w, name, inclusive, r.at, r.name) && !w.inView(r.name) && r.typ.Value?
    requires forall x | Candidate(w, name, inclusive, r.at, x) :: Leq(r.name, x)
    ensures var r' := Pass(w, r);
            && r' == r.(typ := Null, inclusive := false) && Asked(w, want, r.name, false, r.at)
            && Left(w, r.name, false, r.at) < Left(w, name, inclusive, r.at)
  {
    hide Left, Hidden, Lt, Skip, Tiles;
    SkipNone(w, r.at);
    LeftByCandidate(w, name, inclusive, r.at, r.name);
    FirstIsFirst(w, want, name, inclusive, r.at, r.name);
    AskAfter(w, want, name, inclusive, r.at, r.name);
  }

  lemma AskAfter(w: World, want: Oid, name: Oid, inclusive: bool, k: nat, first: Oid)
    requires Tiles(w.t) && Asked(w, want, name, inclusive, k)
    requires Candidate(w, name, inclusive, k, first) && !w.inView(first)
    requires forall x | Candidate(w, name, inclusive, k, x) :: Leq(first, x)
    ensures Asked(w, want, first, false, k)
  {
    hide Tiles, Searchable, Lt, Hidden;
    TotalOrder();
    FirstIsFirst(w, want, name, inclusive, k, first);
  }

  /** The slice has no candidate: go on with the next one. */
  lemma Nothing(w: World, want: Oid, r: Request, name: Oid, inclusive: bool)
    requires Sensible(w) && r.cached && !r.delegated && Searching(w, want, r, name, inclusive)
    requires r.typ == Retry || !exists x :: Candidate(w, name, inclusive, r.at, x)
    requires !Again(w, r, name)
    ensures var r' := Pass(w, r);
            if r'.cached
            then Asked(w, want, r'.name, r'.inclusive, r'.at)
                 && Left(w, r'.name, r'.inclusive, r'.at) < Left(w, name, inclusive, r.at)
            else Correct(w, want, Fixed(want, r'))
  {
    hide Left, Hidden, Tiles, Lt, Visible, Correct, Sound;
    TotalOrder();
    assert !exists x :: Candidate(w, name, inclusive, r.at, x);
    NothingVisible(w, want, name, inclusive, r.at);
    var k := r.at;
    var c := Checked(w, Screened(w, r));
    assert c.typ == Null && c.at == k && c.cached
           && ((c.name == name && (inclusive ==> c.inclusive)) || (c.name == w.t[k].end && c.inclusive));
    SoundNext(w, want, name, inclusive, k, c.name, c.inclusive);
    Assigned(w, want, c, k + 1);
    var r' := Assign(w, c, k + 1);
    if r'.cached {
      LeftBySlice(w, name, inclusive, k, r'.name, r'.inclusive, r'.at);
    }
  }

  lemma NothingVisible(w: World, want: Oid, name: Oid, inclusive: bool, k: nat)
    requires k < |w.t| && Sound(w, want, name, inclusive, k)
    requires !exists x :: Candidate(w, name, inclusive, k, x)
    ensures forall x | Visible(w, x) && Lt(want, x) :: !InSlice(w.t, k, x)
    ensures Lt(name, w.t[k].end)
  {
    forall x | Visible(w, x) && Lt(want, x) ensures !InSlice(w.t, k, x) {
      assert !Candidate(w, name, inclusive, k, x);
    }
  }

  /** After the checks, an answer that still stands is final; and one that does
      not means the varbind is asked about again, with less left to search
      unless the answer brought it no further. */
  lemma Settle(w: World, want: Oid, r: Request, name: Oid, inclusive: bool)
    requires Sensible(w) && !(r.cached && r.delegated) && Searching(w, want, r, name, inclusive)
    ensures var c := Checked(w, Screened(w, r));
            && (Open(c) ==> r.cached) && (!Open(c) ==> Final(c) && Delivered(w, want, Fixed(want, c)))
            && Asks(w, want, Pass(w, r))
            && Potential(w, Pass(w, r), Own(Pass(w, r))) <= Potential(w, r, Question(name, inclusive))
            && (r.cached && !Again(w, r, name) ==>
                  Potential(w, Pass(w, r), Own(Pass(w, r))) < Potential(w, r, Question(name, inclusive)))
  {
    hide Sound, Hidden, Visible, Honest, Left;
    if r.cached {
      PassStep(w, want, r, name, inclusive);
    }
  }

  /** Still without an answer? */
  predicate Open(r: Request) { r.typ == Null || r.typ == Retry }

  /** A varbind that is about to be handed to a slice's handlers, or is done. */
  ghost predicate Asks(w: World, want: Oid, r: Request) {
    if r.cached then want != [] && Asked(w, want, r.name, r.inclusive, r.at) && r.typ == Null && !r.delegated
    else Final(r) && Delivered(w, want, Fixed(want, r))
  }

  /** A question a slice's handlers are asked. */
  datatype Question = Question(name: Oid, inclusive: bool)

  function Own(r: Request): Question { Question(r.name, r.inclusive) }

  ghost function Potential(w: World, r: Request, q: Question): nat {
    if r.cached && r.at <= |w.t| then Left(w, q.name, q.inclusive, r.at) + 1 else 0
  }

  ghost function Potentials(w: World, rs: seq<Request>, qs: seq<Question>): (p: seq<nat>)
    requires |rs| == |qs|
    ensures |p| == |rs| && forall i | 0 <= i < |p| :: p[i] == Potential(w, rs[i], qs[i])
  {
    seq(|rs|, i requires 0 <= i < |rs| => Potential(w, rs[i], qs[i]))
  }

  ghost function Sum(s: seq<nat>): nat {
    if s == [] then 0 else s[0] + Sum(s[1..])
  }

  lemma {:induction false} SumLess(a: seq<nat>, b: seq<nat>)
    requires |a| == |b| && forall i | 0 <= i < |a| :: a[i] <= b[i]
    ensures Sum(a) <= Sum(b)
    ensures (exists i :: 0 <= i < |a| && a[i] < b[i]) ==> Sum(a) < Sum(b)
  {
    if a != [] {
      SumLess(a[1..], b[1..]);
      if i :| 0 <= i < |a| && a[i] < b[i] {
        assert i > 0 ==> a[1..][i - 1] < b[1..][i - 1];
      }
    }
  }

  /** The most searching there can be for so many varbinds. */
  function Most(w: World, varbinds: nat): nat {
    varbinds * ((|w.t| + 1) * (|w.mib.Keys| + 1))
  }

  lemma PotentialBound(w: World, r: Request, q: Question)
    ensures Potential(w, r, q) <= (|w.t| + 1) * (|w.mib.Keys| + 1)
  {
    hide Candidate;
    if r.cached && r.at <= |w.t| {
      var m := |w.mib.Keys| + 1;
      CardinalitySub(Candidates(w, q.name, q.inclusive, r.at), w.mib.Keys);
      Product(|w.t| - r.at, |w.t| + 1, m);
    }
  }

  lemma {:induction false} SumBound(s: seq<nat>, most: nat)
    requires forall i | 0 <= i < |s| :: s[i] <= most
    ensures Sum(s) <= |s| * most
  {
    if s != [] {
      SumBound(s[1..], most);
      assert |s| * most == most + |s[1..]| * most;
    }
  }

  /** However the varbinds stand, there is no more to search than that. */
  lemma AtMost(w: World, rs: seq<Request>, qs: seq<Question>)
    requires |rs| == |qs|
    ensures Sum(Potentials(w, rs, qs)) <= Most(w, |rs|)
  {
    hide Potential, Sum;
    forall i | 0 <= i < |rs| { PotentialBound(w, rs[i], qs[i]); }
    SumBound(Potentials(w, rs, qs), (|w.t| + 1) * (|w.mib.Keys| + 1));
  }

  datatype Reply = Later | Now(name: Oid, typ: VarType)

  /** What the handlers of a slice do with a question; the first argument makes
      them free to behave differently each time. */
  type Handlers = (nat, Oid, bool, nat) -> Reply

  function Replied(r: Request, reply: Reply): Request {
    match reply
    case Later => r.(delegated := true)
    case Now(name, typ) => r.(name := name, typ := typ)
  }

  /** The condition under which a search ends by itself: handlers asked at once
      never answer in a way that brings the search no further. */
  ghost predicate Forthcoming(w: World, handlers: Handlers) {
    forall time, name, inclusive, k: nat {:trigger handlers(time, name, inclusive, k)} ::
      k < |w.t| && handlers(time, name, inclusive, k).Now? ==>
        var reply := handlers(time, name, inclusive, k);
        !Again(w, Request(reply.name, reply.typ, inclusive, k, true, false), name)
  }

  /** Handlers that always answer at once. */
  ghost predicate Prompt(handlers: Handlers) {
    forall time, name, inclusive, k :: handlers(time, name, inclusive, k).Now?
  }

  /** The opposite: whenever slice k is asked about this name, which is outside
      the view, the answer is endOfMibView under the same name. */
  ghost predicate Obstinate(w: World, handlers: Handlers, name: Oid, k: nat) {
    && k < |w.t| && !Hidden(w, k) && Lt(name, w.t[k].end) && !w.inView(name)
    && forall time, inclusive :: handlers(time, name, inclusive, k) == Now(name, EndOfMibView)
  }

  // ----- when a search ends -----

  /** An answer in line with a slice's habit: the first candidate, and without
      one either endOfMibView under the name asked about, if the slice's handlers
      say so, or nothing. */
  ghost predicate Steadily(w: World, says: nat -> bool, name: Oid, inclusive: bool, k: nat, name': Oid, typ': VarType)
    requires k < |w.t|
  {
    && Honest(w, name, inclusive, k, name', typ') && typ' != Retry
    && ((forall x :: !Candidate(w, name, inclusive, k, x)) ==> name' == name && typ' == if says(k) then EndOfMibView else Null)
  }

  /** Handlers with a habit for each slice. */
  ghost predicate Steady(w: World, handlers: Handlers, says: nat -> bool) {
    forall time, name, inclusive, k: nat {:trigger handlers(time, name, inclusive, k)} ::
      k < |w.t| && handlers(time, name, inclusive, k).Now? ==>
        var reply := handlers(time, name, inclusive, k);
        Steadily(w, says, name, inclusive, k, reply.name, reply.typ)
  }

  /** From slice k to slice j, whose handlers say endOfMibView, there is no
      candidate in view; and the name is outside the view, or will be replaced
      by that of a candidate which is. */
  ghost predicate Dark(w: World, says: nat -> bool, name: Oid, inclusive: bool, k: nat, j: nat) {
    && k <= j < |w.t| && !Hidden(w, j) && says(j)
    && (forall i: nat, x | k <= i <= j && !Hidden(w, i) && Candidate(w, name, inclusive, i, x) :: !w.inView(x))
    && (!w.inView(name) || exists i: nat, x :: k <= i <= j && !Hidden(w, i) && Candidate(w, name, inclusive, i, x))
  }

  ghost predicate Blocked(w: World, says: nat -> bool, name: Oid, inclusive: bool, k: nat) {
    exists j: nat :: Dark(w, says, name, inclusive, k, j)
  }

  /** One pass leaves a search that is blocked blocked, and one that is not so;
      and only a blocked one gets no further. */
  lemma BlockedStep(w: World, says: nat -> bool, want: Oid, r: Request, name: Oid, inclusive: bool)
    requires Sensible(w) && r.cached && !r.delegated && Searching(w, want, r, name, inclusive)
    requires Steadily(w, says, name, inclusive, r.at, r.name, r.typ)
    ensures var r' := Pass(w, r);
            Blocked(w, says, name, inclusive, r.at) <==> r'.cached && Blocked(w, says, r'.name, r'.inclusive, r'.at)
    ensures Again(w, r, name) ==> Blocked(w, says, name, inclusive, r.at)
  {
    hide Tiles, Lt, Visible, Hidden, Left, Pass, Honest, Blocked;
    if exists x :: Candidate(w, name, inclusive, r.at, x) {
      FirstAnswer(w, name, inclusive, r);
      if w.inView(r.name) {
        Found(w, want, r, name, inclusive);
        SeenFirst(w, says, name, inclusive, r.at, r.name);
      } else {
        Unseen(w, want, r, name, inclusive);
        DarkFirst(w, says, want, name, inclusive, r.at, r.name);
      }
    } else {
      NothingLeft(w, says, want, r, name, inclusive);
    }
  }

  lemma FirstAnswer(w: World, name: Oid, inclusive: bool, r: Request)
    requires r.at < |w.t| && Honest(w, name, inclusive, r.at, r.name, r.typ) && r.typ != Retry
    requires exists x :: Candidate(w, name, inclusive, r.at, x)
    ensures Candidate(w, name, inclusive, r.at, r.name) && r.typ == Value(w.mib[r.name])
    ensures forall x | Candidate(w, name, inclusive, r.at, x) :: Leq(r.name, x)
  {
  }

  lemma SeenFirst(w: World, says: nat -> bool, name: Oid, inclusive: bool, k: nat, first: Oid)
    requires k < |w.t| && !Hidden(w, k) && Candidate(w, name, inclusive, k, first) && w.inView(first)
    ensures !Blocked(w, says, name, inclusive, k)
  {
    hide Hidden, Candidate;
  }

  /** Behind slice k the same instances are candidates, whatever the question to
      slice k was. */
  lemma CandidatesBehind(w: World, name: Oid, inclusive: bool, name': Oid, inclusive': bool, k: nat)
    requires Tiles(w.t) && k < |w.t| && Lt(name, w.t[k].end) && Lt(name', w.t[k].end)
    ensures forall i: nat, x | k < i :: Candidate(w, name, inclusive, i, x) <==> Candidate(w, name', inclusive', i, x)
  {
    TotalOrder();
    hide Lt;
    forall i: nat, x | k < i && InSlice(w.t, i, x) ensures Lt(name, x) && Lt(name', x) {
      assert Leq(w.t[k].end, w.t[i].start);
    }
  }

  /** Asked past a candidate outside the view. */
  lemma DarkFirst(w: World, says: nat -> bool, want: Oid, name: Oid, inclusive: bool, k: nat, first: Oid)
    requires Tiles(w.t) && Asked(w, want, name, inclusive, k)
    requires Candidate(w, name, inclusive, k, first) && !w.inView(first)
    requires forall x | Candidate(w, name, inclusive, k, x) :: Leq(first, x)
    ensures Blocked(w, says, name, inclusive, k) <==> Blocked(w, says, first, false, k)
  {
    hide Hidden, Tiles, Lt, Visible;
    TotalOrder();
    CandidatesBehind(w, name, inclusive, first, false, k);
    forall x ensures Candidate(w, name, inclusive, k, x) <==> x == first || Candidate(w, first, false, k, x) {
    }
    hide Candidate, Sound;
    forall j: nat ensures Dark(w, says, name, inclusive, k, j) <==> Dark(w, says, first, false, k, j) {
    }
  }

  /** No candidate in the slice: stuck, or on to the next. */
  lemma NothingLeft(w: World, says: nat -> bool, want: Oid, r: Request, name: Oid, inclusive: bool)
    requires Sensible(w) && r.cached && !r.delegated && Searching(w, want, r, name, inclusive)
    requires Steadily(w, says, name, inclusive, r.at, r.name, r.typ)
    requires forall x :: !Candidate(w, name, inclusive, r.at, x)
    ensures var r' := Pass(w, r);
            Blocked(w, says, name, inclusive, r.at) <==> r'.cached && Blocked(w, says, r'.name, r'.inclusive, r'.at)
    ensures Again(w, r, name) ==> Blocked(w, says, name, inclusive, r.at)
  {
    hide Tiles, Lt, Visible, Hidden, Left, Candidate;
    var k := r.at;
    if Again(w, r, name) {
      Stalled(w, want, r, name, inclusive);
      NoCandidate(w, name, inclusive, k);
      assert Dark(w, says, name, inclusive, k, k);
      assert Dark(w, says, name, false, k, k);
    } else {
      Trichotomy(name, w.t[k].end);
      var c := Checked(w, Screened(w, r));
      assert c.name == name && c.typ == Null && c.at == k && c.cached;
      MovesOn(w, says, name, inclusive, c.inclusive, k);
    }
  }

  lemma NoCandidate(w: World, name: Oid, inclusive: bool, k: nat)
    requires forall x :: !Candidate(w, name, inclusive, k, x)
    ensures forall x :: !Candidate(w, name, false, k, x)
  {
    forall x ensures !Candidate(w, name, false, k, x) { assert !Candidate(w, name, inclusive, k, x); }
  }

  /** A slice without candidates that does not stop the search has no part in
      what does; nor have hidden slices. */
  lemma MovesOn(w: World, says: nat -> bool, name: Oid, inclusive: bool, inclusive': bool, k: nat)
    requires Tiles(w.t) && k < |w.t| && Lt(name, w.t[k].end) && (says(k) ==> w.inView(name))
    requires forall x :: !Candidate(w, name, inclusive, k, x)
    ensures Blocked(w, says, name, inclusive, k) <==> Blocked(w, says, name, inclusive', Skip(w, k + 1))
  {
    hide Tiles, Lt, Hidden;
    CandidatesBehind(w, name, inclusive, name, inclusive', k);
    hide Candidate;
    var k' := Skip(w, k + 1);
    forall j: nat ensures Dark(w, says, name, inclusive, k, j) <==> Dark(w, says, name, inclusive', k', j) {
    }
  }

  /** The answers at hand are in line with the habits. */
  ghost predicate SteadyAll(w: World, says: nat -> bool, rs: seq<Request>, qs: seq<Question>)
    requires |rs| == |qs|
  {
    forall i | 0 <= i < |rs| && rs[i].cached && !rs[i].delegated ::
      rs[i].at < |w.t| && Steadily(w, says, qs[i].name, qs[i].inclusive, rs[i].at, rs[i].name, rs[i].typ)
  }

  ghost predicate Stops(w: World, says: nat -> bool, r: Request, q: Question) {
    r.cached && Blocked(w, says, q.name, q.inclusive, r.at)
  }

  /** The varbinds whose search is blocked. */
  ghost function Doomed(w: World, says: nat -> bool, rs: seq<Request>, qs: seq<Question>): (d: set<nat>)
    requires |rs| == |qs|
  {
    set i: nat | i < |rs| && Stops(w, says, rs[i], qs[i])
  }

  /** A pass over all varbinds neither blocks nor frees any. */
  lemma SameDoomed(w: World, says: nat -> bool, wants: seq<Oid>, rs: seq<Request>, qs: seq<Question>, rs': seq<Request>)
    requires Sensible(w) && |rs| == |wants| == |qs| == |rs'| && SteadyAll(w, says, rs, qs)
    requires forall i | 0 <= i < |rs| :: !(rs[i].cached && rs[i].delegated)
                                         && Searching(w, wants[i], rs[i], qs[i].name, qs[i].inclusive)
    requires forall i | 0 <= i < |rs| :: (rs[i].cached ==> rs[i].at < |w.t|) && (Open(rs[i]) ==> rs[i].cached)
                                         && rs'[i] == Pass(w, rs[i])
    ensures Doomed(w, says, rs', Owns(rs')) == Doomed(w, says, rs, qs)
    ensures forall i | 0 <= i < |rs| && rs[i].cached && Again(w, rs[i], qs[i].name) :: i in Doomed(w, says, rs, qs)
  {
    hide Blocked, Searching, Steadily, Sensible, Again;
    forall i: nat | i < |rs|
      ensures Stops(w, says, rs'[i], Own(rs'[i])) <==> Stops(w, says, rs[i], qs[i])
      ensures rs[i].cached && Again(w, rs[i], qs[i].name) ==> Stops(w, says, rs[i], qs[i])
    {
      if rs[i].cached { BlockedStep(w, says, wants[i], rs[i], qs[i].name, qs[i].inclusive); }
    }
  }

  /** When nothing is open after the checks, nothing was blocked. */
  lemma NoneDoomed(w: World, says: nat -> bool, wants: seq<Oid>, rs: seq<Request>, qs: seq<Question>)
    requires Sensible(w) && |rs| == |wants| == |qs| && SteadyAll(w, says, rs, qs)
    requires forall i | 0 <= i < |rs| :: !(rs[i].cached && rs[i].delegated)
                                         && Searching(w, wants[i], rs[i], qs[i].name, qs[i].inclusive)
    requires forall i | 0 <= i < |rs| :: (rs[i].cached ==> rs[i].at < |w.t|)
    requires forall i | 0 <= i < |rs| :: var c := Checked(w, Screened(w, rs[i])); !(c.cached && Open(c))
    ensures Doomed(w, says, rs, qs) == {}
  {
    hide Blocked, Searching, Steadily, Sensible, Again;
    forall i: nat | i < |rs| && rs[i].cached ensures !Stops(w, says, rs[i], qs[i]) {
      BlockedStep(w, says, wants[i], rs[i], qs[i].name, qs[i].inclusive);
    }
  }

  /** The varbinds whose search is blocked from the beginning. */
  ghost function DoomedWants(w: World, says: nat -> bool, wants: seq<Oid>): (d: set<nat>) {
    set i: nat | i < |wants| && FirstSlice(w, wants[i]) < |w.t| && Blocked(w, says, wants[i], false, FirstSlice(w, wants[i]))
  }

  lemma FirstDoomed(w: World, says: nat -> bool, wants: seq<Oid>, rs: seq<Request>)
    requires |rs| == |wants|
    requires forall i | 0 <= i < |wants| ::
               if FirstSlice(w, wants[i]) < |w.t| then rs[i] == Request(wants[i], Null, false, FirstSlice(w, wants[i]), true, false)
               else !rs[i].cached
    ensures Doomed(w, says, rs, Owns(rs)) == DoomedWants(w, says, wants)
  {
    hide Blocked, FirstSlice;
  }

  /** A call of the handlers blocks nothing and frees nothing. */
  lemma DoomedCalled(w: World, says: nat -> bool, rs: seq<Request>, qs: seq<Question>, rs': seq<Request>, qs': seq<Question>)
    requires |rs| == |qs| == |rs'| == |qs'|
    requires forall i | 0 <= i < |rs| :: rs[i].cached == rs'[i].cached && rs[i].at == rs'[i].at && qs[i] == qs'[i]
    ensures Doomed(w, says, rs', qs') == Doomed(w, says, rs, qs)
  {
    hide Blocked;
  }

  lemma InDoomed(w: World, says: nat -> bool, rs: seq<Request>, qs: seq<Question>, i: nat)
    requires i < |rs| == |qs| && Stops(w, says, rs[i], qs[i])
    ensures i in Doomed(w, says, rs, qs)
  {
    hide Stops;
  }

  lemma ObstinateSlice(w: World, handlers: Handlers, name: Oid, k: nat)
    requires Obstinate(w, handlers, name, k)
    ensures k < |w.t|
  {
  }

  /** The slice a requested name is first searched for in, if any. */
  function FirstSlice(w: World, want: Oid): nat {
    var k := Scan(w.t, want, 0);
    if k == 0 || !Lt(want, w.t[k - 1].end) then |w.t| else Skip(w, k - 1)
  }

  /** How a run of the loop ends: every answer is there, some are delegated, or
      the agent is shutting down. */
  datatype Outcome = Done | Delayed | Stopped

  class Session {
    const w: World
    const wants: seq<Oid>
    const handlers: Handlers
    const requests: array<Request>
    var clock: nat
    ghost var asked: seq<Question>
    ghost var passes: nat           // how often the handlers were called

    ghost predicate Shape() {
      && Sensible(w) && requests.Length == |wants|
      && forall time, name, inclusive, k: nat {:trigger handlers(time, name, inclusive, k)} ::
           k < |w.t| && handlers(time, name, inclusive, k).Now? ==>
             Honest(w, name, inclusive, k, handlers(time, name, inclusive, k).name, handlers(time, name, inclusive, k).typ)
    }

    /** Between the passes. */
    ghost predicate Valid()
      reads this, requests
    {
      && Shape() && |asked| == |wants|
      && forall i | 0 <= i < |wants| :: Searching(w, wants[i], requests[i], asked[i].name, asked[i].inclusive)
    }

    /** When a pass is about to start. */
    ghost predicate Ready()
      reads this, requests
    {
      Shape() && forall i | 0 <= i < |wants| :: Asks(w, wants[i], requests[i])
    }

    /** A varbind whose question is answered in a way that will never change. */
    ghost predicate Stuck(i: nat)
      requires i < |wants| && requests.Length == |wants|
      reads requests
    {
      && requests[i].cached && !requests[i].delegated && requests[i].typ == EndOfMibView
      && Obstinate(w, handlers, requests[i].name, requests[i].at)
    }

    /** There are open varbinds, and all were answered in a way that brings them
        no further. */
    ghost predicate Idle()
      requires requests.Length == |wants| == |asked|
      reads this, requests
    {
      && (exists i :: 0 <= i < |wants| && requests[i].cached)
      && forall i | 0 <= i < |wants| && requests[i].cached :: Again(w, requests[i], asked[i].name)
    }

    constructor (w: World, wants: seq<Oid>, handlers: Handlers)
      ensures this.w == w && this.wants == wants && this.handlers == handlers
      ensures fresh(requests) && requests.Length == |wants|
    {
      this.w, this.wants, this.handlers, clock, asked, passes := w, wants, handlers, 0, [], 0;
      requests := new Request[|wants|](_ => Request([], Null, false, 0, false, false));
    }

    /** Give each varbind to the slice its name lies in. */
    method CreateSubtreeCache()
      requires Shape()
      modifies requests
      ensures Ready()
      ensures forall i | 0 <= i < |wants| ::
                if FirstSlice(w, wants[i]) < |w.t| then requests[i] == Request(wants[i], Null, false, FirstSlice(w, wants[i]), true, false)
                else !requests[i].cached
    {
      hide Sensible, Searching, Honest, Asks;
      var i := 0;
      while i < |wants|
        invariant 0 <= i <= |wants| && Shape()
        invariant forall j | 0 <= j < i :: Asks(w, wants[j], requests[j])
        invariant forall j | 0 <= j < i ::
                    if FirstSlice(w, wants[j]) < |w.t| then requests[j] == Request(wants[j], Null, false, FirstSlice(w, wants[j]), true, false)
                    else !requests[j].cached
      {
        var k := Scan(w.t, wants[i], 0);
        var r := Request(wants[i], Null, false, 0, false, false);
        FirstAsk(w, wants[i]);
        requests[i] := if k == 0 || !Lt(wants[i], w.t[k - 1].end) then r.(typ := EndOfMibView)
                       else Assign(w, r, k - 1);
        i := i + 1;
      }
    }

    /** Call the handlers; each answers, or says that it will answer later. */
    method HandleVarRequests()
      requires Ready()
      modifies this`clock, this`asked, this`passes, requests
      ensures Valid() && passes == old(passes) + 1
      ensures forall i | 0 <= i < |wants| :: Called(old(requests[i]), requests[i], asked[i])
    {
      hide Sensible, Honest, Sound, Hidden, Delivered;
      var i := 0;
      ghost var qs := Owns(requests[..]);
      asked, passes := qs, passes + 1;
      while i < |wants|
        invariant 0 <= i <= |wants| && Shape() && asked == qs && passes == old(passes) + 1
        invariant forall j | 0 <= j < i :: Searching(w, wants[j], requests[j], asked[j].name, asked[j].inclusive)
                    && Called(old(requests[j]), requests[j], asked[j])
        invariant forall j | i <= j < |wants| :: requests[j] == old(requests[j])
      {
        var r := requests[i];
        assert Asks(w, wants[i], r);
        if r.cached {
          var reply := handlers(clock, r.name, r.inclusive, r.at);
          clock := clock + 1;
          requests[i] := Replied(r, reply);
        }
        i := i + 1;
      }
    }

    /** What a call of the handlers makes of a varbind: an open one is replied
        to, another is left alone. */
    ghost predicate Called(r: Request, r': Request, q: Question) {
      && q == Own(r)
      && if r.cached then exists time: nat :: r' == Replied(r, handlers(time, r.name, r.inclusive, r.at)) else r' == r
    }

    /** After a call: forthcoming handlers got ahead with every varbind they
        answered, and an obstinate handler's varbind is stuck. */
    lemma AfterCall(rs: seq<Request>, rs': seq<Request>, qs: seq<Question>)
      requires |rs| == |rs'| == |qs| == |wants|
      requires forall i | 0 <= i < |wants| :: Asks(w, wants[i], rs[i]) && Called(rs[i], rs'[i], qs[i])
      ensures forall i | 0 <= i < |wants| :: rs'[i].cached == rs[i].cached && rs'[i].at == rs[i].at && qs[i] == Own(rs[i])
      ensures Forthcoming(w, handlers) ==>
                forall i | 0 <= i < |wants| && rs'[i].cached :: !Again(w, rs'[i], qs[i].name)
      ensures Prompt(handlers) ==> forall i | 0 <= i < |wants| && rs'[i].cached :: !rs'[i].delegated
      ensures forall i | 0 <= i < |wants| && rs[i].cached && Obstinate(w, handlers, rs[i].name, rs[i].at) ::
                !rs'[i].delegated && rs'[i].typ == EndOfMibView && rs'[i].name == rs[i].name
    {
      hide Lt, Sound, Hidden, Delivered;
    }

    lemma SteadyCall(says: nat -> bool, rs: seq<Request>, rs': seq<Request>, qs: seq<Question>)
      requires |rs| == |rs'| == |qs| == |wants| && Steady(w, handlers, says)
      requires forall i | 0 <= i < |wants| :: Asks(w, wants[i], rs[i]) && Called(rs[i], rs'[i], qs[i])
      ensures SteadyAll(w, says, rs', qs)
    {
      hide Steadily, Sound, Hidden, Delivered;
    }

    method CheckForDelegated() returns (b: bool)
      requires requests.Length == |wants|
      ensures b <==> Held()
    {
      var i := 0;
      while i < |wants|
        invariant 0 <= i <= |wants|
        invariant forall j | 0 <= j < i :: !(requests[j].cached && requests[j].delegated)
      {
        if requests[i].cached && requests[i].delegated {
          return true;
        }
        i := i + 1;
      }
      return false;
    }

    method CheckAcm()
      requires requests.Length == |wants|
      modifies requests
      ensures forall i | 0 <= i < |wants| :: requests[i] == Screened(w, old(requests[i]))
    {
      var i := 0;
      while i < |wants|
        invariant 0 <= i <= |wants|
        invariant forall j | 0 <= j < |wants| ::
                    requests[j] == if j < i then Screened(w, old(requests[j])) else old(requests[j])
      {
        var r := requests[i];
        if r.cached && r.typ != Null && r.typ != Retry && !w.inView(r.name) {
          requests[i] := r.(typ := Retry, inclusive := false);
        }
        i := i + 1;
      }
    }

    method CheckResults() returns (count: nat)
      requires requests.Length == |wants|
      requires forall i | 0 <= i < |wants| :: requests[i].cached ==> requests[i].at < |w.t|
      modifies requests
      ensures forall i | 0 <= i < |wants| ::
                (old(requests[i]).cached ==> old(requests[i]).at < |w.t|) && requests[i] == Checked(w, old(requests[i]))
      ensures count == 0 <==> forall i | 0 <= i < |wants| :: !(requests[i].cached && Open(requests[i]))
    {
      count := 0;
      var i := 0;
      while i < |wants|
        invariant 0 <= i <= |wants|
        invariant forall j | i <= j < |wants| :: requests[j] == old(requests[j])
        invariant forall j | 0 <= j < i ::
                    (old(requests[j]).cached ==> old(requests[j]).at < |w.t|) && requests[j] == Checked(w, old(requests[j]))
        invariant count == 0 <==> forall j | 0 <= j < i :: !(requests[j].cached && Open(requests[j]))
      {
        var r := requests[i];
        if r.cached {
          if Leq(w.t[r.at].end, r.name) {
            r := r.(inclusive := true, name := w.t[r.at].end, typ := Null);
          }
          if r.typ == EndOfMibView {
            r := r.(typ := Null, inclusive := true);
          }
          requests[i] := r;
          if Open(r) {
            count := count + 1;
          }
        }
        i := i + 1;
      }
    }

    method ReassignRequests()
      requires requests.Length == |wants|
      requires forall i | 0 <= i < |wants| ::
                 (requests[i].cached ==> requests[i].at < |w.t|) && (Open(requests[i]) ==> requests[i].cached)
      modifies requests
      ensures forall i | 0 <= i < |wants| ::
                && (old(requests[i]).cached ==> old(requests[i]).at < |w.t|)
                && (Open(old(requests[i])) ==> old(requests[i]).cached)
                && requests[i] == Reassigned(w, old(requests[i]))
    {
      hide Assign, Skip, Hidden;
      var i := 0;
      while i < |wants|
        invariant 0 <= i <= |wants|
        invariant forall j | i <= j < |wants| :: requests[j] == old(requests[j])
        invariant forall j | 0 <= j < i ::
                    && (old(requests[j]).cached ==> old(requests[j]).at < |w.t|)
                    && (Open(old(requests[j])) ==> old(requests[j]).cached)
                    && requests[j] == Reassigned(w, old(requests[j]))
      {
        requests[i] := Reassigned(w, requests[i]);
        i := i + 1;
      }
    }

    /** The checks and the reassignment between two calls of the handlers. */
    method Review(ghost says: nat -> bool) returns (again: bool)
      requires Valid() && forall i | 0 <= i < |wants| :: !(requests[i].cached && requests[i].delegated)
      modifies requests
      ensures forall i | 0 <= i < |wants| :: (old(requests[i]).cached ==> old(requests[i]).at < |w.t|)
      ensures if again then
                && Ready()
                && Sum(Potentials(w, requests[..], Owns(requests[..]))) <= Sum(Potentials(w, old(requests[..]), asked))
                && (!old(Idle()) ==> Sum(Potentials(w, requests[..], Owns(requests[..])))
                                     < Sum(Potentials(w, old(requests[..]), asked)))
              else Answered()
      ensures forall i | 0 <= i < |wants| && old(Stuck(i)) ::
                again && requests[i] == old(requests[i]).(typ := Null, inclusive := false)
      ensures SteadyAll(w, says, old(requests[..]), asked) ==>
                && Doomed(w, says, old(requests[..]), asked)
                   == (if again then Doomed(w, says, requests[..], Owns(requests[..])) else {})
                && (old(Idle()) ==> Doomed(w, says, old(requests[..]), asked) != {})
    {
      hide Sensible, Searching, Asks, Potentials, Sum, Reassigned, Obstinate, Doomed, SteadyAll, Again, Assign;
      ghost var rs := requests[..];
      Judged(w, wants, rs, asked);
      CheckAcm();
      var count := CheckResults();
      forall i | 0 <= i < |wants| && old(Stuck(i)) ensures count > 0 && Pass(w, rs[i]) == rs[i].(typ := Null, inclusive := false) {
        StuckPass(i, rs[i]);
        assert requests[i].cached && Open(requests[i]);
      }
      if SteadyAll(w, says, rs, asked) {
        IdleDoomed(says, rs, count == 0);
      }
      if count == 0 {
        return false;
      }
      ReassignRequests();
      assert forall i | 0 <= i < |wants| :: requests[..][i] == Pass(w, rs[i]);
      Progress(w, wants, rs, asked, requests[..]);
      if SteadyAll(w, says, rs, asked) {
        SameDoomed(w, says, wants, rs, asked, requests[..]);
      }
      return true;
    }

    lemma IdleDoomed(says: nat -> bool, rs: seq<Request>, none: bool)
      requires Sensible(w) && |rs| == |wants| == |asked| && SteadyAll(w, says, rs, asked)
      requires forall i | 0 <= i < |rs| :: !(rs[i].cached && rs[i].delegated)
                                           && Searching(w, wants[i], rs[i], asked[i].name, asked[i].inclusive)
      requires forall i | 0 <= i < |rs| :: (rs[i].cached ==> rs[i].at < |w.t|)
      requires none ==> forall i | 0 <= i < |rs| :: var c := Checked(w, Screened(w, rs[i])); !(c.cached && Open(c))
      ensures none ==> Doomed(w, says, rs, asked) == {}
      ensures (exists i :: 0 <= i < |rs| && rs[i].cached && Again(w, rs[i], asked[i].name)) ==> Doomed(w, says, rs, asked) != {}
    {
      hide Blocked, Searching, Steadily, Sensible, Again, Doomed;
      if none { NoneDoomed(w, says, wants, rs, asked); }
      if i: nat :| i < |rs| && rs[i].cached && Again(w, rs[i], asked[i].name) {
        BlockedStep(w, says, wants[i], rs[i], asked[i].name, asked[i].inclusive);
        InDoomed(w, says, rs, asked, i);
      }
    }

    lemma StuckPass(i: nat, r: Request)
      requires r.cached && !r.delegated && r.typ == EndOfMibView && Obstinate(w, handlers, r.name, r.at)
      ensures var c := Checked(w, Screened(w, r)); c.cached && Open(c)
      ensures Pass(w, r) == r.(typ := Null, inclusive := false)
    {
      hide Hidden;
      Trichotomy(r.name, w.t[r.at].end);
      SkipNone(w, r.at);
    }

    /** Every answer is final, up to the names of endOfMibView answers. */
    ghost predicate Answered()
      reads requests
    {
      && requests.Length == |wants|
      && forall i | 0 <= i < |wants| :: Final(requests[i]) && Delivered(w, wants[i], Fixed(wants[i], requests[i]))
    }

    /** Some varbind waits for its handler's answer. */
    ghost predicate Held()
      requires requests.Length == |wants|
      reads requests
    {
      exists i :: 0 <= i < |wants| && requests[i].cached && requests[i].delegated
    }

    /** What a search with these varbinds blocked can come to: it is not done if
        there are any, loses no pass if there are none, and they stay the same
        while it waits. */
    ghost predicate Foreseen(says: nat -> bool, doomed: set<nat>, outcome: Outcome, idle: nat)
      requires requests.Length == |wants|
      reads this, requests
    {
      && (doomed != {} ==> outcome != Done)
      && (doomed == {} ==> idle == 0)
      && (outcome != Done ==> |asked| == |wants| && SteadyAll(w, says, requests[..], asked)
                              && Doomed(w, says, requests[..], asked) == doomed)
    }

    /** Pass after pass, until nothing is open, a slice makes us wait, or the
        agent, which is running for so many more passes, is to stop. Only passes
        that brought no varbind any further count against the limit. */
    method GetNextLoop(running: nat, ghost says: nat -> bool) returns (outcome: Outcome, ghost idle: nat)
      requires Valid()
      modifies this`clock, this`asked, this`passes, requests
      ensures match outcome case Done => Answered() case Delayed => Valid() && Held() case Stopped => Valid() && passes == old(passes) + running
      ensures idle <= running && old(passes) <= passes <= old(passes) + running
      ensures outcome == Stopped ==> running <= Sum(Potentials(w, old(requests[..]), old(asked))) + idle
      ensures Forthcoming(w, handlers) ==> idle <= 1 && (!old(Idle()) ==> idle == 0)
      ensures (exists i :: 0 <= i < |wants| && old(Stuck(i))) ==> outcome != Done
      ensures Steady(w, handlers, says) && SteadyAll(w, says, old(requests[..]), old(asked)) ==>
                Foreseen(says, Doomed(w, says, old(requests[..]), old(asked)), outcome, idle)
      ensures Prompt(handlers) && !old(Held()) ==> outcome != Delayed
    {
      hide Prompt, Sensible, Searching, Asks, Potentials, Sum, Left, Answered, Obstinate, Again, Forthcoming, Called, Doomed, SteadyAll, Steady;
      var left := running;
      idle := 0;
      ghost var sum0 := Sum(Potentials(w, requests[..], asked));
      while left > 0
        invariant Valid() && 0 <= left <= running && passes == old(passes) + running - left && idle <= running - left
        invariant running - left + Sum(Potentials(w, requests[..], asked)) <= sum0 + idle
        invariant forall i | 0 <= i < |wants| && old(Stuck(i)) :: Stuck(i)
        invariant left == running ==> idle == 0 && unchanged(requests) && asked == old(asked)
        invariant Steady(w, handlers, says) && SteadyAll(w, says, old(requests[..]), old(asked)) ==>
                    && SteadyAll(w, says, requests[..], asked)
                    && Doomed(w, says, requests[..], asked) == Doomed(w, says, old(requests[..]), old(asked))
                    && (Doomed(w, says, old(requests[..]), old(asked)) == {} ==> idle == 0)
        invariant Prompt(handlers) && left < running ==> !Held()
        invariant Forthcoming(w, handlers) && left < running ==>
                    (forall i | 0 <= i < |wants| && requests[i].cached ::
                      !Again(w, requests[i], asked[i].name))
        invariant Forthcoming(w, handlers) ==> idle <= 1 && (!old(Idle()) ==> idle == 0)
      {
        var delayed := CheckForDelegated();
        if delayed {
          return Delayed, idle;
        }
        if Idle() { idle := idle + 1; }
        var again := Review(says);
        if !again {
          return Done, idle;
        }
        ghost var rs := requests[..];
        HandleVarRequests();
        AfterCall(rs, requests[..], asked);
        DoomedCalled(w, says, rs, Owns(rs), requests[..], asked);
        if Steady(w, handlers, says) { SteadyCall(says, rs, requests[..], asked); }
        SamePotentials(w, rs, Owns(rs), requests[..], asked);
        left := left - 1;
      }
      return Stopped, idle;
    }

    /** A delegated question is answered, no less honestly. */
    method Answer(i: nat, name: Oid, typ: VarType, ghost says: nat -> bool)
      requires Valid() && i < |wants| && requests[i].cached && requests[i].delegated
      requires requests[i].at < |w.t| && Honest(w, asked[i].name, asked[i].inclusive, requests[i].at, name, typ)
      modifies requests
      ensures Valid() && !requests[i].delegated
      ensures Doomed(w, says, requests[..], asked) == Doomed(w, says, old(requests[..]), asked)
      ensures SteadyAll(w, says, old(requests[..]), asked)
              && Steadily(w, says, asked[i].name, asked[i].inclusive, old(requests[i]).at, name, typ) ==>
                SteadyAll(w, says, requests[..], asked)
      ensures forall j | 0 <= j < |wants| && j != i :: requests[j] == old(requests[j])
    {
      hide Sensible, Honest, Asked, Doomed, Steadily;
      ghost var rs := requests[..];
      requests[i] := requests[i].(name := name, typ := typ, delegated := false);
      DoomedCalled(w, says, rs, asked, requests[..], asked);
    }

    /** endOfMibView answers carry the name that was asked for. */
    method FixEndOfMibView()
      requires Answered()
      modifies requests
      ensures forall i | 0 <= i < |wants| :: Final(requests[i]) && Delivered(w, wants[i], requests[i])
    {
      hide Delivered;
      var i := 0;
      while i < |wants|
        invariant 0 <= i <= |wants|
        invariant forall j | i <= j < |wants| :: requests[j] == old(requests[j])
        invariant forall j | 0 <= j < i :: requests[j] == Fixed(wants[j], old(requests[j]))
      {
        if requests[i].typ == EndOfMibView {
          requests[i] := requests[i].(name := wants[i]);
        }
        i := i + 1;
      }
    }

    /** The request comes in. Unless it has to wait, every varbind gets the
        right answer, at the latest after as many passes as there can be to
        search, if the handlers are forthcoming; and never if a handler is
        obstinate about a requested name. With handlers that have a habit for
        each slice, it gets the answers exactly if no search is blocked. */
    method HandleRequest(running: nat, ghost says: nat -> bool) returns (outcome: Outcome, ghost idle: nat)
      requires Shape()
      modifies this`clock, this`asked, this`passes, requests
      ensures if outcome == Done then forall i | 0 <= i < |wants| :: Delivered(w, wants[i], requests[i]) else Valid()
      ensures outcome == Delayed ==> Held()
      ensures outcome == Stopped ==> running <= Most(w, |wants|) + idle && passes == old(passes) + 1 + running
      ensures Forthcoming(w, handlers) ==> idle == 0
      ensures Forthcoming(w, handlers) && running > Most(w, |wants|) ==> outcome != Stopped
      ensures (exists i :: 0 <= i < |wants| && Obstinate(w, handlers, wants[i], FirstSlice(w, wants[i]))) ==> outcome != Done
      ensures Prompt(handlers) ==> outcome != Delayed
      ensures Steady(w, handlers, says) && outcome != Done ==>
                |asked| == |wants| && SteadyAll(w, says, requests[..], asked)
                && Doomed(w, says, requests[..], asked) == DoomedWants(w, says, wants)
      ensures Steady(w, handlers, says) && DoomedWants(w, says, wants) != {} ==> outcome != Done
      ensures Steady(w, handlers, says) && running > Most(w, |wants|) ==>
                && (DoomedWants(w, says, wants) == {} ==> outcome != Stopped)
                && (Prompt(handlers) ==> (outcome == Done <==> DoomedWants(w, says, wants) == {}))
    {
      hide Prompt, Sensible, Searching, Asks, Delivered, Forthcoming, Called, Obstinate, Again, Potentials, Sum, Most, Answered, Left,
        Doomed, DoomedWants, SteadyAll, Steady;
      CreateSubtreeCache();
      ghost var rs := requests[..];
      FirstDoomed(w, says, wants, rs);
      HandleVarRequests();
      AfterCall(rs, requests[..], asked);
      DoomedCalled(w, says, rs, Owns(rs), requests[..], asked);
      if Steady(w, handlers, says) { SteadyCall(says, rs, requests[..], asked); }
      AtMost(w, requests[..], asked);
      forall i | 0 <= i < |wants| && Obstinate(w, handlers, wants[i], FirstSlice(w, wants[i])) ensures Stuck(i) {
        ObstinateSlice(w, handlers, wants[i], FirstSlice(w, wants[i]));
        assert rs[i].cached;
      }
      outcome, idle := GetNextLoop(running, says);
      if outcome == Done {
        FixEndOfMibView();
      }
    }

    /** The last delegated answer has arrived: go on. The request waits again
        only if a varbind does; with prompt handlers that have a habit for each
        slice it is answered exactly if no search is blocked. */
    method CheckDelayedRequest(running: nat, ghost says: nat -> bool) returns (outcome: Outcome, ghost idle: nat)
      requires Valid()
      modifies this`clock, this`asked, this`passes, requests
      ensures if outcome == Done then forall i | 0 <= i < |wants| :: Delivered(w, wants[i], requests[i]) else Valid()
      ensures outcome == Delayed ==> Held()
      ensures outcome == Stopped ==>
                running <= Sum(Potentials(w, old(requests[..]), old(asked))) + idle && passes == old(passes) + running
      ensures Forthcoming(w, handlers) ==> idle <= 1
      ensures var doomed := Doomed(w, says, old(requests[..]), old(asked));
              Steady(w, handlers, says) && SteadyAll(w, says, old(requests[..]), old(asked)) ==>
                && (doomed != {} ==> outcome != Done)
                && (doomed == {} && running > Most(w, |wants|) ==> outcome != Stopped)
                && (Prompt(handlers) && !old(Held()) && running > Most(w, |wants|) ==> (outcome == Done <==> doomed == {}))
                && (outcome != Done ==> |asked| == |wants| && SteadyAll(w, says, requests[..], asked)
                                        && Doomed(w, says, requests[..], asked) == doomed)
    {
      hide Sensible, Searching, Asks, Delivered, Doomed, SteadyAll, Steady, Forthcoming, Most, Potentials, Sum, Answered;
      AtMost(w, requests[..], asked);
      outcome, idle := GetNextLoop(running, says);
      if outcome == Done {
        FixEndOfMibView();
      }
    }
  }

  // ----- a search that does not end -----

  predicate OutsideLeaf(x: Oid) { !Prefix([1, 5], x) }

  predicate UnderLeaf(x: Oid) { Prefix([1, 5], x) }

  /** The habit of all handlers here is to say endOfMibView. */
  predicate EverySlice(k: nat) { true }

  function NoMore(time: nat, name: Oid, inclusive: bool, k: nat): Reply { Now(name, EndOfMibView) }

  /** {1 5} is registered, has no instance (left), and is outside the view, of
      which other parts below {1} are. */
  const LEAF_WORLD := World(LEAF_TREE, map[], OutsideLeaf, UnderLeaf)

  /** Asked for the successor of {1 5 2}, its handlers say that there is none,
      and are asked again, until the agent stops, however long it is running. */
  method Circling(running: nat) returns (s: Session, outcome: Outcome)
    ensures s.w == LEAF_WORLD && Holds(LEAF_TREE, ROOTS + {LEAF}) && s.wants == [[1, 5, 2]] && s.handlers == NoMore
    ensures outcome == Stopped
  {
    hide Sensible, Honest, Obstinate, Prompt, Holds, Most, Forthcoming, FirstSlice, Delivered;
    s := new Session(LEAF_WORLD, [[1, 5, 2]], NoMore);
    LeafTree();
    SensibleLeaf();
    NothingThere();
    ObstinateLeaf();
    ghost var idle;
    outcome, idle := s.HandleRequest(running, EverySlice);
    assert s.wants[0] == [1, 5, 2];
  }

  lemma SensibleLeaf()
    ensures Sensible(LEAF_WORLD)
  {
    LeafTree();
    HoldsTiles(LEAF_TREE, ROOTS + {LEAF});
    forall p, x | UnderLeaf(p) && Prefix(p, x) ensures !OutsideLeaf(x) {
      assert p[..2] == [1, 5] && x[..|p|] == p && x[..2] == p[..2];
    }
  }

  lemma NothingThere()
    ensures Prompt(NoMore)
    ensures forall time, name, inclusive, k: nat {:trigger NoMore(time, name, inclusive, k)} :: k < |LEAF_TREE| ==>
              Honest(LEAF_WORLD, name, inclusive, k, name, EndOfMibView)
  {
    forall name: Oid, inclusive: bool, k: nat | k < |LEAF_TREE| ensures Honest(LEAF_WORLD, name, inclusive, k, name, EndOfMibView) {
      assert |LEAF_WORLD.t| == |LEAF_TREE|;
      assert forall x :: x !in LEAF_WORLD.mib;
      assert forall x :: !Candidate(LEAF_WORLD, name, inclusive, k, x);
    }
  }

  lemma ObstinateLeaf()
    ensures Obstinate(LEAF_WORLD, NoMore, [1, 5, 2], FirstSlice(LEAF_WORLD, [1, 5, 2]))
  {
    hide Lt, Hidden, Scan, Skip;
    LeafOrder();
    LeafScan();
    assert LEAF_TREE[2] == Slice([1, 5], [1, 6], [LEAF, Root(1)]);
    LeafSeen();
    SkipNone(LEAF_WORLD, 2);
    assert FirstSlice(LEAF_WORLD, [1, 5, 2]) == 2;
    assert [1, 5, 2][..2] == [1, 5];
    assert !LEAF_WORLD.inView([1, 5, 2]);
    assert forall time, inclusive :: NoMore(time, [1, 5, 2], inclusive, 2) == Now([1, 5, 2], EndOfMibView);
  }

  /** The name lies in the slice of {1 5}. */
  lemma LeafScan()
    ensures Scan(LEAF_TREE, [1, 5, 2], 0) == 3
  {
    hide Lt;
    LeafOrder();
    TotalOrder();
    SmallOrder();
    ScanFrom(LEAF_TREE, [1, 5, 2], 0, 3);
  }

  /** The access check asks about {1}, parts of which are in view. */
  lemma LeafSeen()
    ensures !Hidden(LEAF_WORLD, 2)
  {
    assert [1, 5] == [1] + [5] && [1, 6] == [1] + [6];
    CommonIs([1, 5], [1, 6], 1);
    assert LEAF_TREE[2].start[..1] == [1];
  }

  /** {1 5} has one instance, outside the view. */
  const DARK_WORLD := World(LEAF_TREE, map[[1, 5, 1] := 7], OutsideLeaf, UnderLeaf)

  /** Handlers as they should be: the first candidate, or endOfMibView. */
  function DarkLeaf(time: nat, name: Oid, inclusive: bool, k: nat): Reply {
    if k == 2 && After(name, inclusive, [1, 5, 1]) then Now([1, 5, 1], Value(7)) else Now(name, EndOfMibView)
  }

  /** Asked for the successor of {1 4}, which is in view and about which nobody
      is obstinate, the search gets to the instance outside the view, asks past
      it, and is stuck there. */
  method CirclingBehind(running: nat) returns (s: Session, outcome: Outcome)
    ensures s.w == DARK_WORLD && Holds(LEAF_TREE, ROOTS + {LEAF}) && s.wants == [[1, 4]] && s.handlers == DarkLeaf
    ensures OutsideLeaf([1, 4]) && !Obstinate(DARK_WORLD, DarkLeaf, [1, 4], FirstSlice(DARK_WORLD, [1, 4]))
    ensures outcome == Stopped
  {
    hide Sensible, Honest, Obstinate, Prompt, Holds, Most, Forthcoming, FirstSlice, Delivered, Steady, Blocked, DarkLeaf;
    s := new Session(DARK_WORLD, [[1, 4]], DarkLeaf);
    LeafTree();
    SensibleDark();
    DarkLeafSteady();
    BlockedBehind();
    ghost var idle;
    outcome, idle := s.HandleRequest(running, EverySlice);
    assert s.wants[0] == [1, 4];
    assert 0 in DoomedWants(s.w, EverySlice, s.wants);
  }

  lemma SensibleDark()
    ensures Sensible(DARK_WORLD)
  {
    SensibleLeaf();
    forall p, x | UnderLeaf(p) && Prefix(p, x) ensures !OutsideLeaf(x) {
      assert LEAF_WORLD.excluded(p) && !LEAF_WORLD.inView(x);
    }
  }

  lemma DarkLeafSteady()
    ensures Prompt(DarkLeaf) && Steady(DARK_WORLD, DarkLeaf, EverySlice)
    ensures forall time, name, inclusive, k: nat {:trigger DarkLeaf(time, name, inclusive, k)} :: k < |LEAF_TREE| ==>
              Honest(DARK_WORLD, name, inclusive, k, DarkLeaf(time, name, inclusive, k).name, DarkLeaf(time, name, inclusive, k).typ)
  {
    hide Lt, Honest;
    forall time: nat, name: Oid, inclusive: bool, k: nat | k < |LEAF_TREE|
      ensures var reply := DarkLeaf(time, name, inclusive, k);
              Steadily(DARK_WORLD, EverySlice, name, inclusive, k, reply.name, reply.typ)
              && Honest(DARK_WORLD, name, inclusive, k, reply.name, reply.typ)
    {
      DarkLeafAnswers(name, inclusive, k);
    }
  }

  lemma DarkLeafAnswers(name: Oid, inclusive: bool, k: nat)
    requires k < |LEAF_TREE|
    ensures var reply := DarkLeaf(0, name, inclusive, k);
            Honest(DARK_WORLD, name, inclusive, k, reply.name, reply.typ)
            && ((forall x :: !Candidate(DARK_WORLD, name, inclusive, k, x)) ==> reply == Now(name, EndOfMibView))
  {
    hide Lt;
    OneInstance(k);
    TotalOrder();
    if k == 2 && After(name, inclusive, [1, 5, 1]) {
      assert Candidate(DARK_WORLD, name, inclusive, k, [1, 5, 1]);
    } else {
      assert forall x :: !Candidate(DARK_WORLD, name, inclusive, k, x);
    }
  }

  lemma OneInstance(k: nat)
    requires k < |LEAF_TREE|
    ensures InSlice(LEAF_TREE, k, [1, 5, 1]) <==> k == 2
  {
    LeafTree();
    HoldsTiles(LEAF_TREE, ROOTS + {LEAF});
    assert Lt([1, 5], [1, 5, 1]) && Lt([1, 5, 1], [1, 6]);
    assert InSlice(LEAF_TREE, 2, [1, 5, 1]);
    if InSlice(LEAF_TREE, k, [1, 5, 1]) { AtUnique(LEAF_TREE, k, 2, [1, 5, 1]); }
  }

  lemma BlockedBehind()
    ensures FirstSlice(DARK_WORLD, [1, 4]) == 1 && Blocked(DARK_WORLD, EverySlice, [1, 4], false, 1)
    ensures OutsideLeaf([1, 4]) && !Obstinate(DARK_WORLD, DarkLeaf, [1, 4], 1)
  {
    hide Lt, Hidden, Scan, Skip;
    BesideScan();
    BesideSeen();
    SkipNone(DARK_WORLD, 1);
    OneInstance(2);
    assert [1, 4][..2] == [1, 4] && [1, 5, 1][..2] == [1, 5];
    assert Candidate(DARK_WORLD, [1, 4], false, 2, [1, 5, 1]) by { assert Lt([1, 4], [1, 5, 1]) by { BesideOrder(); } }
    assert !DARK_WORLD.inView([1, 5, 1]) && DARK_WORLD.inView([1, 4]);
    assert Dark(DARK_WORLD, EverySlice, [1, 4], false, 1, 2);
  }

  lemma BesideOrder()
    ensures Lt([1], [1, 4]) && Lt([1, 4], [1, 5]) && Lt([1, 4], [1, 5, 1])
  {
  }

  lemma BesideScan()
    ensures Scan(LEAF_TREE, [1, 4], 0) == 2 && Lt([1, 4], LEAF_TREE[1].end)
  {
    hide Lt;
    BesideOrder();
    TotalOrder();
    SmallOrder();
    ScanFrom(LEAF_TREE, [1, 4], 0, 2);
  }

  lemma BesideSeen()
    ensures !Hidden(DARK_WORLD, 1) && !Hidden(DARK_WORLD, 2)
  {
    LeafSeen();
    CommonIs([1], [1, 5], 1);
    assert LEAF_TREE[1].start[..1] == [1];
    assert DARK_WORLD.t == LEAF_WORLD.t && DARK_WORLD.excluded([1]) == LEAF_WORLD.excluded([1]);
    assert [1, 5] == [1] + [5] && [1, 6] == [1] + [6];
    CommonIs([1, 5], [1, 6], 1);
    assert LEAF_TREE[2].start[..1] == [1];
  }

  function Owns(rs: seq<Request>): (qs: seq<Question>)
    ensures |qs| == |rs| && forall i | 0 <= i < |rs| :: qs[i] == Own(rs[i])
  {
    seq(|rs|, i requires 0 <= i < |rs| => Own(rs[i]))
  }

  lemma Judged(w: World, wants: seq<Oid>, rs: seq<Request>, qs: seq<Question>)
    requires Sensible(w) && |rs| == |wants| == |qs|
    requires forall i | 0 <= i < |rs| :: !(rs[i].cached && rs[i].delegated)
                                         && Searching(w, wants[i], rs[i], qs[i].name, qs[i].inclusive)
    ensures forall i {:trigger rs[i]} | 0 <= i < |rs| ::
              && (rs[i].cached ==> rs[i].at < |w.t|)
              && var c := Checked(w, Screened(w, rs[i]));
              && (Open(c) ==> c.cached) && (c.cached ==> c.at < |w.t|)
              && (!Open(c) ==> Final(c) && Delivered(w, wants[i], Fixed(wants[i], c)))
  {
    hide Delivered;
    forall i {:trigger rs[i]} | 0 <= i < |rs|
      ensures (rs[i].cached ==> rs[i].at < |w.t|)
      ensures var c := Checked(w, Screened(w, rs[i]));
              && (Open(c) ==> c.cached) && (c.cached ==> c.at < |w.t|)
              && (!Open(c) ==> Final(c) && Delivered(w, wants[i], Fixed(wants[i], c)))
    {
      if !rs[i].cached { assert Checked(w, Screened(w, rs[i])) == rs[i]; }
      else { Settle(w, wants[i], rs[i], qs[i].name, qs[i].inclusive); }
    }
  }

  lemma Progress(w: World, wants: seq<Oid>, rs: seq<Request>, qs: seq<Question>, rs': seq<Request>)
    requires Sensible(w) && |rs| == |wants| == |qs| == |rs'|
    requires forall i | 0 <= i < |rs| :: !(rs[i].cached && rs[i].delegated)
                                         && Searching(w, wants[i], rs[i], qs[i].name, qs[i].inclusive)
    requires forall i | 0 <= i < |rs| :: (rs[i].cached ==> rs[i].at < |w.t|)
    requires forall i | 0 <= i < |rs| :: (Open(rs[i]) ==> rs[i].cached) && rs'[i] == Pass(w, rs[i])
    ensures forall i | 0 <= i < |rs| :: Asks(w, wants[i], rs'[i])
    ensures Sum(Potentials(w, rs', Owns(rs'))) <= Sum(Potentials(w, rs, qs))
    ensures (exists i :: 0 <= i < |rs| && rs[i].cached && !Again(w, rs[i], qs[i].name)) ==>
              Sum(Potentials(w, rs', Owns(rs'))) < Sum(Potentials(w, rs, qs))
  {
    hide Searching, Asks, Potential, Sum, Pass, Sensible, Again;
    var a, b := Potentials(w, rs', Owns(rs')), Potentials(w, rs, qs);
    forall i | 0 <= i < |rs|
      ensures Asks(w, wants[i], rs'[i]) && a[i] <= b[i]
      ensures rs[i].cached && !Again(w, rs[i], qs[i].name) ==> a[i] < b[i]
    {
      Settle(w, wants[i], rs[i], qs[i].name, qs[i].inclusive);
    }
    SumLess(a, b);
  }

  lemma SamePotentials(w: World, rs: seq<Request>, qs: seq<Question>, rs': seq<Request>, qs': seq<Question>)
    requires |rs| == |qs| == |rs'| == |qs'|
    requires forall i | 0 <= i < |rs| :: rs[i].cached == rs'[i].cached && rs[i].at == rs'[i].at && qs[i] == qs'[i]
    ensures Potentials(w, rs', qs') == Potentials(w, rs, qs)
  {
  }

  lemma FirstAsk(w: World, want: Oid)
    requires Sensible(w)
    ensures var k := Scan(w.t, want, 0);
            var r := Request(want, Null, false, 0, false, false);
            Asks(w, want, if k == 0 || !Lt(want, w.t[k - 1].end) then r.(typ := EndOfMibView) else Assign(w, r, k - 1))
  {
    var k := Scan(w.t, want, 0);
    var r := Request(want, Null, false, 0, false, false);
    ScanFinds(w.t, want, 0);
    if k == 0 || !Lt(want, w.t[k - 1].end) {
      AtExists(w.t, want);
      NothingBeyond(w, want);
    } else {
      SoundStart(w, want, k - 1);
      Assigned(w, want, r, k - 1);
    }
  }

  lemma NothingBeyond(w: World, want: Oid)
    requires Sensible(w) && !(Leq([0], want) && Lt(want, [3]))
    ensures want == [] || forall x :: !(Visible(w, x) && Lt(want, x))
  {
    hide Visible, Tiles;
    UnderRoots(want);
    if want != [] {
      forall x | Visible(w, x) ensures !Lt(want, x) {
        VisibleSomewhere(w, x);
        Trichotomy(want, [3]);
        TotalOrder();
      }
    }
  }

  lemma SoundStart(w: World, want: Oid, k: nat)
    requires Sensible(w) && At(w.t, k, want)
    ensures Sound(w, want, want, false, k) && want != []
  {
    hide Visible;
    TotalOrder();
    assert k > 0 ==> Leq(w.t[0].end, w.t[k].start);
    assert Lt([0], w.t[0].end);
  }
}
