/** The registry of table indexes: which values of an index object have been
    handed out, and to which session. */
module IndexRegistry {
  import opened Sequences
  import opened Oids

  const NO_SESSION := 0

  class Index {
    const name: Oid
    const value: int
    var inUse: bool
    var session: int
    var nextIdx: Index?
    var nextOid: Index?

    constructor (name: Oid, value: int, session: int, nextIdx: Index?, nextOid: Index?)
      ensures this.name == name && this.value == value && this.inUse && this.session == session
      ensures this.nextIdx == nextIdx && this.nextOid == nextOid
    {
      this.name, this.value, this.inUse, this.session := name, value, true, session;
      this.nextIdx, this.nextOid := nextIdx, nextOid;
    }
  }

  // ----- comparing values -----

  const INT_MIN := -0x8000_0000
  const INT_MAX := 0x7fff_ffff

  /** A long difference stored in an int. */
  function Truncate(x: int): (r: int)
    ensures INT_MIN <= r <= INT_MAX
    ensures INT_MIN <= x <= INT_MAX ==> r == x
  {
    (x - INT_MIN) % 0x1_0000_0000 + INT_MIN
  }

  /** Can the two values be compared by their difference in an int? */
  predicate Near(a: int, b: int) { INT_MIN <= a - b <= INT_MAX }

  /** The difference survives exactly when it fits. */
  lemma DifferenceSound(a: int, b: int)
    ensures Truncate(a - b) == a - b <==> Near(a, b)
  {
  }

  /** One value further, and the order of the list would be misjudged. */
  lemma DifferenceFails()
    ensures Near(0, INT_MAX + 1) && !Near(0, INT_MAX + 2) && Truncate(0 - (INT_MAX + 2)) > 0
  {
  }

  // ----- the two-level list -----

  /** One OID's values: same name, strictly increasing. */
  ghost predicate Ordered(chain: seq<Index>) {
    && chain != []
    && (forall j | 0 <= j < |chain| :: chain[j].name == chain[0].name)
    && forall j, k | 0 <= j < k < |chain| :: chain[j].value < chain[k].value
  }

  ghost predicate Sorted(chains: seq<seq<Index>>) {
    && (forall c {:trigger chains[c]} | 0 <= c < |chains| :: Ordered(chains[c]))
    && forall c, d {:trigger chains[c], chains[d]} | 0 <= c < d < |chains| :: Lt(chains[c][0].name, chains[d][0].name)
  }

  function Nth(chain: seq<Index>, j: nat): Index? {
    if j < |chain| then chain[j] else null
  }

  /** The first entry of chain c, if there is one. */
  function Head(chains: seq<seq<Index>>, c: int): Index? {
    if 0 <= c < |chains| then Nth(chains[c], 0) else null
  }

  ghost function Members(chain: seq<Index>): set<Index> { set e | e in chain }

  ghost predicate IdxLinks(chain: seq<Index>)
    reads Members(chain)`nextIdx
  {
    forall j {:trigger chain[j]} | 0 <= j < |chain| :: chain[j].nextIdx == Nth(chain, j + 1)
  }

  /** Every entry of a chain knows where the next OID's chain starts. */
  ghost predicate OidLinks(chain: seq<Index>, next: Index?)
    reads Members(chain)`nextOid
  {
    forall j {:trigger chain[j]} | 0 <= j < |chain| :: chain[j].nextOid == next
  }

  ghost function All(chains: seq<seq<Index>>): set<Index> {
    set c, e | 0 <= c < |chains| && e in chains[c] :: e
  }

  /** The heads that follow each chain. */
  ghost function Nexts(chains: seq<seq<Index>>): (nexts: seq<Index?>)
    ensures |nexts| == |chains| && forall d {:trigger nexts[d]} | 0 <= d < |chains| :: nexts[d] == Head(chains, d + 1)
  {
    seq(|chains|, d requires 0 <= d < |chains| => Head(chains, d + 1))
  }

  /** All links are right if chain c is followed by nexts[c]. */
  ghost predicate LinksOk(chains: seq<seq<Index>>, nexts: seq<Index?>)
    reads All(chains)`nextIdx, All(chains)`nextOid
  {
    |nexts| == |chains| &&
    forall c {:trigger chains[c]} | 0 <= c < |chains| :: IdxLinks(chains[c]) && OidLinks(chains[c], nexts[c])
  }

  ghost predicate Linked(head: Index?, chains: seq<seq<Index>>)
    reads All(chains)`nextIdx, All(chains)`nextOid
  {
    head == Head(chains, 0) && LinksOk(chains, Nexts(chains))
  }

  // ----- what the list stands for -----

  datatype Status = Status(inUse: bool, session: int)

  type View = map<(Oid, int), Status>

  ghost predicate Shows(chains: seq<seq<Index>>, m: View)
    reads All(chains)`inUse, All(chains)`session
  {
    && (forall e | e in All(chains) :: (e.name, e.value) in m && m[(e.name, e.value)] == Status(e.inUse, e.session))
    && forall k | k in m :: exists e :: e in All(chains) && (e.name, e.value) == k
  }

  /** The first c chains are for smaller names. */
  ghost predicate Before(chains: seq<seq<Index>>, c: nat, name: Oid) {
    c <= |chains| && forall d {:trigger chains[d]} | 0 <= d < c :: chains[d] != [] && Lt(chains[d][0].name, name)
  }

  /** Different chains share no entry. */
  lemma ChainsApart(chains: seq<seq<Index>>)
    requires Sorted(chains)
    ensures forall c, d, e {:trigger e in chains[c], chains[d]} |
              0 <= c < |chains| && 0 <= d < |chains| && c != d && e in chains[c] :: e !in chains[d]
  {
    hide Lt;
    forall c, d, e {:trigger e in chains[c], chains[d]} |
      0 <= c < |chains| && 0 <= d < |chains| && c != d && e in chains[c] ensures e !in chains[d]
    {
      assert Ordered(chains[c]) && Ordered(chains[d]) && e.name == chains[c][0].name;
      assert chains[c][0].name != chains[d][0].name by {
        Trichotomy(chains[c][0].name, chains[d][0].name);
        if c < d { assert Lt(chains[c][0].name, chains[d][0].name); } else { assert Lt(chains[d][0].name, chains[c][0].name); }
      }
    }
  }

  lemma SameChain(chains: seq<seq<Index>>, c: nat, d: nat)
    requires Sorted(chains) && c < |chains| && d < |chains| && chains[c][0].name == chains[d][0].name
    ensures c == d
  {
    Trichotomy(chains[c][0].name, chains[c][0].name);
  }

  /** A name and a value identify an entry. */
  lemma KeysUnique(chains: seq<seq<Index>>, x: Index, y: Index)
    requires Sorted(chains) && x in All(chains) && y in All(chains) && x.name == y.name && x.value == y.value
    ensures x == y
  {
    hide Lt;
    var c :| 0 <= c < |chains| && x in chains[c];
    var d :| 0 <= d < |chains| && y in chains[d];
    assert Ordered(chains[c]) && Ordered(chains[d]);
    SameChain(chains, c, d);
    var j :| 0 <= j < |chains[c]| && chains[c][j] == x;
    var k :| 0 <= k < |chains[d]| && chains[d][k] == y;
  }

  lemma InAll(chains: seq<seq<Index>>, d: nat, x: Index)
    requires d < |chains| && x in chains[d]
    ensures x in All(chains)
  {
  }

  /** Another chain for the same name keeps the list sorted. */
  lemma Swapped(chains: seq<seq<Index>>, c: nat, r: seq<Index>)
    requires Sorted(chains) && c < |chains| && Ordered(r) && r[0].name == chains[c][0].name
    ensures Sorted(chains[c := r])
    ensures forall x | x in All(chains) && x !in chains[c] :: x in All(chains[c := r])
    ensures forall x | x in All(chains[c := r]) :: x in r || (x in All(chains) && x !in chains[c])
    ensures forall x | x in r :: x in All(chains[c := r])
    ensures forall x | x in chains[c] :: x in All(chains)
  {
    hide Lt, Ordered;
    var s := chains[c := r];
    ChainsApart(chains);
    forall x | x in All(chains) && x !in chains[c] ensures x in All(s) {
      var d :| 0 <= d < |chains| && x in chains[d];
      InAll(s, d, x);
    }
    forall x | x in r ensures x in All(s) { InAll(s, c, x); }
    forall x | x in chains[c] ensures x in All(chains) { InAll(chains, c, x); }
    forall x | x in All(s) ensures x in r || (x in All(chains) && x !in chains[c]) {
      var d :| 0 <= d < |s| && x in s[d];
      if d != c { InAll(chains, d, x); }
    }
  }

  /** A new value in an existing chain. */
  lemma PlaceSorted(chains: seq<seq<Index>>, c: nat, j: nat, e: Index)
    requires Sorted(chains) && c < |chains| && j <= |chains[c]| && e.name == chains[c][0].name
    requires forall k | 0 <= k < j :: chains[c][k].value < e.value
    requires j < |chains[c]| ==> e.value < chains[c][j].value
    ensures Sorted(chains[c := Spliced(chains[c], j, e)])
    ensures All(chains[c := Spliced(chains[c], j, e)]) == All(chains) + {e}
  {
    hide Lt, Spliced, Sorted, All;
    var chain, r := chains[c], Spliced(chains[c], j, e);
    assert Ordered(chain) by { ChainOrdered(chains, c); }
    assert Ordered(r) && r[0].name == chain[0].name;
    Swapped(chains, c, r);
    assert r[j] == e && e in r;
    forall x | x in chain ensures x in r {
      var k :| 0 <= k < |chain| && chain[k] == x;
      assert r[if k < j then k else k + 1] == x;
    }
    forall x | x in r && x != e ensures x in chain {
      var k :| 0 <= k < |r| && r[k] == x;
    }
  }

  lemma ChainOrdered(chains: seq<seq<Index>>, c: nat)
    requires Sorted(chains) && c < |chains|
    ensures Ordered(chains[c])
  {
  }

  /** A chain of its own for a new name. */
  lemma WedgeSorted(chains: seq<seq<Index>>, c: nat, e: Index)
    requires Sorted(chains) && Before(chains, c, e.name)
    requires c < |chains| ==> Lt(e.name, chains[c][0].name)
    ensures Sorted(Spliced(chains, c, [e]))
  {
    hide Lt, Spliced, Ordered;
    var s: seq<seq<Index>> := Spliced(chains, c, [e]);
    assert Ordered([e]) by { One(e); }
    forall a, b {:trigger s[a], s[b]} | 0 <= a < b < |s|
      ensures s[a] != [] && s[b] != [] && Lt(s[a][0].name, s[b][0].name)
    {
      Filled(chains);
      if a == c && b > c + 1 {
        assert Lt(chains[c][0].name, chains[b - 1][0].name);
        Transitive(e.name, chains[c][0].name, chains[b - 1][0].name);
      }
    }
  }

  lemma One(e: Index)
    ensures Ordered([e])
  {
  }

  lemma Filled(chains: seq<seq<Index>>)
    requires Sorted(chains)
    ensures forall c {:trigger chains[c]} | 0 <= c < |chains| :: chains[c] != []
  {
  }

  lemma WedgeAll(chains: seq<seq<Index>>, c: nat, e: Index)
    requires c <= |chains|
    ensures All(Spliced(chains, c, [e])) == All(chains) + {e}
  {
    hide Spliced;
    var s := Spliced(chains, c, [e]);
    forall x | x in All(chains) ensures x in All(s) {
      var d :| 0 <= d < |chains| && x in chains[d];
      assert s[if d < c then d else d + 1] == chains[d];
    }
    assert s[c] == [e];
    InAll(s, c, e);
    forall x | x in All(s) ensures x in All(chains) + {e} {
      var d :| 0 <= d < |s| && x in s[d];
      if d != c { InAll(chains, if d < c then d else d - 1, x); }
    }
  }

  lemma CutSorted(chains: seq<seq<Index>>, c: nat, j: nat)
    requires Sorted(chains) && c < |chains| && j < |chains[c]| && |chains[c]| > 1
    ensures Sorted(chains[c := Cut(chains[c], j)])
    ensures All(chains[c := Cut(chains[c], j)]) == All(chains) - {chains[c][j]}
  {
    hide Lt, Cut, Sorted, All;
    var chain, r := chains[c], Cut(chains[c], j);
    assert Ordered(chain) by { ChainOrdered(chains, c); }
    assert Ordered(r) && r[0].name == chain[0].name;
    Swapped(chains, c, r);
    assert chain[j] in chain;
    forall x | x in chain && x != chain[j] ensures x in r {
      var k :| 0 <= k < |chain| && chain[k] == x;
      assert r[if k < j then k else k - 1] == x;
    }
    forall x | x in r ensures x in chain && x != chain[j] {
      var k :| 0 <= k < |r| && r[k] == x;
      assert x == chain[if k < j then k else k + 1];
    }
  }

  lemma WithoutSorted(chains: seq<seq<Index>>, c: nat)
    requires Sorted(chains) && c < |chains| && |chains[c]| == 1
    ensures Sorted(Cut(chains, c)) && All(Cut(chains, c)) == All(chains) - {chains[c][0]}
  {
    hide Lt, Cut;
    var s := Cut(chains, c);
    ChainsApart(chains);
    assert chains[c][0] in chains[c];
    forall x | x in All(chains) && x != chains[c][0] ensures x in All(s) {
      var d :| 0 <= d < |chains| && x in chains[d];
      assert s[if d < c then d else d - 1] == chains[d];
    }
    forall x | x in All(s) ensures x in All(chains) && x != chains[c][0] {
      var d :| 0 <= d < |s| && x in s[d];
      assert s[d] == chains[if d < c then d else d + 1];
    }
  }

  /** The map after an entry was added or removed. */
  lemma ShowsMore(chains: seq<seq<Index>>, s: seq<seq<Index>>, m: View, e: Index)
    requires Shows(chains, m) && Sorted(s) && All(s) == All(chains) + {e} && e !in All(chains)
    ensures Shows(s, m[(e.name, e.value) := Status(e.inUse, e.session)])
  {
    hide Sorted;
    forall x | x in All(chains) ensures (x.name, x.value) != (e.name, e.value) {
      if x.name == e.name && x.value == e.value {
        KeysUnique(s, x, e);
      }
    }
  }

  lemma ShowsLess(chains: seq<seq<Index>>, s: seq<seq<Index>>, m: View, e: Index)
    requires Shows(chains, m) && Sorted(chains) && All(s) == All(chains) - {e} && e in All(chains)
    ensures Shows(s, m - {(e.name, e.value)})
  {
    hide Sorted;
    forall x | x in All(s) ensures (x.name, x.value) != (e.name, e.value) {
      if x.name == e.name && x.value == e.value {
        KeysUnique(chains, x, e);
      }
    }
  }

  /** Link a new entry in behind another one of the same chain. */
  method LinkBehind(entry: Index, prev: Index, ghost chains: seq<seq<Index>>, ghost c: nat, ghost j: nat, ghost nexts: seq<Index?>)
    requires c < |chains| == |nexts| && 0 < j <= |chains[c]| && prev == chains[c][j - 1]
    requires forall k | 0 <= k < |chains[c]| :: (chains[c][k] == prev <==> k == j - 1) && chains[c][k] != entry
    requires forall d {:trigger chains[d]} | 0 <= d < |chains| :: IdxLinks(chains[d]) && OidLinks(chains[d], nexts[d])
    requires forall d {:trigger chains[d]} | 0 <= d < |chains| && d != c :: prev !in chains[d] && entry !in chains[d]
    modifies entry`nextIdx, entry`nextOid, prev`nextIdx
    ensures IdxLinks(Spliced(chains[c], j, entry)) && OidLinks(Spliced(chains[c], j, entry), nexts[c])
    ensures forall d {:trigger chains[d]} | 0 <= d < |chains| && d != c :: IdxLinks(chains[d]) && OidLinks(chains[d], nexts[d])
  {
    hide Spliced;
    assert prev.nextIdx == Nth(chains[c], j) && prev.nextOid == nexts[c];
    entry.nextIdx := prev.nextIdx;
    entry.nextOid := prev.nextOid;
    prev.nextIdx := entry;
  }

  method LinkInside(entry: Index, prev: Index, ghost chains: seq<seq<Index>>, ghost c: nat, ghost j: nat, ghost nexts: seq<Index?>)
    requires c < |chains| && 0 < j <= |chains[c]| && prev == chains[c][j - 1]
    requires forall k | 0 <= k < |chains[c]| :: chains[c][k] == prev <==> k == j - 1
    requires LinksOk(chains, nexts) && entry !in All(chains)
    requires forall d {:trigger chains[d]} | 0 <= d < |chains| && d != c :: prev !in chains[d]
    modifies entry`nextIdx, entry`nextOid, prev`nextIdx
    ensures LinksOk(chains[c := Spliced(chains[c], j, entry)], nexts)
  {
    hide Spliced, IdxLinks, OidLinks;
    forall d, x {:trigger x in chains[d]} | 0 <= d < |chains| && x in chains[d] ensures x != entry {
      InAll(chains, d, x);
    }
    assert forall k | 0 <= k < |chains[c]| :: chains[c][k] in chains[c];
    LinkBehind(entry, prev, chains, c, j, nexts);
  }

  /** Set the links of a new entry, which is not on any chain yet. */
  method LinkNew(entry: Index, nextIdx: Index?, nextOid: Index?, ghost chains: seq<seq<Index>>, ghost nexts: seq<Index?>)
    requires LinksOk(chains, nexts) && entry !in All(chains)
    modifies entry`nextIdx, entry`nextOid
    ensures LinksOk(chains, nexts) && entry.nextIdx == nextIdx && entry.nextOid == nextOid
  {
    forall d, x {:trigger x in chains[d]} | 0 <= d < |chains| && x in chains[d] ensures x != entry {
      InAll(chains, d, x);
    }
    entry.nextIdx, entry.nextOid := nextIdx, nextOid;
  }

  /** Make every entry of a chain point to a new next chain. */
  method RelinkChain(prev: Index, target: Index?, ghost chains: seq<seq<Index>>, ghost p: nat, ghost nexts: seq<Index?>)
    requires p < |chains| == |nexts| && prev == Head(chains, p)
    requires forall d {:trigger chains[d]} | 0 <= d < |chains| :: IdxLinks(chains[d])
    requires forall d {:trigger chains[d]} | 0 <= d < |chains| && d != p :: OidLinks(chains[d], nexts[d])
    requires forall d, e {:trigger e in chains[p], chains[d]} | 0 <= d < |chains| && d != p && e in chains[p] :: e !in chains[d]
    modifies Members(chains[p])`nextOid
    ensures forall d {:trigger chains[d]} | 0 <= d < |chains| ::
              IdxLinks(chains[d]) && OidLinks(chains[d], if d == p then target else nexts[d])
  {
    var ptr: Index? := prev;
    ghost var k := 0;
    while ptr != null
      invariant 0 <= k <= |chains[p]| && ptr == Nth(chains[p], k)
      invariant forall j {:trigger chains[p][j]} | 0 <= j < k :: chains[p][j].nextOid == target
      invariant forall d {:trigger chains[d]} | 0 <= d < |chains| :: IdxLinks(chains[d])
      invariant forall d {:trigger chains[d]} | 0 <= d < |chains| && d != p :: OidLinks(chains[d], nexts[d])
      decreases |chains[p]| - k
    {
      assert ptr == chains[p][k] && ptr in chains[p];
      assert forall d {:trigger chains[d]} | 0 <= d < |chains| && d != p :: ptr !in chains[d];
      ptr.nextOid := target;
      ptr := ptr.nextIdx;
      k := k + 1;
    }
  }

  /** The same for the chain before a place, if there is one. */
  method RelinkOids(prev: Index?, target: Index?, ghost chains: seq<seq<Index>>, ghost p: int, ghost nexts: seq<Index?>)
    requires Sorted(chains) && -1 <= p < |chains| && prev == Head(chains, p) && LinksOk(chains, nexts)
    requires p >= 0 ==> prev != null
    modifies All(chains)`nextOid
    ensures LinksOk(chains, if p >= 0 then nexts[p := target] else nexts)
  {
    hide IdxLinks, OidLinks, Sorted;
    ChainsApart(chains);
    if prev != null {
      assert forall e | e in Members(chains[p]) :: e in All(chains);
      RelinkChain(prev, target, chains, p, nexts);
    }
  }

  // ----- the map, and what may happen to it -----

  datatype Want = This(value: int) | Any | New
  datatype Grant = Granted(value: int) | Refused
  datatype Outcome = Done | NotAllocated | WrongSession

  predicate Taken(m: View, name: Oid, v: int) { (name, v) in m && m[(name, v)].inUse }

  /** The search among the values remembered for the OID will be right: it can
      tell v from all smaller ones, and from the next. */
  ghost predicate Comparable(m: View, name: Oid, v: int) {
    && (forall u | (name, u) in m && u < v :: Near(v, u))
    && ((exists u :: (name, u) in m && v <= u) ==> exists u :: (name, u) in m && v <= u && Near(v, u))
  }

  /** What the search looks at: the difference in an int. */
  function Difference(v: int, u: int): int { Truncate(v - u) }

  /** Where the search stops: at the first value for which the difference in an
      int is not positive. */
  function Seek(values: seq<int>, v: int): (j: nat)
    ensures j <= |values|
    ensures forall k | 0 <= k < j :: Difference(v, values[k]) > 0
    ensures j < |values| ==> Difference(v, values[j]) <= 0
  {
    if values == [] || Difference(v, values[0]) <= 0 then 0 else 1 + Seek(values[1..], v)
  }

  /** The search stops where v is or belongs, and tells which. */
  ghost predicate SeeksWell(values: seq<int>, v: int) {
    var j := Seek(values, v);
    && (forall k | 0 <= k < j :: values[k] < v)
    && (j < |values| ==> v <= values[j] && (Difference(v, values[j]) == 0 <==> v == values[j]))
  }

  predicate Int32(v: int) { INT_MIN <= v <= INT_MAX }

  /** A value can be told from the smaller ones and from the next. */
  ghost predicate Tellable(values: seq<int>, v: int) {
    && (forall k | 0 <= k < |values| && values[k] < v :: Near(v, values[k]))
    && ((exists k :: 0 <= k < |values| && v <= values[k]) ==> exists k :: 0 <= k < |values| && v <= values[k] && Near(v, values[k]))
  }

  /** On a sorted list the search is right for such a value; and with 32-bit
      values for no other. */
  lemma SeekRight(values: seq<int>, v: int)
    requires forall j, k | 0 <= j < k < |values| :: values[j] < values[k]
    ensures Tellable(values, v) ==> SeeksWell(values, v)
    ensures Int32(v) && (forall k | 0 <= k < |values| :: Int32(values[k])) ==> (SeeksWell(values, v) <==> Tellable(values, v))
  {
    hide Difference;
    var j := Seek(values, v);
    forall k | 0 <= k < |values| ensures DifferenceTells(v, values[k]) { DifferenceSign(v, values[k]); }
    if j < |values| && v <= values[j] {
      assert forall k | 0 <= k < |values| && values[k] < v :: k < j;
    }
  }

  /** The difference has the right sign if it fits; and for 32-bit values only
      then. */
  predicate DifferenceTells(v: int, u: int) {
    && (Near(v, u) ==> Difference(v, u) == v - u)
    && (Int32(v) && Int32(u) ==>
          && (u < v && Difference(v, u) > 0 ==> Near(v, u))
          && (v <= u && Difference(v, u) <= 0 ==> Near(v, u)))
  }

  lemma DifferenceSign(v: int, u: int)
    ensures DifferenceTells(v, u)
  {
  }

  predicate Unused(m: View, name: Oid, v: int) { (name, v) in m && !m[(name, v)].inUse }

  /** A value that was never used: one more than the largest, or 1. */
  ghost predicate Fresh(m: View, name: Oid, v: int) {
    if exists u :: (name, u) in m then (name, v - 1) in m && forall u | (name, u) in m :: u < v else v == 1
  }

  /** The rules of sections 7.1.2 and 7.1.3 of RFC 2741 on the map. */
  ghost predicate Grants(m: View, name: Oid, want: Want, g: Grant) {
    match want
    case This(v) => g == if Taken(m, name, v) then Refused else Granted(v)
    case New => g.Granted? && Fresh(m, name, g.value)
    case Any =>
      && g.Granted?
      && if exists u :: Unused(m, name, u)
         then Unused(m, name, g.value) && forall u | Unused(m, name, u) :: g.value <= u
         else Fresh(m, name, g.value)
  }

  /** What is granted is in nobody's hands. */
  lemma NeverTwice(m: View, name: Oid, want: Want, g: Grant)
    requires Grants(m, name, want, g) && g.Granted?
    ensures !Taken(m, name, g.value)
    ensures want.New? ==> (name, g.value) !in m && forall u | (name, u) in m :: u < g.value
  {
  }

  /** And nothing is refused but a value that somebody holds. */
  lemma RefusedWhen(m: View, name: Oid, want: Want, g: Grant)
    requires Grants(m, name, want, g)
    ensures g == Refused <==> want.This? && Taken(m, name, want.value)
    ensures g.Granted? && want.This? ==> g.value == want.value
    ensures g.Granted? ==> (name, g.value) !in m || Unused(m, name, g.value)
  {
  }

  /** A value that its session gives back is there for anyone: remembered, it is
      granted again by value or as ANY, unless a smaller one is unused; and
      forgotten, it leaves the map as if it had never been granted. */
  lemma GivenBack(m: View, name: Oid, want: Want, ss: int, g: Grant, m1: View, remember: bool, m2: View, want': Want, g': Grant)
    requires Effect(m, Register(name, want, ss, g), m1) && g.Granted?
    requires Effect(m1, Unregister(name, g.value, remember, ss), m2) && Grants(m2, name, want', g')
    ensures !Taken(m2, name, g.value) && (want' == This(g.value) ==> g' == Granted(g.value))
    ensures remember && want'.Any? ==> g'.Granted? && g'.value <= g.value && Unused(m2, name, g'.value)
    ensures !remember && (name, g.value) !in m ==> m2 == m
    ensures !remember && want'.New? && want.New? ==> g' == g
  {
    if !remember && want.New? && want'.New? {
      assert m2 == m && Fresh(m, name, g.value) && Fresh(m, name, g'.value);
    }
    if remember { assert Unused(m2, name, g.value); }
  }

  /** What a call does to the map. */
  datatype Call =
    | Register(name: Oid, want: Want, ss: int, g: Grant)
    | Unregister(name: Oid, value: int, remember: bool, ss: int)
    | Close(ss: int)

  ghost predicate Effect(m: View, call: Call, m': View) {
    match call
    case Register(name, want, ss, g) =>
      && Grants(m, name, want, g)
      && m' == if g.Granted? then m[(name, g.value) := Status(true, ss)] else m
    case Unregister(name, v, remember, ss) =>
      m' == if !Taken(m, name, v) || m[(name, v)].session != ss then m
            else if remember then m[(name, v) := Status(false, NO_SESSION)]
            else m - {(name, v)}
    case Close(ss) => m' == Released(m, ss)
  }

  /** A run: the map before and after each call. */
  ghost predicate Run(maps: seq<View>, calls: seq<Call>) {
    |maps| == |calls| + 1 && forall i {:trigger calls[i]} | 0 <= i < |calls| :: Effect(maps[i], calls[i], maps[i + 1])
  }

  /** Does a call take a value away from the session that holds it? */
  predicate GivesUp(call: Call, name: Oid, v: int, ss: int) {
    match call
    case Unregister(n, u, _, s) => n == name && u == v && s == ss
    case Close(s) => s == ss
    case _ => false
  }

  /** Over any run, a value stays with its session, and is granted to nobody,
      until that session unregisters it or is closed. */
  lemma {:induction false} StaysTaken(maps: seq<View>, calls: seq<Call>, name: Oid, v: int, ss: int)
    requires Run(maps, calls) && Taken(maps[0], name, v) && maps[0][(name, v)].session == ss
    requires forall i | 0 <= i < |calls| :: !GivesUp(calls[i], name, v, ss)
    ensures Taken(maps[|calls|], name, v) && maps[|calls|][(name, v)].session == ss
    ensures forall i | 0 <= i < |calls| && calls[i].Register? && calls[i].name == name :: calls[i].g != Granted(v)
    decreases |calls|
  {
    if calls != [] {
      var n := |calls| - 1;
      var before := calls[..n];
      assert forall i {:trigger before[i]} | 0 <= i < n :: before[i] == calls[i] && maps[..n + 1][i] == maps[i] && maps[..n + 1][i + 1] == maps[i + 1];
      StaysTaken(maps[..n + 1], before, name, v, ss);
      assert Effect(maps[n], calls[n], maps[n + 1]);
      if calls[n].Register? && calls[n].g.Granted? {
        NeverTwice(maps[n], calls[n].name, calls[n].want, calls[n].g);
      }
    }
  }

  function Released(m: View, ss: int): View {
    map k | k in m :: if m[k].session == ss then Status(false, NO_SESSION) else m[k]
  }

  /** The values recorded for a name are those of its chain. */
  lemma ValuesOf(chains: seq<seq<Index>>, m: View, name: Oid, c: nat)
    requires Sorted(chains) && Shows(chains, m) && c < |chains| && chains[c] != [] && chains[c][0].name == name
    ensures forall k {:trigger chains[c][k]} | 0 <= k < |chains[c]| ::
              (name, chains[c][k].value) in m
              && m[(name, chains[c][k].value)] == Status(chains[c][k].inUse, chains[c][k].session)
    ensures forall u | (name, u) in m :: exists k :: 0 <= k < |chains[c]| && chains[c][k].value == u
  {
    hide Lt;
    assert Ordered(chains[c]);
    forall k {:trigger chains[c][k]} | 0 <= k < |chains[c]| ensures chains[c][k] in All(chains) && chains[c][k].name == name {
      assert chains[c][k] in chains[c];
      InAll(chains, c, chains[c][k]);
    }
    forall u | (name, u) in m ensures exists k :: 0 <= k < |chains[c]| && chains[c][k].value == u {
      var e :| e in All(chains) && (e.name, e.value) == (name, u);
      var d :| 0 <= d < |chains| && e in chains[d];
      assert Ordered(chains[d]) && chains[d][0].name == name;
      SameChain(chains, c, d);
    }
  }

  /** Nothing is recorded for a name without a chain. */
  lemma NoValues(chains: seq<seq<Index>>, m: View, name: Oid, c: nat)
    requires Sorted(chains) && Shows(chains, m) && Before(chains, c, name)
    requires Head(chains, c) != null ==> Lt(name, Head(chains, c).name)
    ensures forall u :: (name, u) !in m
  {
    hide Lt, Sorted, Ordered, Shows, Before;
    forall u ensures (name, u) !in m {
      if (name, u) in m {
        var e, d := EntryOf(chains, m, name, u);
        Trichotomy(name, name);
        if d < c {
          BeforeAt(chains, c, name, d);
        } else {
          NotAfter(chains, c, d);
          Trichotomy(Head(chains, c).name, name);
        }
      }
    }
  }

  /** The entry that holds a value, and the chain it is on. */
  lemma EntryOf(chains: seq<seq<Index>>, m: View, name: Oid, u: int) returns (e: Index, d: nat)
    requires Sorted(chains) && Shows(chains, m) && (name, u) in m
    ensures d < |chains| && chains[d] != [] && e in chains[d] && e.value == u && chains[d][0].name == name
  {
    hide Lt;
    e :| e in All(chains) && (e.name, e.value) == (name, u);
    d :| 0 <= d < |chains| && e in chains[d];
    assert Ordered(chains[d]);
  }

  lemma BeforeAt(chains: seq<seq<Index>>, c: nat, name: Oid, d: nat)
    requires Before(chains, c, name) && d < c
    ensures d < |chains| && chains[d] != [] && Lt(chains[d][0].name, name)
  {
    hide Lt;
  }

  lemma NotAfter(chains: seq<seq<Index>>, c: nat, d: nat)
    requires Sorted(chains) && c <= d < |chains|
    ensures chains[d] != [] && Head(chains, c) != null
    ensures c == d || Lt(Head(chains, c).name, chains[d][0].name)
  {
    hide Lt;
    Filled(chains);
  }

  function Values(chain: seq<Index>): (values: seq<int>)
    ensures |values| == |chain| && forall k {:trigger values[k]} | 0 <= k < |chain| :: values[k] == chain[k].value
  {
    seq(|chain|, k requires 0 <= k < |chain| => chain[k].value)
  }

  lemma {:induction false} SeekIs(values: seq<int>, v: int, j: nat)
    requires j <= |values| && forall k | 0 <= k < j :: Difference(v, values[k]) > 0
    requires j < |values| ==> Difference(v, values[j]) <= 0
    ensures Seek(values, v) == j
  {
    if j > 0 && values != [] {
      SeekIs(values[1..], v, j - 1);
    }
  }

  lemma StopsAt(chain: seq<Index>, v: int, j: nat)
    requires j <= |chain| && forall k | 0 <= k < j :: Difference(v, chain[k].value) > 0
    requires j < |chain| ==> Difference(v, chain[j].value) <= 0
    ensures Seek(Values(chain), v) == j
  {
    hide Difference;
    var values := Values(chain);
    forall k | 0 <= k < j ensures Difference(v, values[k]) > 0 { assert values[k] == chain[k].value; }
    SeekIs(values, v, j);
  }

  /** What can be compared with the values remembered can be told from those on
      the chain. */
  lemma ComparableTells(chain: seq<Index>, m: View, name: Oid, v: int)
    requires Ordered(chain) && Comparable(m, name, v)
    requires forall k {:trigger chain[k]} | 0 <= k < |chain| :: (name, chain[k].value) in m
    requires forall u | (name, u) in m :: exists k :: 0 <= k < |chain| && chain[k].value == u
    ensures Tellable(Values(chain), v)
    ensures forall j, k | 0 <= j < k < |chain| :: Values(chain)[j] < Values(chain)[k]
  {
    hide Near;
    var values := Values(chain);
    forall j, k | 0 <= j < k < |values| ensures values[j] < values[k] {
      assert chain[j].value < chain[k].value;
    }
    forall k | 0 <= k < |values| && values[k] < v ensures Near(v, values[k]) {
      assert (name, chain[k].value) in m;
    }
    if k :| 0 <= k < |values| && v <= values[k] {
      assert (name, chain[k].value) in m;
      var u :| (name, u) in m && v <= u && Near(v, u);
      var i :| 0 <= i < |chain| && chain[i].value == u;
      assert values[i] == u;
    }
  }

  lemma WellFound(chain: seq<Index>, v: int)
    requires SeeksWell(Values(chain), v)
    ensures var j := Seek(Values(chain), v);
            && (forall k | 0 <= k < j :: chain[k].value < v)
            && (j < |chain| ==> v <= chain[j].value && (Difference(v, chain[j].value) == 0 <==> v == chain[j].value))
  {
    hide Difference, Seek;
    var values := Values(chain);
    forall k | 0 <= k < Seek(values, v) ensures chain[k].value < v { assert values[k] < v; }
  }

  class Registry {
    var head: Index?
    ghost var chains: seq<seq<Index>>
    ghost var m: View

    constructor ()
      ensures Valid() && m == map[] && chains == []
    {
      head, chains, m := null, [], map[];
    }

    ghost predicate Valid()
      reads this, All(chains)
    {
      Sorted(chains) && Linked(head, chains) && Shows(chains, m)
    }

    /** Find the chain of a name, or where it would have to stand. */
    method FindOid(name: Oid) returns (idxptr: Index?, prev: Index?, res: int, ghost c: nat)
      requires Sorted(chains) && Linked(head, chains)
      ensures Before(chains, c, name) && idxptr == Head(chains, c) && prev == Head(chains, c - 1)
      ensures if idxptr == null then res != 0 else res == Cmp(name, idxptr.name) && res <= 0
    {
      hide Ordered, Lt;
      idxptr, prev, res, c := head, null, 1, 0;
      while idxptr != null
        invariant Before(chains, c, name) && idxptr == Head(chains, c) && prev == Head(chains, c - 1) && res > 0
        decreases |chains| - c
      {
        assert Ordered(chains[c]);
        res := Compare(name, idxptr.name);
        if res <= 0 {
          break;
        }
        Trichotomy(name, idxptr.name);
        prev := idxptr;
        idxptr := idxptr.nextOid;
        c := c + 1;
      }
    }

    /** Find a value in a chain, or where it would have to stand. */
    method FindValue(idxptr: Index, value: int, ghost chain: seq<Index>)
      returns (idxptr2: Index?, prev: Index?, res2: int, ghost j: nat)
      requires chain != [] && IdxLinks(chain) && idxptr == chain[0]
      ensures j == Seek(Values(chain), value) && idxptr2 == Nth(chain, j) && prev == (if j > 0 then chain[j - 1] else null)
      ensures idxptr2 == Nth(chain, Seek(Values(chain), value))
      ensures if idxptr2 != null then res2 == Difference(value, idxptr2.value) else res2 > 0
    {
      hide Seek, Difference;
      idxptr2, prev, res2, j := idxptr, null, 1, 0;
      while idxptr2 != null
        invariant j <= |chain| && idxptr2 == Nth(chain, j) && prev == (if j > 0 then chain[j - 1] else null) && res2 > 0
        invariant forall k | 0 <= k < j :: Difference(value, chain[k].value) > 0
        decreases |chain| - j
      {
        res2 := Difference(value, idxptr2.value);
        if res2 <= 0 {
          break;
        }
        prev := idxptr2;
        idxptr2 := idxptr2.nextIdx;
        j := j + 1;
      }
      StopsAt(chain, value, j);
    }

    /** Go to the end of a chain; on the way, stop at an unused entry if one
        will do. */
    method FindAny(idxptr: Index, newOnly: bool, ghost chain: seq<Index>)
      returns (unused: Index?, prev: Index?, ghost j: nat)
      requires Ordered(chain) && IdxLinks(chain) && idxptr == chain[0]
      ensures j <= |chain| && unused == Nth(chain, j)
      ensures if unused != null then unused in chain && !newOnly && !unused.inUse else prev == chain[|chain| - 1]
      ensures unused != null ==> j < |chain| && !newOnly && !unused.inUse && forall k | 0 <= k < j :: chain[k].inUse
      ensures unused == null ==> j == |chain| && prev == chain[|chain| - 1] && (newOnly || forall k | 0 <= k < |chain| :: chain[k].inUse)
    {
      unused, prev, j := idxptr, null, 0;
      while unused != null
        invariant j <= |chain| && unused == Nth(chain, j) && prev == (if j > 0 then chain[j - 1] else null)
        invariant newOnly || forall k | 0 <= k < j :: chain[k].inUse
        decreases |chain| - j
      {
        if !newOnly && !unused.inUse {
          return;
        }
        prev := unused;
        unused := unused.nextIdx;
        j := j + 1;
      }
    }

    /** The search along a chain is right for a value that is comparable. */
    lemma FoundRight(name: Oid, v: int, c: nat)
      requires Valid() && Comparable(m, name, v) && c < |chains| && chains[c] != [] && chains[c][0].name == name
      ensures var j := Seek(Values(chains[c]), v);
              && (forall k | 0 <= k < j :: chains[c][k].value < v)
              && (j < |chains[c]| ==> v <= chains[c][j].value
                                      && (Difference(v, chains[c][j].value) == 0 <==> v == chains[c][j].value))
    {
      hide Near, Difference, Seek, Lt, Shows, LinksOk, Sorted, Tellable, Comparable, Ordered, SeeksWell;
      IsSorted();
      ValuesOf(chains, m, name, c);
      ChainOrdered(chains, c);
      ComparableTells(chains[c], m, name, v);
      SeekRight(Values(chains[c]), v);
      WellFound(chains[c], v);
    }

    /** The least value remembered for an OID heads its chain. */
    lemma LeastFirst(name: Oid, v: int) returns (c: nat)
      requires Valid() && (name, v) in m && forall u | (name, u) in m :: v <= u
      ensures c < |chains| && chains[c] != [] && chains[c][0].name == name && chains[c][0].value == v
      ensures IdxLinks(chains[c])
    {
      hide Lt, Sorted, Shows, LinksOk;
      IsSorted();
      var e;
      e, c := EntryOf(chains, m, name, v);
      ValuesOf(chains, m, name, c);
      ChainOrdered(chains, c);
      LinksOf(chains, c);
      var k :| 0 <= k < |chains[c]| && chains[c][k].value == v;
    }

    /** The search for an OID that has values stops at its chain. */
    lemma SameOid(name: Oid, c: nat, d: nat, res: int)
      requires Valid() && c < |chains| && chains[c] != [] && chains[c][0].name == name && Before(chains, d, name)
      requires if Head(chains, d) == null then res != 0 else res == Cmp(name, Head(chains, d).name) && res <= 0
      ensures c == d && Head(chains, d) == chains[c][0]
    {
      hide Lt, Shows, LinksOk, Ordered;
      IsSorted();
      TotalOrder();
      Filled(chains);
      if d < c {
        NotAfter(chains, d, c);
      }
    }

    /** The search of a registration, for a value whose difference from the least
        one remembered looks negative. */
    method SearchFor(name: Oid, ghost least: int, value: int) returns (at: Index?, res2: int)
      requires Valid() && (name, least) in m && (forall u | (name, u) in m :: least <= u)
      requires Difference(value, least) < 0
      ensures at != null && at.name == name && at.value == least && res2 == Difference(value, least)
    {
      hide Ordered, Shows, LinksOk, OidLinks, IdxLinks, Seek, Lt, Difference, Sorted;
      IsSorted();
      assert forall e | e in All(chains) :: allocated(e);
      var idxptr, prev, res;
      ghost var d;
      idxptr, prev, res, d := FindOid(name);
      ghost var c := LeastFirst(name, least);
      SameOid(name, c, d, res);
      var prevIdx;
      ghost var j;
      StopsAt(chains[c], value, 0);
      at, prevIdx, res2, j := FindValue(idxptr, value, chains[c]);
    }

    /** Hand out an existing entry. */
    method Claim(e: Index, ss: int)
      requires Valid() && e in All(chains)
      modifies this`m, e`inUse, e`session
      ensures Valid() && m == old(m)[(e.name, e.value) := Status(true, ss)]
    {
      hide Sorted, Linked;
      forall x | x in All(chains) && x != e ensures (x.name, x.value) != (e.name, e.value) {
        if x.name == e.name && x.value == e.value {
          KeysUnique(chains, x, e);
        }
      }
      e.session := ss;
      e.inUse := true;
      m := m[(e.name, e.value) := Status(true, ss)];
    }

    /** A new value behind an existing one. */
    method InsertInside(entry: Index, prev: Index, ghost c: nat, ghost j: nat)
      requires Valid() && entry !in All(chains)
      requires c < |chains| && 0 < j <= |chains[c]| && prev == chains[c][j - 1] && entry.name == prev.name
      requires prev.value < entry.value && (j < |chains[c]| ==> entry.value < chains[c][j].value)
      modifies this`chains, this`m, prev`nextIdx, entry`nextIdx, entry`nextOid
      ensures Valid() && m == old(m)[(entry.name, entry.value) := Status(entry.inUse, entry.session)]
      ensures All(chains) == old(All(chains)) + {entry}
    {
      hide Lt, Spliced, LinksOk, Sorted, Shows, Nexts;
      ghost var before, m0, nexts := chains, m, Nexts(chains);
      BeforeInside(before, c, j, entry);
      chains := before[c := Spliced(before[c], j, entry)];
      m := m[(entry.name, entry.value) := Status(entry.inUse, entry.session)];
      LinkInside(entry, prev, before, c, j, nexts);
      ShowsMore(before, chains, m0, entry);
    }

    /** A new smallest value: its entry becomes the head of the chain. */
    method InsertFirst(entry: Index, idxptr: Index, prevOid: Index?, ghost c: nat)
      requires Valid() && entry !in All(chains)
      requires c < |chains| && chains[c] != [] && idxptr == chains[c][0]
      requires entry.name == idxptr.name && entry.value < idxptr.value
      requires prevOid == Head(chains, c - 1)
      modifies this, entry`nextIdx, entry`nextOid, All(chains)`nextOid
      ensures Valid() && m == old(m)[(entry.name, entry.value) := Status(entry.inUse, entry.session)]
      ensures All(chains) == old(All(chains)) + {entry}
    {
      hide Lt, Spliced, LinksOk, Sorted, Shows, Nexts;
      ghost var before, m0 := chains, m;
      BeforeFirst(before, c, entry);
      chains := before[c := Spliced(before[c], 0, entry)];
      m := m[(entry.name, entry.value) := Status(entry.inUse, entry.session)];
      if prevOid == null {
        head := entry;
      }
      PutFirst(entry, idxptr, prevOid, before, c);
      ShowsMore(before, chains, m0, entry);
    }

    /** The first value of a new OID: a chain of its own. */
    method InsertChain(entry: Index, idxptr: Index?, prevOid: Index?, ghost c: nat)
      requires Valid() && entry !in All(chains)
      requires Before(chains, c, entry.name) && idxptr == Head(chains, c) && prevOid == Head(chains, c - 1)
      requires idxptr != null ==> Lt(entry.name, idxptr.name)
      modifies this, entry`nextIdx, entry`nextOid, All(chains)`nextOid
      ensures Valid() && m == old(m)[(entry.name, entry.value) := Status(entry.inUse, entry.session)]
      ensures All(chains) == old(All(chains)) + {entry}
    {
      hide Lt, Spliced, LinksOk, Sorted, Shows, Nexts;
      ghost var before, m0 := chains, m;
      BeforeChain(before, c, entry);
      chains := Spliced(before, c, [entry]);
      m := m[(entry.name, entry.value) := Status(entry.inUse, entry.session)];
      if prevOid == null {
        head := entry;
      }
      PutChain(entry, idxptr, prevOid, before, c);
      ShowsMore(before, chains, m0, entry);
    }

    /** Take an entry out from behind another one. */
    method RemoveInside(e: Index, prev: Index, ghost c: nat, ghost j: nat)
      requires Valid() && c < |chains| && 0 < j < |chains[c]| && e == chains[c][j] && prev == chains[c][j - 1]
      modifies this`chains, this`m, prev`nextIdx
      ensures Valid() && m == old(m) - {(e.name, e.value)}
    {
      hide Lt, Cut, LinksOk, Sorted, Shows, Nexts;
      ghost var before, m0 := chains, m;
      BeforeCut(before, c, j);
      chains := before[c := Cut(before[c], j)];
      m := m - {(e.name, e.value)};
      UnlinkInside(e, prev, before, c, j, Nexts(before));
      ShowsLess(before, chains, m0, e);
    }

    /** Take out the head of a chain; the chain may end with it. */
    method RemoveFirst(e: Index, prevOid: Index?, ghost c: nat)
      requires Valid() && c < |chains| && chains[c] != [] && e == chains[c][0] && prevOid == Head(chains, c - 1)
      modifies this, All(chains)`nextOid
      ensures Valid() && m == old(m) - {(e.name, e.value)}
    {
      hide Lt, Cut, LinksOk, Sorted, Shows, Nexts;
      ghost var before, m0 := chains, m;
      BeforeUnlink(before, c);
      chains := if |before[c]| > 1 then before[c := Cut(before[c], 0)] else Cut(before, c);
      m := m - {(e.name, e.value)};
      FirstLinks(before, c);
      var target := if e.nextIdx != null then e.nextIdx else e.nextOid;
      if prevOid == null {
        head := target;
      }
      RelinkOids(prevOid, target, before, c - 1, Nexts(before));
      AfterUnlink(before, c, target);
      ShowsLess(before, chains, m0, e);
    }

    /** Allocate an index for a session. */
    method RegisterIndex(name: Oid, want: Want, ss: int) returns (g: Grant)
      requires Valid() && (want.This? ==> Comparable(m, name, want.value))
      modifies this, All(chains)
      ensures Valid() && Effect(old(m), Register(name, want, ss, g), m)
      ensures fresh(All(chains) - old(All(chains)))
    {
      hide Lt, LinksOk, Sorted, Shows, IdxLinks, OidLinks;
      var idxptr, prevOid, res;
      ghost var c;
      idxptr, prevOid, res, c := FindOid(name);
      if res == 0 && idxptr != null {
        match want {
          case This(v) => g := RegisterThis(name, v, ss, idxptr, prevOid, c);
          case _ => g := RegisterAny(name, want, ss, idxptr, c);
        }
      } else {
        NoValues(chains, m, name, c);
        var entry := new Index(name, if want.This? then want.value else 1, ss, null, null);
        InsertChain(entry, idxptr, prevOid, c);
        g := Granted(entry.value);
      }
    }

    /** A given value of an OID that has a chain. */
    method RegisterThis(name: Oid, value: int, ss: int, idxptr: Index, prevOid: Index?, ghost c: nat) returns (g: Grant)
      requires Valid() && Comparable(m, name, value)
      requires c < |chains| && chains[c] != [] && idxptr == chains[c][0] && idxptr.name == name && prevOid == Head(chains, c - 1)
      modifies this, All(chains)
      ensures Valid() && Grants(old(m), name, This(value), g)
      ensures m == if g.Granted? then old(m)[(name, g.value) := Status(true, ss)] else old(m)
      ensures fresh(All(chains) - old(All(chains)))
    {
      hide Lt, Sorted, Shows, OidLinks, IdxLinks, LinksOk, Ordered;
      ChainOrdered(chains, c);
      LinksOf(chains, c);
      var at, prevIdx, res2;
      ghost var j;
      FoundRight(name, value, c);
      at, prevIdx, res2, j := FindValue(idxptr, value, chains[c]);
      ThisFacts(chains, m, name, c, value, j);
      if res2 == 0 {
        if at.inUse {
          return Refused;
        }
        Claim(at, ss);
        return Granted(at.value);
      }
      var entry := new Index(name, value, ss, null, null);
      if prevIdx != null {
        InsertInside(entry, prevIdx, c, j);
      } else {
        InsertFirst(entry, idxptr, prevOid, c);
      }
      g := Granted(value);
    }

    /** Choose an unused entry, or find the last one. */
    method ChooseAny(name: Oid, want: Want, idxptr: Index, ghost c: nat, ghost all: seq<seq<Index>>)
      returns (at: Index?, last: Index)
      requires all == chains && Sorted(chains) && LinksOk(chains, Nexts(chains)) && Shows(chains, m) && !want.This?
      requires c < |chains| && chains[c] != [] && idxptr == chains[c][0] && idxptr.name == name
      ensures at != null ==> at in All(chains) && at.name == name && Grants(m, name, want, Granted(at.value))
      ensures at == null ==>
                && last == chains[c][|chains[c]| - 1] && last in All(chains) && last.name == name
                && (name, last.value) in m && Grants(m, name, want, Granted(last.value + 1))
    {
      hide Lt, Sorted, Shows, OidLinks, IdxLinks, LinksOk, Ordered, Grants;
      ChainOrdered(chains, c);
      LinksOf(chains, c);
      var prevIdx;
      ghost var j;
      assert forall e | e in All(all) :: allocated(e);
      at, prevIdx, j := FindAny(idxptr, want.New?, chains[c]);
      last := if at == null then prevIdx else at;
      AnyFacts(all, m, name, c, j, want);
    }

    /** Any unused value, or a new one, of an OID that has a chain. */
    method RegisterAny(name: Oid, want: Want, ss: int, idxptr: Index, ghost c: nat) returns (g: Grant)
      requires Valid() && !want.This?
      requires c < |chains| && chains[c] != [] && idxptr == chains[c][0] && idxptr.name == name
      modifies this, All(chains)
      ensures Valid() && Grants(old(m), name, want, g) && g.Granted?
      ensures m == old(m)[(name, g.value) := Status(true, ss)]
      ensures fresh(All(chains) - old(All(chains)))
    {
      hide Lt, Sorted, Shows, LinksOk, Grants;
      var at, last := ChooseAny(name, want, idxptr, c, chains);
      if at != null {
        Claim(at, ss);
        g := Granted(at.value);
      } else {
        AppendNext(last, ss, c);
        g := Granted(last.value + 1);
      }
    }

    /** Append the value after the last one of a chain. */
    method AppendNext(prevIdx: Index, ss: int, ghost c: nat)
      requires Valid() && c < |chains| && chains[c] != [] && prevIdx == chains[c][|chains[c]| - 1]
      requires prevIdx in All(chains)
      modifies this, All(chains)
      ensures Valid() && m == old(m)[(prevIdx.name, prevIdx.value + 1) := Status(true, ss)]
      ensures fresh(All(chains) - old(All(chains)))
    {
      hide Lt, Sorted, Shows, OidLinks, IdxLinks, LinksOk, Ordered;
      var entry := new Index(prevIdx.name, prevIdx.value + 1, ss, null, null);
      InsertInside(entry, prevIdx, c, |chains[c]|);
    }

    /** Mark an entry unused, but leave it where it is. */
    method Release(e: Index)
      requires Valid() && e in All(chains)
      modifies this`m, e`inUse, e`session
      ensures Valid() && m == old(m)[(e.name, e.value) := Status(false, NO_SESSION)]
    {
      hide Sorted, Linked;
      forall x | x in All(chains) && x != e ensures (x.name, x.value) != (e.name, e.value) {
        if x.name == e.name && x.value == e.value {
          KeysUnique(chains, x, e);
        }
      }
      e.inUse := false;
      e.session := NO_SESSION;
      m := m[(e.name, e.value) := Status(false, NO_SESSION)];
    }

    /** Give an index back: remembered as used before, or removed altogether. */
    method UnregisterIndex(name: Oid, value: int, remember: bool, ss: int) returns (r: Outcome)
      requires Valid() && Comparable(m, name, value)
      modifies this, All(chains)
      ensures Valid() && Effect(old(m), Unregister(name, value, remember, ss), m)
      ensures r == if !Taken(old(m), name, value) then NotAllocated
                   else if old(m)[(name, value)].session != ss then WrongSession else Done
    {
      hide Lt, LinksOk, Sorted, Shows, IdxLinks, OidLinks;
      var idxptr, prevOid, res;
      ghost var c;
      idxptr, prevOid, res, c := FindOid(name);
      if res != 0 {
        NoValues(chains, m, name, c);
        return NotAllocated;
      }
      r := UnregisterKnown(name, value, remember, ss, idxptr, prevOid, c);
    }

    method UnregisterKnown(name: Oid, value: int, remember: bool, ss: int, idxptr: Index, prevOid: Index?, ghost c: nat)
      returns (r: Outcome)
      requires Valid() && Comparable(m, name, value)
      requires c < |chains| && chains[c] != [] && idxptr == chains[c][0] && idxptr.name == name && prevOid == Head(chains, c - 1)
      modifies this, All(chains)
      ensures Valid()
      ensures r == if !Taken(old(m), name, value) then NotAllocated
                   else if old(m)[(name, value)].session != ss then WrongSession else Done
      ensures m == if !r.Done? then old(m)
                   else if remember then old(m)[(name, value) := Status(false, NO_SESSION)]
                   else old(m) - {(name, value)}
    {
      hide Lt, Sorted, Shows, OidLinks, IdxLinks, LinksOk, Ordered;
      ChainOrdered(chains, c);
      LinksOf(chains, c);
      var at, prevIdx, res2;
      ghost var j;
      FoundRight(name, value, c);
      at, prevIdx, res2, j := FindValue(idxptr, value, chains[c]);
      ThisFacts(chains, m, name, c, value, j);
      if res2 != 0 || !at.inUse {
        return NotAllocated;
      }
      if ss != at.session {
        return WrongSession;
      }
      if remember {
        Release(at);
      } else if prevIdx != null {
        RemoveInside(at, prevIdx, c, j);
      } else {
        RemoveFirst(at, prevOid, c);
      }
      r := Done;
    }

    /** What the links say at place j of chain c. */
    lemma Here(c: nat, j: nat)
      requires Valid() && c < |chains|
      ensures chains[c] != [] && Head(chains, c) == chains[c][0] && head == Head(chains, 0)
      ensures chains[c][0].nextOid == Head(chains, c + 1)
      ensures j < |chains[c]| ==>
                var e := chains[c][j];
                && e !in chains[c][..j] && e.nextIdx == Nth(chains[c], j + 1) && e in All(chains) && (e.name, e.value) in m
                && m[(e.name, e.value)] == Status(e.inUse, e.session)
    {
      Filled(chains);
      if j < |chains[c]| {
        InAll(chains, c, chains[c][j]);
        NotBefore(chains, c, j);
      }
    }

    /** The entries of done have been looked at, the others not. */
    ghost predicate Progress(m0: View, done: set<Index>, ss: int)
      reads this
    {
      && m.Keys == m0.Keys
      && forall e {:trigger e in All(chains)} | e in All(chains) && (e.name, e.value) in m ::
           m[(e.name, e.value)] == if e in done then Released(m0, ss)[(e.name, e.value)] else m0[(e.name, e.value)]
    }

    /** One more entry has been looked at. */
    lemma Looked(before: View, m0: View, done: set<Index>, ss: int, e: Index)
      requires Sorted(chains) && e in All(chains) && (e.name, e.value) in before && before.Keys == m0.Keys && e !in done
      requires forall x {:trigger x in All(chains)} | x in All(chains) && (x.name, x.value) in before ::
                 before[(x.name, x.value)] == if x in done then Released(m0, ss)[(x.name, x.value)] else m0[(x.name, x.value)]
      requires m == if before[(e.name, e.value)].session == ss then before[(e.name, e.value) := Status(false, NO_SESSION)]
                    else before
      ensures Progress(m0, done + {e}, ss)
    {
      hide Sorted;
      forall x {:trigger x in All(chains)} | x in All(chains) && x != e ensures (x.name, x.value) != (e.name, e.value) {
        if x.name == e.name && x.value == e.value {
          KeysUnique(chains, x, e);
        }
      }
    }

    method ReleaseEntry(e: Index, ss: int, ghost m0: View, ghost done: set<Index>)
      requires Valid() && e in All(chains) && (e.name, e.value) in m && m[(e.name, e.value)] == Status(e.inUse, e.session)
      requires Progress(m0, done, ss) && e !in done
      modifies this`m, e`inUse, e`session
      ensures Valid() && Progress(m0, done + {e}, ss)
    {
      hide Sorted, Linked, Shows, Released, All;
      ghost var before := m;
      if e.session == ss {
        Release(e);
      }
      Looked(before, m0, done, ss, e);
    }

    method ReleaseChain(idxptr: Index, ss: int, ghost m0: View, ghost done: set<Index>, ghost c: nat)
      returns (ghost done': set<Index>)
      requires Valid() && c < |chains| && idxptr == Head(chains, c) && Progress(m0, done, ss)
      requires forall e | e in chains[c] :: e !in done
      modifies this`m, All(chains)`inUse, All(chains)`session
      ensures Valid() && Progress(m0, done', ss) && done' == done + Members(chains[c])
    {
      hide Valid, Progress, Ordered;
      done' := done;
      var idxptr2: Index? := idxptr;
      ghost var j, chain := 0, chains[c];
      while idxptr2 != null
        invariant Valid() && j <= |chain| && idxptr2 == Nth(chain, j)
        invariant Progress(m0, done', ss) && done' == done + Members(chain[..j])
        decreases |chain| - j
      {
        Here(c, j);
        assert chain[j] in chain;
        ReleaseEntry(idxptr2, ss, m0, done');
        done' := done' + {idxptr2};
        idxptr2 := idxptr2.nextIdx;
        assert Members(chain[..j + 1]) == Members(chain[..j]) + {chain[j]};
        Here(c, j);
        j := j + 1;
      }
      assert chain[..j] == chain;
    }

    /** A session is gone: release everything it holds. */
    method UnregisterIndexBySession(ss: int)
      requires Valid()
      modifies this`m, All(chains)`inUse, All(chains)`session
      ensures Valid() && Effect(old(m), Close(ss), m)
    {
      hide Valid, Progress;
      var idxptr := head;
      ghost var c, done: set<Index> := 0, {};
      Nothing(m, ss);
      while idxptr != null
        invariant c <= |chains| && idxptr == Head(chains, c) && Valid() && Progress(old(m), done, ss)
        invariant done == All(chains[..c])
        decreases |chains| - c
      {
        Here(c, 0);
        AllMore(chains, c);
        assert Sorted(chains) by { IsSorted(); }
        ChainsApart(chains);
        done := ReleaseChain(idxptr, ss, old(m), done, c);
        Here(c, 0);
        idxptr := idxptr.nextOid;
        c := c + 1;
      }
      Everything(old(m), ss, c);
    }

    lemma IsSorted()
      requires Valid()
      ensures Sorted(chains)
    {
    }

    lemma Nothing(m0: View, ss: int)
      requires Valid() && m == m0
      ensures Progress(m0, {}, ss) && All(chains[..0]) == {} && head == Head(chains, 0)
    {
    }

    lemma Everything(m0: View, ss: int, c: nat)
      requires Valid() && c <= |chains| && Progress(m0, All(chains[..c]), ss) && Head(chains, c) == null
      ensures m == Released(m0, ss)
    {
      hide Ordered, LinksOk;
      Filled(chains);
      assert c == |chains| && chains[..c] == chains;
      forall k | k in m ensures m[k] == Released(m0, ss)[k] {
        var e :| e in All(chains) && (e.name, e.value) == k;
      }
    }
  }

  lemma NotBefore(chains: seq<seq<Index>>, c: nat, j: nat)
    requires c < |chains| && j < |chains[c]|
    requires Sorted(chains)
    ensures chains[c][j] !in chains[c][..j]
  {
    ChainOrdered(chains, c);
  }

  lemma AllMore(chains: seq<seq<Index>>, c: nat)
    requires c < |chains|
    ensures All(chains[..c + 1]) == All(chains[..c]) + Members(chains[c])
    ensures forall d, e {:trigger e in chains[d]} | 0 <= d < c && e in chains[d] :: e in All(chains[..c])
  {
  }

  lemma ThisFacts(chains: seq<seq<Index>>, m: View, name: Oid, c: nat, v: int, j: nat)
    requires Sorted(chains) && Shows(chains, m) && c < |chains| && chains[c] != [] && chains[c][0].name == name
    requires j <= |chains[c]| && forall k | 0 <= k < j :: chains[c][k].value < v
    requires j < |chains[c]| ==> v <= chains[c][j].value
    ensures if j < |chains[c]| && chains[c][j].value == v
            then (name, v) in m && m[(name, v)] == Status(chains[c][j].inUse, chains[c][j].session)
                 && chains[c][j] in All(chains)
            else (name, v) !in m
    ensures forall k | 0 <= k < |chains[c]| :: chains[c][k].name == name
    ensures j > 0 ==> chains[c][j - 1] in All(chains)
  {
    var chain := chains[c];
    ChainOrdered(chains, c);
    ValuesOf(chains, m, name, c);
    forall k | 0 <= k < |chain| ensures chain[k] in All(chains) { InAll(chains, c, chain[k]); }
    if (name, v) in m {
      var k :| 0 <= k < |chain| && chain[k].value == v;
      assert j <= k && chain[j].value <= chain[k].value;
    }
  }

  lemma AnyFacts(chains: seq<seq<Index>>, m: View, name: Oid, c: nat, j: nat, want: Want)
    requires Sorted(chains) && Shows(chains, m) && c < |chains| && chains[c] != [] && chains[c][0].name == name
    requires !want.This? && j <= |chains[c]| && (want.New? || forall k | 0 <= k < j :: chains[c][k].inUse)
    requires j < |chains[c]| ==> want.Any? && !chains[c][j].inUse
    ensures var last := chains[c][|chains[c]| - 1];
            last in All(chains) && last.name == name && (name, last.value) in m
    ensures j == |chains[c]| ==> Grants(m, name, want, Granted(chains[c][|chains[c]| - 1].value + 1))
    ensures j < |chains[c]| ==>
              && chains[c][j] in All(chains) && chains[c][j].name == name
              && Grants(m, name, want, Granted(chains[c][j].value))
  {
    hide Sorted, Shows, Lt;
    var chain := chains[c];
    ChainOrdered(chains, c);
    ValuesOf(chains, m, name, c);
    forall k | 0 <= k < |chain| ensures chain[k] in All(chains) { InAll(chains, c, chain[k]); }
    NoneUnused(m, name, chain);
    if j < |chain| {
      LeastUnused(m, name, chain, j);
    }
  }

  lemma LinksOf(chains: seq<seq<Index>>, c: nat)
    requires c < |chains| && LinksOk(chains, Nexts(chains))
    ensures IdxLinks(chains[c])
  {
  }

  lemma LeastUnused(m: View, name: Oid, chain: seq<Index>, j: nat)
    requires Ordered(chain) && j < |chain| && !chain[j].inUse && forall k | 0 <= k < j :: chain[k].inUse
    requires forall k {:trigger chain[k]} | 0 <= k < |chain| ::
               (name, chain[k].value) in m && m[(name, chain[k].value)].inUse == chain[k].inUse
    requires forall u | (name, u) in m :: exists k :: 0 <= k < |chain| && chain[k].value == u
    ensures Unused(m, name, chain[j].value) && forall u | Unused(m, name, u) :: chain[j].value <= u
  {
    forall u | Unused(m, name, u) ensures chain[j].value <= u {
      assert (name, u) in m;
      var k :| 0 <= k < |chain| && chain[k].value == u;
      assert k >= j;
    }
  }

  lemma NoneUnused(m: View, name: Oid, chain: seq<Index>)
    requires Ordered(chain)
    requires forall k {:trigger chain[k]} | 0 <= k < |chain| ::
               (name, chain[k].value) in m && m[(name, chain[k].value)].inUse == chain[k].inUse
    requires forall u | (name, u) in m :: exists k :: 0 <= k < |chain| && chain[k].value == u
    ensures Fresh(m, name, chain[|chain| - 1].value + 1)
    ensures (forall k | 0 <= k < |chain| :: chain[k].inUse) ==> forall u :: !Unused(m, name, u)
  {
    forall u | (name, u) in m ensures u <= chain[|chain| - 1].value {
      var k :| 0 <= k < |chain| && chain[k].value == u;
    }
    assert (name, chain[|chain| - 1].value) in m;
    if forall k | 0 <= k < |chain| :: chain[k].inUse {
      forall u ensures !Unused(m, name, u) {
        if (name, u) in m {
          var k :| 0 <= k < |chain| && chain[k].value == u;
        }
      }
    }
  }

  method UnlinkBehind(e: Index, prev: Index, ghost chains: seq<seq<Index>>, ghost c: nat, ghost j: nat, ghost nexts: seq<Index?>)
    requires c < |chains| == |nexts| && 0 < j < |chains[c]| && e == chains[c][j] && prev == chains[c][j - 1]
    requires forall k | 0 <= k < |chains[c]| :: chains[c][k] == prev <==> k == j - 1
    requires forall d {:trigger chains[d]} | 0 <= d < |chains| :: IdxLinks(chains[d]) && OidLinks(chains[d], nexts[d])
    requires forall d {:trigger chains[d]} | 0 <= d < |chains| && d != c :: prev !in chains[d]
    modifies prev`nextIdx
    ensures IdxLinks(Cut(chains[c], j)) && OidLinks(Cut(chains[c], j), nexts[c])
    ensures forall d {:trigger chains[d]} | 0 <= d < |chains| && d != c :: IdxLinks(chains[d]) && OidLinks(chains[d], nexts[d])
  {
    hide Cut;
    assert e.nextIdx == Nth(chains[c], j + 1);
    prev.nextIdx := e.nextIdx;
  }

  method UnlinkInside(e: Index, prev: Index, ghost chains: seq<seq<Index>>, ghost c: nat, ghost j: nat, ghost nexts: seq<Index?>)
    requires c < |chains| && 0 < j < |chains[c]| && e == chains[c][j] && prev == chains[c][j - 1]
    requires forall k | 0 <= k < |chains[c]| :: chains[c][k] == prev <==> k == j - 1
    requires LinksOk(chains, nexts) && forall d {:trigger chains[d]} | 0 <= d < |chains| && d != c :: prev !in chains[d]
    modifies prev`nextIdx
    ensures LinksOk(chains[c := Cut(chains[c], j)], nexts)
  {
    hide Cut, IdxLinks, OidLinks;
    UnlinkBehind(e, prev, chains, c, j, nexts);
  }

  lemma BeforeCut(chains: seq<seq<Index>>, c: nat, j: nat)
    requires Sorted(chains) && c < |chains| && 0 < j < |chains[c]|
    ensures var s := chains[c := Cut(chains[c], j)];
            && Sorted(s) && All(s) == All(chains) - {chains[c][j]} && chains[c][j] in All(chains)
            && Nexts(s) == Nexts(chains) && Head(s, 0) == Head(chains, 0)
    ensures forall k | 0 <= k < |chains[c]| :: chains[c][k] == chains[c][j - 1] <==> k == j - 1
    ensures forall d {:trigger chains[d]} | 0 <= d < |chains| && d != c :: chains[c][j - 1] !in chains[d]
  {
    hide Lt, Cut, Sorted;
    ChainOrdered(chains, c);
    CutSorted(chains, c, j);
    ChainsApart(chains);
    var s := chains[c := Cut(chains[c], j)];
    assert chains[c][j - 1] in chains[c] && chains[c][j] in chains[c];
    InAll(chains, c, chains[c][j]);
    assert forall d | 0 <= d <= |chains| :: Head(s, d) == Head(chains, d);
  }

  lemma FirstLinks(chains: seq<seq<Index>>, c: nat)
    requires c < |chains| && chains[c] != [] && LinksOk(chains, Nexts(chains))
    ensures chains[c][0].nextIdx == Nth(chains[c], 1) && chains[c][0].nextOid == Head(chains, c + 1)
  {
  }

  ghost function Unlinked(chains: seq<seq<Index>>, c: nat): seq<seq<Index>>
    requires c < |chains| && chains[c] != []
  {
    if |chains[c]| > 1 then chains[c := Cut(chains[c], 0)] else Cut(chains, c)
  }

  lemma BeforeUnlink(chains: seq<seq<Index>>, c: nat)
    requires Sorted(chains) && c < |chains| && chains[c] != []
    ensures var s := Unlinked(chains, c);
            && Sorted(s) && All(s) == All(chains) - {chains[c][0]} && chains[c][0] in All(chains)
            && Head(s, 0) == if c > 0 then Head(chains, 0) else if |chains[c]| > 1 then chains[c][1] else Head(chains, c + 1)
    ensures c > 0 ==> Head(chains, c - 1) != null
  {
    hide Lt, Cut, Sorted;
    Filled(chains);
    assert chains[c][0] in chains[c];
    InAll(chains, c, chains[c][0]);
    if |chains[c]| > 1 {
      CutSorted(chains, c, 0);
    } else {
      WithoutSorted(chains, c);
    }
  }

  lemma AfterUnlink(chains: seq<seq<Index>>, c: nat, target: Index?)
    requires c < |chains| && chains[c] != []
    requires target == if |chains[c]| > 1 then chains[c][1] else Head(chains, c + 1)
    requires LinksOk(chains, if c > 0 then Nexts(chains)[c - 1 := target] else Nexts(chains))
    ensures LinksOk(Unlinked(chains, c), Nexts(Unlinked(chains, c)))
  {
    hide Cut, IdxLinks, OidLinks;
    var s, nexts := Unlinked(chains, c), if c > 0 then Nexts(chains)[c - 1 := target] else Nexts(chains);
    if |chains[c]| > 1 {
      CutLinks(chains[c], nexts[c]);
      forall d {:trigger s[d]} | 0 <= d < |s| ensures IdxLinks(s[d]) && OidLinks(s[d], Nexts(s)[d]) {
        assert d != c ==> s[d] == chains[d];
        assert nexts[d] == Nexts(s)[d];
      }
    } else {
      WithoutHeads(chains, c);
      forall d {:trigger s[d]} | 0 <= d < |s| ensures IdxLinks(s[d]) && OidLinks(s[d], Nexts(s)[d]) {
        var e := if d < c then d else d + 1;
        assert Nexts(s)[d] == Head(s, d + 1);
        assert s[d] == chains[e] && nexts[e] == Nexts(s)[d];
      }
    }
  }

  lemma WithoutHeads(chains: seq<seq<Index>>, c: nat)
    requires c < |chains|
    ensures forall d {:trigger Head(Cut(chains, c), d)} | 0 <= d < |chains| ::
              Head(Cut(chains, c), d) == if d < c then Head(chains, d) else Head(chains, d + 1)
  {
    hide Cut;
  }

  lemma CutLinks(chain: seq<Index>, next: Index?)
    requires |chain| > 1 && IdxLinks(chain) && OidLinks(chain, next)
    ensures IdxLinks(Cut(chain, 0)) && OidLinks(Cut(chain, 0), next)
  {
    hide Cut;
  }

  /** Link a new head in before the chain of its own name. */
  method PutFirst(entry: Index, idxptr: Index, prevOid: Index?, ghost chains: seq<seq<Index>>, ghost c: nat)
    requires Sorted(chains) && LinksOk(chains, Nexts(chains)) && entry !in All(chains)
    requires c < |chains| && chains[c] != [] && idxptr == chains[c][0] && prevOid == Head(chains, c - 1)
    requires c > 0 ==> prevOid != null
    modifies entry`nextIdx, entry`nextOid, All(chains)`nextOid
    ensures var s := chains[c := Spliced(chains[c], 0, entry)]; LinksOk(s, Nexts(s))
  {
    hide Lt, Spliced, LinksOk, Sorted, Nexts;
    assert idxptr.nextOid == Nexts(chains)[c] by { FirstFollows(chains, c); }
    LinkNew(entry, idxptr, idxptr.nextOid, chains, Nexts(chains));
    RelinkOids(prevOid, entry, chains, c - 1, Nexts(chains));
    AfterFirst(chains, c, entry);
  }

  /** Link in a chain of one new entry. */
  method PutChain(entry: Index, idxptr: Index?, prevOid: Index?, ghost chains: seq<seq<Index>>, ghost c: nat)
    requires Sorted(chains) && LinksOk(chains, Nexts(chains)) && entry !in All(chains)
    requires c <= |chains| && idxptr == Head(chains, c) && prevOid == Head(chains, c - 1)
    requires c > 0 ==> prevOid != null
    modifies entry`nextIdx, entry`nextOid, All(chains)`nextOid
    ensures var s := Spliced(chains, c, [entry]); LinksOk(s, Nexts(s))
  {
    hide Lt, Spliced, LinksOk, Sorted, Nexts;
    LinkNew(entry, null, idxptr, chains, Nexts(chains));
    RelinkOids(prevOid, entry, chains, c - 1, Nexts(chains));
    AfterChain(chains, c, entry);
  }

  lemma FirstFollows(chains: seq<seq<Index>>, c: nat)
    requires c < |chains| && chains[c] != [] && LinksOk(chains, Nexts(chains))
    ensures chains[c][0].nextOid == Nexts(chains)[c]
  {
  }

  lemma BeforeInside(chains: seq<seq<Index>>, c: nat, j: nat, e: Index)
    requires Sorted(chains) && c < |chains| && 0 < j <= |chains[c]|
    requires e.name == chains[c][j - 1].name && chains[c][j - 1].value < e.value
    requires j < |chains[c]| ==> e.value < chains[c][j].value
    ensures var s := chains[c := Spliced(chains[c], j, e)];
            && Sorted(s) && All(s) == All(chains) + {e}
            && Nexts(s) == Nexts(chains) && Head(s, 0) == Head(chains, 0)
    ensures forall k | 0 <= k < |chains[c]| :: chains[c][k] == chains[c][j - 1] <==> k == j - 1
    ensures forall d {:trigger chains[d]} | 0 <= d < |chains| && d != c :: chains[c][j - 1] !in chains[d]
  {
    hide Lt, Spliced, Sorted;
    ChainOrdered(chains, c);
    PlaceSorted(chains, c, j, e);
    ChainsApart(chains);
    var s := chains[c := Spliced(chains[c], j, e)];
    assert chains[c][j - 1] in chains[c];
    assert forall d | 0 <= d <= |chains| :: Head(s, d) == Head(chains, d);
  }

  lemma BeforeFirst(chains: seq<seq<Index>>, c: nat, e: Index)
    requires Sorted(chains) && c < |chains|
    requires chains[c] != [] && e.name == chains[c][0].name && e.value < chains[c][0].value
    ensures var s := chains[c := Spliced(chains[c], 0, e)]; Sorted(s) && All(s) == All(chains) + {e}
    ensures c > 0 ==> Head(chains, c - 1) != null
    ensures Head(chains[c := Spliced(chains[c], 0, e)], 0) == if c == 0 then e else Head(chains, 0)
  {
    hide Lt, Spliced, Sorted;
    PlaceSorted(chains, c, 0, e);
    Filled(chains);
  }

  lemma AfterFirst(chains: seq<seq<Index>>, c: nat, e: Index)
    requires c < |chains| && chains[c] != []
    requires e.nextIdx == chains[c][0] && e.nextOid == Nexts(chains)[c]
    requires LinksOk(chains, if c > 0 then Nexts(chains)[c - 1 := e] else Nexts(chains))
    ensures var s := chains[c := Spliced(chains[c], 0, e)]; LinksOk(s, Nexts(s))
  {
    var r := Spliced(chains[c], 0, e);
    var s := chains[c := r];
    assert IdxLinks(r) && OidLinks(r, Nexts(chains)[c]);
    hide IdxLinks, OidLinks;
    assert forall d | 0 <= d <= |chains| :: Head(s, d) == if d == c then e else Head(chains, d);
  }

  lemma BeforeChain(chains: seq<seq<Index>>, c: nat, e: Index)
    requires Sorted(chains)
    requires Before(chains, c, e.name) && (c < |chains| ==> Head(chains, c) == null || Lt(e.name, Head(chains, c).name))
    ensures Sorted(Spliced(chains, c, [e])) && All(Spliced(chains, c, [e])) == All(chains) + {e}
    ensures c > 0 ==> Head(chains, c - 1) != null
    ensures Head(Spliced(chains, c, [e]), 0) == if c == 0 then e else Head(chains, 0)
  {
    hide Lt, Spliced, Sorted;
    Filled(chains);
    WedgeSorted(chains, c, e);
    WedgeAll(chains, c, e);
  }

  lemma AfterChain(chains: seq<seq<Index>>, c: nat, e: Index)
    requires c <= |chains|
    requires e.nextIdx == null && e.nextOid == Head(chains, c)
    requires LinksOk(chains, if c > 0 then Nexts(chains)[c - 1 := e] else Nexts(chains))
    ensures LinksOk(Spliced(chains, c, [e]), Nexts(Spliced(chains, c, [e])))
  {
    hide Spliced;
    var s, nexts := Spliced(chains, c, [e]), if c > 0 then Nexts(chains)[c - 1 := e] else Nexts(chains);
    assert IdxLinks([e]) && OidLinks([e], Head(chains, c));
    WedgeHeads(chains, c, e);
    forall d {:trigger s[d]} | 0 <= d < |s| ensures IdxLinks(s[d]) && OidLinks(s[d], Nexts(s)[d]) {
      if d < c {
        assert s[d] == chains[d] && nexts[d] == Nexts(s)[d];
      } else if d > c {
        assert s[d] == chains[d - 1] && nexts[d - 1] == Nexts(s)[d];
      }
    }
  }

  lemma WedgeHeads(chains: seq<seq<Index>>, c: nat, e: Index)
    requires c <= |chains|
    ensures forall d {:trigger Head(Spliced(chains, c, [e]), d)} | 0 <= d <= |chains| + 1 ::
              Head(Spliced(chains, c, [e]), d) == if d < c then Head(chains, d) else if d == c then e else Head(chains, d - 1)
  {
  }

  // ----- beyond what can be compared -----

  /** The values -1, 2^31 - 2 and -2^31 of one OID are allocated in that order,
      each comparable with those before. Then the search for 2^31 - 2 stops in
      front of -2^31, as if the value were not there; the call would go on to
      insert and grant it again. */
  method TakenForNew(name: Oid, ss: int) returns (r: Registry, at: Index?, res2: int)
    ensures r.Valid() && Taken(r.m, name, INT_MAX - 1) && !Comparable(r.m, name, INT_MAX - 1)
    ensures at != null && at.name == name && at.value == INT_MIN && res2 < 0
  {
    hide Sorted, Ordered, Shows, LinksOk, IdxLinks, OidLinks, Seek, Lt;
    r := new Registry();
    var g := r.RegisterIndex(name, This(-1), ss);
    g := r.RegisterIndex(name, This(INT_MAX - 1), ss);
    g := r.RegisterIndex(name, This(INT_MIN), ss);
    assert (name, INT_MIN) in r.m && (name, INT_MAX - 1) in r.m;
    at, res2 := r.SearchFor(name, INT_MIN, INT_MAX - 1);
  }
}
