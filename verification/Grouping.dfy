/** The grouping of a request's varbinds into chains, one for each subtree or
    group of subtrees that share a handler cache. */
module Grouping {

  class Subtree {
    const globalId: nat
    /** Where the chain of this subtree was last found; may be out of date. */
    var cacheid: int

    constructor (globalId: nat, cacheid: int)
      ensures this.globalId == globalId && this.cacheid == cacheid
    {
      this.globalId, this.cacheid := globalId, cacheid;
    }
  }

  class Request {
    const index: nat
    var subtree: Subtree?
    var prev: Request?
    var next: Request?

    constructor (index: nat)
      ensures this.index == index && subtree == null && prev == null && next == null
    {
      this.index, subtree, prev, next := index, null, null, null;
    }
  }

  datatype Slot = Slot(subtree: Subtree, begin: Request, end: Request)

  /** What decides on the chain: a shared cache, or the subtree itself. */
  datatype Key = Shared(id: nat) | Own(subtree: Subtree)

  function KeyOf(tp: Subtree): Key {
    if tp.globalId != 0 then Shared(tp.globalId) else Own(tp)
  }

  /** Two subtrees belong together if they are the same or share a cache. */
  lemma SameKey(a: Subtree, b: Subtree)
    ensures KeyOf(a) == KeyOf(b) <==> a == b || (a.globalId == b.globalId && a.globalId != 0)
  {
  }

  // ----- the specification of a chain -----

  /** The requests with key k, in the order in which they were added. */
  ghost function Filter(added: seq<Request>, keys: seq<Key>, k: Key): (f: seq<Request>)
    requires |added| == |keys|
    ensures forall r | r in f :: r in added
  {
    if added == [] then []
    else
      var n := |added| - 1;
      Filter(added[..n], keys[..n], k) + if keys[n] == k then [added[n]] else []
  }

  ghost predicate Distinct(s: seq<Request>) {
    forall i, j | 0 <= i < j < |s| :: s[i] != s[j]
  }

  /** Request i is on the chain of exactly its own key. */
  lemma {:induction false} OneChain(added: seq<Request>, keys: seq<Key>, i: nat, k: Key)
    requires |added| == |keys| && Distinct(added) && i < |added|
    ensures added[i] in Filter(added, keys, k) <==> keys[i] == k
  {
    var n := |added| - 1;
    if i < n {
      OneChain(added[..n], keys[..n], i, k);
    } else {
      assert added[n] !in added[..n];
    }
  }

  lemma {:induction false} FilterFrom(added: seq<Request>, keys: seq<Key>, k: Key)
    requires |added| == |keys|
    ensures |Filter(added, keys, k)| <= |added|
    ensures (exists i :: 0 <= i < |keys| && keys[i] == k) <==> Filter(added, keys, k) != []
  {
    if added != [] {
      FilterFrom(added[..|added| - 1], keys[..|added| - 1], k);
    }
  }

  ghost predicate Increasing(s: seq<Request>) {
    forall i, j | 0 <= i < j < |s| :: s[i].index < s[j].index
  }

  /** A chain has each request once, in increasing index order, when the
      requests were added in that order. */
  lemma {:induction false} ChainSorted(added: seq<Request>, keys: seq<Key>, k: Key)
    requires |added| == |keys| && Increasing(added)
    ensures Increasing(Filter(added, keys, k))
  {
    if added != [] {
      var n := |added| - 1;
      ChainSorted(added[..n], keys[..n], k);
      var f, whole := Filter(added[..n], keys[..n], k), Filter(added, keys, k);
      assert forall r | r in added[..n] :: r.index < added[n].index;
      forall i, j | 0 <= i < j < |whole| ensures whole[i].index < whole[j].index {
        assert whole[i] == f[i] && f[i] in f && f[i] in added[..n];
        assert j < |f| ==> whole[j] == f[j];
      }
    }
  }

  lemma FilterMore(added: seq<Request>, keys: seq<Key>, r: Request, key: Key, k: Key)
    requires |added| == |keys|
    ensures Filter(added + [r], keys + [key], k) == Filter(added, keys, k) + if key == k then [r] else []
  {
    assert (added + [r])[..|added|] == added && (keys + [key])[..|keys|] == keys;
  }

  /** Chains of different keys share no request. */
  lemma {:induction false} ChainsApart(added: seq<Request>, keys: seq<Key>, k: Key, l: Key)
    requires |added| == |keys| && Distinct(added) && k != l
    ensures forall r | r in Filter(added, keys, k) :: r !in Filter(added, keys, l)
  {
    if added != [] {
      var n := |added| - 1;
      ChainsApart(added[..n], keys[..n], k, l);
      assert added[n] !in added[..n];
    }
  }

  // ----- chains in memory -----

  ghost function Members(s: seq<Request>): set<Request> { set r | r in s }

  /** Each request of s is followed by the next one, and the last by after. */
  ghost predicate Nexts(s: seq<Request>, after: Request?)
    reads Members(s)`next
  {
    forall i {:trigger s[i]} | 0 <= i < |s| :: s[i].next == if i + 1 < |s| then s[i + 1] else after
  }

  ghost predicate Prevs(s: seq<Request>)
    reads Members(s)`prev
  {
    forall i {:trigger s[i]} | 0 <= i < |s| :: s[i].prev == if i > 0 then s[i - 1] else null
  }

  ghost predicate Chained(slot: Slot, chain: seq<Request>)
    reads Members(chain)`next, Members(chain)`prev
  {
    && chain != [] && slot.begin == chain[0] && slot.end == chain[|chain| - 1]
    && Nexts(chain, null) && Prevs(chain)
  }

  datatype Model = Model(added: seq<Request>, keys: seq<Key>)

  /** The chains of m belong to the distinct keys ks, and each is what its key
      filters out of the requests added so far. */
  ghost predicate Grouped(m: Model, chains: seq<seq<Request>>, ks: seq<Key>) {
    && |m.added| == |m.keys| && |chains| == |ks| && Distinct(m.added)
    && (forall c, d {:trigger ks[c], ks[d]} | 0 <= c < d < |ks| :: ks[c] != ks[d])
    && (forall i {:trigger m.keys[i]} | 0 <= i < |m.keys| :: m.keys[i] in ks)
    && (forall c {:trigger chains[c]} | 0 <= c < |ks| ::
          chains[c] != [] && chains[c] == Filter(m.added, m.keys, ks[c]))
  }

  lemma GroupedApart(m: Model, chains: seq<seq<Request>>, ks: seq<Key>)
    requires Grouped(m, chains, ks)
    ensures forall c, d, r {:trigger r in chains[c], chains[d]} | 0 <= c < |ks| && 0 <= d < |ks| && c != d && r in chains[c] ::
              r !in chains[d]
    ensures forall c, r {:trigger r in chains[c]} | 0 <= c < |ks| && r in chains[c] :: r in m.added
    ensures forall c {:trigger chains[c]} | 0 <= c < |ks| :: Distinct(chains[c])
  {
    forall c, d | 0 <= c < |ks| && 0 <= d < |ks| && c != d ensures forall r | r in chains[c] :: r !in chains[d] {
      assert ks[c] != ks[d];
      ChainsApart(m.added, m.keys, ks[c], ks[d]);
    }
    forall c {:trigger chains[c]} | 0 <= c < |ks| ensures Distinct(chains[c]) {
      FilterDistinct(m.added, m.keys, ks[c]);
    }
  }

  lemma {:induction false} FilterDistinct(added: seq<Request>, keys: seq<Key>, k: Key)
    requires |added| == |keys| && Distinct(added)
    ensures Distinct(Filter(added, keys, k))
  {
    if added != [] {
      var n := |added| - 1;
      FilterDistinct(added[..n], keys[..n], k);
      var f, whole := Filter(added[..n], keys[..n], k), Filter(added, keys, k);
      assert added[n] !in added[..n];
      forall i, j | 0 <= i < j < |whole| ensures whole[i] != whole[j] {
        assert whole[i] == f[i] && f[i] in f;
      }
    }
  }

  lemma AddOld(m: Model, chains: seq<seq<Request>>, ks: seq<Key>, r: Request, c: nat)
    requires Grouped(m, chains, ks) && c < |ks| && r !in m.added
    ensures Grouped(Model(m.added + [r], m.keys + [ks[c]]), chains[c := chains[c] + [r]], ks)
  {
    hide Filter;
    forall d | 0 <= d < |ks| ensures d != c ==> ks[d] != ks[c] {
      if d < c { assert ks[d] != ks[c]; }
    }
    forall d | 0 <= d < |ks| { FilterMore(m.added, m.keys, r, ks[c], ks[d]); }
  }

  lemma AddNew(m: Model, chains: seq<seq<Request>>, ks: seq<Key>, r: Request, k: Key)
    requires Grouped(m, chains, ks) && k !in ks && r !in m.added
    ensures Grouped(Model(m.added + [r], m.keys + [k]), chains + [[r]], ks + [k])
  {
    hide Filter;
    forall d | 0 <= d < |ks| { FilterMore(m.added, m.keys, r, k, ks[d]); }
    FilterMore(m.added, m.keys, r, k, k);
    FilterFrom(m.added, m.keys, k);
    assert forall i | 0 <= i < |m.keys| :: m.keys[i] in ks;
    assert forall i {:trigger (m.keys + [k])[i]} | 0 <= i < |m.keys| + 1 :: (m.keys + [k])[i] in ks + [k];
  }

  class Session {
    var treecache: seq<Slot>
    var cacheStore: seq<(nat, nat)>     // global cache id, chain number
    ghost var g: Model
    ghost var chains: seq<seq<Request>>

    ghost function SlotKeys(): (ks: seq<Key>)
      reads this
      ensures |ks| == |treecache| && forall c {:trigger ks[c]} {:trigger treecache[c]} | 0 <= c < |ks| :: ks[c] == KeyOf(treecache[c].subtree)
    {
      seq(|treecache|, c requires 0 <= c < |treecache| reads this => KeyOf(treecache[c].subtree))
    }

    /** The map from shared caches to chains is complete and up to date. */
    ghost predicate StoreOk()
      reads this
    {
      && (forall e | e in cacheStore :: e.1 < |treecache| && KeyOf(treecache[e.1].subtree) == Shared(e.0))
      && forall c {:trigger treecache[c]} | 0 <= c < |treecache| && treecache[c].subtree.globalId != 0 ::
           (treecache[c].subtree.globalId, c) in cacheStore
    }

    /** A subtree that owns a chain knows its number. */
    ghost predicate NumbersOk()
      reads this, set c | 0 <= c < |treecache| :: treecache[c].subtree
    {
      forall c {:trigger treecache[c]} | 0 <= c < |treecache| && treecache[c].subtree.globalId == 0 ::
        treecache[c].subtree.cacheid == c
    }

    ghost function Linked(): set<Request>
      reads this
    {
      set c, r | 0 <= c < |chains| && r in chains[c] :: r
    }

    ghost predicate ChainsOk()
      reads this, Linked()`next, Linked()`prev
    {
      |chains| == |treecache| && forall c {:trigger treecache[c]} {:trigger chains[c]} | 0 <= c < |treecache| ::
        Chained(treecache[c], chains[c])
    }

    ghost predicate Valid()
      reads this, (set c | 0 <= c < |treecache| :: treecache[c].subtree), Linked()`next, Linked()`prev
    {
      StoreOk() && NumbersOk() && Grouped(g, chains, SlotKeys()) && ChainsOk()
    }

    method LocalCacheId(globalid: nat) returns (cacheid: int)
      requires StoreOk()
      ensures cacheid == -1 ==> globalid == 0 || Shared(globalid) !in SlotKeys()
      ensures cacheid != -1 ==> 0 <= cacheid < |treecache| && SlotKeys()[cacheid] == Shared(globalid)
    {
      var i := 0;
      while i < |cacheStore|
        invariant 0 <= i <= |cacheStore| && forall j | 0 <= j < i :: cacheStore[j].0 != globalid
      {
        if cacheStore[i].0 == globalid {
          assert cacheStore[i] in cacheStore;
          return cacheStore[i].1;
        }
        i := i + 1;
      }
      return -1;
    }

    /** Find the chain for a subtree, whatever the subtree's own note says. */
    method FindChain(tp: Subtree) returns (cacheid: int)
      requires Valid()
      ensures cacheid == -1 ==> KeyOf(tp) !in SlotKeys()
      ensures cacheid != -1 ==> 0 <= cacheid < |treecache| && SlotKeys()[cacheid] == KeyOf(tp)
    {
      if tp.globalId != 0 {
        cacheid := LocalCacheId(tp.globalId);
      } else if tp.cacheid > -1 && tp.cacheid < |treecache| && treecache[tp.cacheid].subtree == tp {
        cacheid := tp.cacheid;
      } else {
        cacheid := -1;
      }
    }

    /** Link a request to the end of chain c. */
    method Append(request: Request, c: nat)
      requires ChainsOk() && c < |treecache| && Grouped(g, chains, SlotKeys()) && request !in g.added
      modifies this`treecache, this`g, this`chains, request`next, request`prev, Members(chains[c])`next
      ensures g == Model(old(g.added) + [request], old(g.keys) + [old(SlotKeys())[c]])
      ensures SlotKeys() == old(SlotKeys()) && ChainsOk() && Grouped(g, chains, SlotKeys())
      ensures |treecache| == |old(treecache)| && forall d | 0 <= d < |treecache| :: treecache[d].subtree == old(treecache[d].subtree)
    {
      hide Grouped, KeyOf, Nexts, Prevs, Distinct;
      GroupedApart(g, chains, SlotKeys());
      AddOld(g, chains, SlotKeys(), request, c);
      var end := treecache[c].end;
      assert Chained(treecache[c], chains[c]);
      forall d, r {:trigger r in chains[d]} | 0 <= d < |chains| && r in chains[d] ensures r != request && (d != c ==> r != end) {
        assert end in chains[c];
      }
      assert forall d {:trigger chains[d]} | 0 <= d < |chains| && d != c :: Chained(treecache[d], chains[d]);
      LinkLast(request, end, chains[c], chains, c);
      treecache := treecache[c := treecache[c].(end := request)];
      g := Model(g.added + [request], g.keys + [SlotKeys()[c]]);
      chains := chains[c := chains[c] + [request]];
    }

    /** Start a chain for a subtree, and note its number. */
    method NewChain(request: Request, tp: Subtree)
      requires Valid() && KeyOf(tp) !in SlotKeys() && request !in g.added
      modifies this, request`next, request`prev, tp`cacheid
      ensures g == Model(old(g.added) + [request], old(g.keys) + [KeyOf(tp)])
      ensures Valid() && SlotKeys() == old(SlotKeys()) + [KeyOf(tp)]
    {
      hide Grouped, Nexts, Prevs, Distinct;
      AddNew(g, chains, SlotKeys(), request, KeyOf(tp));
      var cacheid := |treecache|;
      ChainsLinked(request);
      StartChain(request, chains);
      assert forall d {:trigger SlotKeys()[d]} | 0 <= d < cacheid :: SlotKeys()[d] != KeyOf(tp);
      tp.cacheid := cacheid;
      if tp.globalId != 0 {
        cacheStore := [(tp.globalId, cacheid)] + cacheStore;
      }
      treecache := treecache + [Slot(tp, request, request)];
      g := Model(g.added + [request], g.keys + [KeyOf(tp)]);
      chains := chains + [[request]];
      assert SlotKeys() == old(SlotKeys()) + [KeyOf(tp)];
    }

    lemma ChainsLinked(request: Request)
      requires Valid() && request !in g.added
      ensures forall d {:trigger chains[d]} | 0 <= d < |chains| ::
                Nexts(chains[d], null) && Prevs(chains[d]) && request !in chains[d]
    {
      hide Grouped, Nexts, Prevs, Distinct;
      GroupedApart(g, chains, SlotKeys());
      assert forall d {:trigger chains[d]} | 0 <= d < |chains| :: Chained(treecache[d], chains[d]);
    }

    /** Put a request on the chain of its subtree. */
    method AddVarbind(request: Request, tp: Subtree)
      requires Valid() && request !in g.added
      modifies this, request, tp`cacheid, Linked()`next
      ensures Valid() && g == Model(old(g.added) + [request], old(g.keys) + [KeyOf(tp)])
      ensures request.subtree == tp
    {
      hide Grouped, Nexts, Prevs, Distinct, KeyOf, Chained;
      var cacheid := FindChain(tp);
      request.subtree := tp;
      if cacheid == -1 {
        NewChain(request, tp);
      } else {
        Append(request, cacheid);
      }
    }

    lemma LinkedAdded()
      requires Valid()
      ensures forall r | r in Linked() :: r in g.added
    {
      hide Distinct, Filter;
      GroupedApart(g, chains, SlotKeys());
    }

    /** Group a whole request. Varbinds without a subtree are left out, and it
        does not matter what the subtrees' notes said before. */
    method Group(requests: seq<Request>, tps: seq<Subtree?>)
      requires |requests| == |tps| && Distinct(requests)
      modifies this, requests, (set tp: Subtree | tp in tps)`cacheid
      ensures Valid() && g == Given(requests, tps) && Arranged(requests, tps, chains)
    {
      hide Arranged, Grouped, Nexts, Prevs, Distinct, KeyOf, Chained, Given;
      treecache, cacheStore, g, chains := [], [], Model([], []), [];
      GroupedNone();
      GivenNone(requests, tps);
      var i := 0;
      while i < |requests|
        invariant 0 <= i <= |requests| && Valid() && g == Given(requests[..i], tps[..i])
      {
        LinkedAdded();
        GivenMore(requests, tps, i);
        var tp := tps[i];
        if tp != null {
          AddVarbind(requests[i], tp);
        }
        i := i + 1;
      }
      assert requests[..i] == requests && tps[..i] == tps;
      Arranging(requests, tps, chains, SlotKeys());
    }
  }

  lemma GroupedNone()
    ensures Grouped(Model([], []), [], [])
  {
  }

  /** The requests that have a subtree, and their keys. */
  ghost function Given(requests: seq<Request>, tps: seq<Subtree?>): Model
    requires |requests| == |tps|
  {
    if requests == [] then Model([], [])
    else
      var n := |requests| - 1;
      var m := Given(requests[..n], tps[..n]);
      if tps[n] == null then m else Model(m.added + [requests[n]], m.keys + [KeyOf(tps[n])])
  }

  lemma GivenNone(requests: seq<Request>, tps: seq<Subtree?>)
    requires |requests| == |tps|
    ensures Given(requests[..0], tps[..0]) == Model([], [])
  {
  }

  lemma GivenMore(requests: seq<Request>, tps: seq<Subtree?>, i: nat)
    requires i < |requests| == |tps| && Distinct(requests)
    ensures var m := Given(requests[..i], tps[..i]);
            && Given(requests[..i + 1], tps[..i + 1])
               == (if tps[i] == null then m else Model(m.added + [requests[i]], m.keys + [KeyOf(tps[i])]))
            && requests[i] !in m.added && forall r | r in m.added :: r in requests
  {
    assert requests[..i + 1][..i] == requests[..i] && tps[..i + 1][..i] == tps[..i];
    GivenFrom(requests[..i], tps[..i]);
    assert requests[i] !in requests[..i];
  }

  lemma {:induction false} GivenFrom(requests: seq<Request>, tps: seq<Subtree?>)
    requires |requests| == |tps|
    ensures forall r | r in Given(requests, tps).added :: r in requests
    ensures |Given(requests, tps).added| == |Given(requests, tps).keys|
    ensures Increasing(requests) ==> Increasing(Given(requests, tps).added)
  {
    if requests != [] {
      var n := |requests| - 1;
      GivenFrom(requests[..n], tps[..n]);
      var a := Given(requests[..n], tps[..n]).added;
      assert forall i | 0 <= i < |a| :: a[i] in a && a[i] in requests[..n];
    }
  }

  ghost predicate OnlyOn(r: Request, chains: seq<seq<Request>>, c: nat)
    requires c < |chains|
  {
    && (exists k :: 0 <= k < |chains[c]| && chains[c][k] == r && forall j | 0 <= j < |chains[c]| && j != k :: chains[c][j] != r)
    && forall d | 0 <= d < |chains| && d != c :: r !in chains[d]
  }

  /** Every request is on one chain and no other, at one place. */
  lemma ExactlyOneChain(m: Model, chains: seq<seq<Request>>, ks: seq<Key>, i: nat)
    requires Grouped(m, chains, ks) && i < |m.added|
    ensures exists c :: 0 <= c < |ks| && OnlyOn(m.added[i], chains, c)
  {
    assert m.keys[i] in ks;
    var c :| 0 <= c < |ks| && ks[c] == m.keys[i];
    OneChain(m.added, m.keys, i, ks[c]);
    GroupedApart(m, chains, ks);
    assert chains[c] == Filter(m.added, m.keys, ks[c]) && Distinct(chains[c]);
    assert forall d | 0 <= d < |chains| && d != c :: m.added[i] !in chains[d];
    assert OnlyOn(m.added[i], chains, c);
  }

  /** Two requests share a chain exactly when they have the same key. */
  lemma Together(m: Model, chains: seq<seq<Request>>, ks: seq<Key>, i: nat, j: nat)
    requires Grouped(m, chains, ks) && i < |m.added| && j < |m.added|
    ensures (exists c :: 0 <= c < |ks| && m.added[i] in chains[c] && m.added[j] in chains[c]) <==> m.keys[i] == m.keys[j]
  {
    forall c | 0 <= c < |ks|
      ensures m.added[i] in chains[c] <==> m.keys[i] == ks[c]
      ensures m.added[j] in chains[c] <==> m.keys[j] == ks[c]
    {
      assert chains[c] == Filter(m.added, m.keys, ks[c]);
      OneChain(m.added, m.keys, i, ks[c]);
      OneChain(m.added, m.keys, j, ks[c]);
    }
    assert m.keys[i] in ks;
  }

  /** Chains keep the order of the request. */
  lemma ChainOrder(m: Model, chains: seq<seq<Request>>, ks: seq<Key>, c: nat)
    requires Grouped(m, chains, ks) && Increasing(m.added) && c < |ks|
    ensures Increasing(chains[c])
  {
    ChainSorted(m.added, m.keys, ks[c]);
    assert chains[c] == Filter(m.added, m.keys, ks[c]);
  }

  method StartChain(request: Request, ghost chains: seq<seq<Request>>)
    requires forall d {:trigger chains[d]} | 0 <= d < |chains| ::
               Nexts(chains[d], null) && Prevs(chains[d]) && request !in chains[d]
    modifies request`next, request`prev
    ensures Nexts([request], null) && Prevs([request])
    ensures forall d {:trigger chains[d]} | 0 <= d < |chains| :: Nexts(chains[d], null) && Prevs(chains[d])
  {
    request.next, request.prev := null, null;
  }

  method LinkLast(request: Request, end: Request, ghost chain: seq<Request>, ghost chains: seq<seq<Request>>, ghost c: nat)
    requires chain != [] && end == chain[|chain| - 1] && Nexts(chain, null) && Prevs(chain) && Distinct(chain)
    requires request !in chain
    requires forall d {:trigger chains[d]} | 0 <= d < |chains| && d != c ::
               Nexts(chains[d], null) && Prevs(chains[d]) && request !in chains[d] && end !in chains[d]
    modifies request`next, request`prev, end`next
    ensures Nexts(chain + [request], null) && Prevs(chain + [request])
    ensures forall d {:trigger chains[d]} | 0 <= d < |chains| && d != c :: Nexts(chains[d], null) && Prevs(chains[d])
  {
    request.next := null;
    end.next := request;
    request.prev := end;
  }

  // ----- what the grouping comes to -----

  ghost predicate Share(chains: seq<seq<Request>>, r: Request, s: Request) {
    exists c :: 0 <= c < |chains| && r in chains[c] && s in chains[c]
  }

  /** The chains hold the requests that have a subtree: each on one chain, at one
      place; two on the same chain exactly if their subtrees are the same or
      share a cache; and in order. */
  ghost predicate Arranged(requests: seq<Request>, tps: seq<Subtree?>, chains: seq<seq<Request>>)
    requires |requests| == |tps|
  {
    && (forall i | 0 <= i < |tps| && tps[i] != null :: exists c :: 0 <= c < |chains| && OnlyOn(requests[i], chains, c))
    && (forall i, j | 0 <= i < |tps| && 0 <= j < |tps| && tps[i] != null && tps[j] != null ::
          Share(chains, requests[i], requests[j]) <==>
          tps[i] == tps[j] || (tps[i].globalId == tps[j].globalId && tps[i].globalId != 0))
    && (forall c, r | 0 <= c < |chains| && r in chains[c] :: exists i :: 0 <= i < |tps| && requests[i] == r && tps[i] != null)
    && (Increasing(requests) ==> forall c | 0 <= c < |chains| :: Increasing(chains[c]))
  }

  /** Where a request with a subtree stands among those given. */
  lemma {:induction false} GivenAt(requests: seq<Request>, tps: seq<Subtree?>, i: nat) returns (k: nat)
    requires i < |requests| == |tps| && tps[i] != null
    ensures var m := Given(requests, tps); k < |m.added| == |m.keys| && m.added[k] == requests[i] && m.keys[k] == KeyOf(tps[i])
  {
    var n := |requests| - 1;
    GivenFrom(requests, tps);
    GivenFrom(requests[..n], tps[..n]);
    if i < n {
      k := GivenAt(requests[..n], tps[..n], i);
    } else {
      k := |Given(requests[..n], tps[..n]).added|;
    }
  }

  lemma {:induction false} GivenHas(requests: seq<Request>, tps: seq<Subtree?>, r: Request)
    requires |requests| == |tps| && r in Given(requests, tps).added
    ensures exists i :: 0 <= i < |tps| && requests[i] == r && tps[i] != null
  {
    var n := |requests| - 1;
    if r in Given(requests[..n], tps[..n]).added {
      GivenHas(requests[..n], tps[..n], r);
      var i :| 0 <= i < n && requests[..n][i] == r && tps[..n][i] != null;
      assert requests[i] == r && tps[i] != null;
    } else {
      assert requests[n] == r && tps[n] != null;
    }
  }

  lemma Arranging(requests: seq<Request>, tps: seq<Subtree?>, chains: seq<seq<Request>>, ks: seq<Key>)
    requires |requests| == |tps| && Distinct(requests) && Grouped(Given(requests, tps), chains, ks)
    ensures Arranged(requests, tps, chains)
  {
    hide Given, Grouped, OnlyOn, KeyOf;
    var m := Given(requests, tps);
    GivenFrom(requests, tps);
    assert |chains| == |ks| by { GroupedSize(m, chains, ks); }
    GroupedApart(m, chains, ks);
    forall i | 0 <= i < |tps| && tps[i] != null ensures exists c :: 0 <= c < |chains| && OnlyOn(requests[i], chains, c) {
      var k := GivenAt(requests, tps, i);
      ExactlyOneChain(m, chains, ks, k);
    }
    forall i, j | 0 <= i < |tps| && 0 <= j < |tps| && tps[i] != null && tps[j] != null
      ensures Share(chains, requests[i], requests[j]) <==>
              tps[i] == tps[j] || (tps[i].globalId == tps[j].globalId && tps[i].globalId != 0)
    {
      var k := GivenAt(requests, tps, i);
      var l := GivenAt(requests, tps, j);
      Together(m, chains, ks, k, l);
      SameKey(tps[i], tps[j]);
    }
    forall c, r | 0 <= c < |chains| && r in chains[c] ensures exists i :: 0 <= i < |tps| && requests[i] == r && tps[i] != null {
      GivenHas(requests, tps, r);
    }
    if Increasing(requests) {
      forall c | 0 <= c < |chains| ensures Increasing(chains[c]) { ChainOrder(m, chains, ks, c); }
    }
  }

  lemma GroupedSize(m: Model, chains: seq<seq<Request>>, ks: seq<Key>)
    requires Grouped(m, chains, ks)
    ensures |chains| == |ks|
  {
  }
}
