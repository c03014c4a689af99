/** The object monitor: watchers of objects, notifications waiting to be looked
    at, and callbacks ready to be delivered by priority. */
module Monitor {
  import opened Sequences
  import opened Oids

  type Events = bv32

  /** One watcher of an object. */
  datatype Info = Info(priority: int, data: int, events: Events, cb: nat)

  /** A notification. The object and event do not change; refs counts the
      callbacks still to be made for it. */
  class Header {
    const subject: Oid
    const event: Events
    var refs: nat
    ghost var freed: bool

    constructor (subject: Oid, event: Events)
      ensures this.subject == subject && this.event == event && refs == 0 && !freed
    {
      this.subject, this.event, refs, freed := subject, event, 0, false;
    }
  }

  /** A callback to be made. */
  datatype Placeholder = Placeholder(mi: Info, cbh: Header)

  // ----- registration -----

  /** Higher priorities first, and no two with the same priority and data. */
  ghost predicate Ranked(list: seq<Info>) {
    && (forall i, j | 0 <= i < j < |list| :: list[i].priority >= list[j].priority)
    && forall i, j | 0 <= i < j < |list| :: list[i].priority != list[j].priority || list[i].data != list[j].data
  }

  predicate Clashes(list: seq<Info>, mi: Info) {
    exists i :: 0 <= i < |list| && list[i].priority == mi.priority && list[i].data == mi.data
  }

  /** Behind all watchers of the same or a higher priority. */
  predicate PlaceFor(list: seq<Info>, i: nat, mi: Info)
    requires i <= |list|
  {
    && (forall k | 0 <= k < i :: list[k].priority >= mi.priority)
    && forall k | i <= k < |list| :: list[k].priority < mi.priority
  }

  lemma RankedSpliced(list: seq<Info>, i: nat, mi: Info)
    requires Ranked(list) && i <= |list| && (i < |list| ==> mi.priority > list[i].priority)
    requires forall k | 0 <= k < i :: list[k].priority >= mi.priority && !(list[k].priority == mi.priority && list[k].data == mi.data)
    ensures Ranked(Spliced(list, i, mi)) && PlaceFor(list, i, mi) && !Clashes(list, mi)
  {
  }

  // ----- what a notification gives rise to -----

  predicate Watches(mi: Info, h: Header) { mi.events & h.event != 0 }

  /** The callbacks owed to a list of watchers for one notification. */
  ghost function Wanted(list: seq<Info>, h: Header): multiset<Placeholder> {
    if list == [] then multiset{}
    else Wanted(list[..|list| - 1], h)
         + if Watches(list[|list| - 1], h) then multiset{Placeholder(list[|list| - 1], h)} else multiset{}
  }

  type Watchers = map<Oid, seq<Info>>

  function ListFor(w: Watchers, h: Header): seq<Info> {
    if h.subject in w then w[h.subject] else []
  }

  /** The callbacks owed for some notifications. */
  ghost function Owed(w: Watchers, hs: seq<Header>): multiset<Placeholder> {
    if hs == [] then multiset{} else Owed(w, hs[..|hs| - 1]) + Wanted(ListFor(w, hs[|hs| - 1]), hs[|hs| - 1])
  }

  ghost predicate Distinct(hs: seq<Header>) {
    forall i, j | 0 <= i < j < |hs| :: hs[i] != hs[j]
  }

  lemma {:induction false} WantedOnce(list: seq<Info>, h: Header, p: Placeholder)
    requires Ranked(list)
    ensures Wanted(list, h)[p] == if p.cbh == h && p.mi in list && Watches(p.mi, h) then 1 else 0
  {
    if list != [] {
      var n := |list| - 1;
      WantedOnce(list[..n], h, p);
      assert list == list[..n] + [list[n]];
      assert list[n] !in list[..n];
    }
  }

  /** Each watcher with a matching event is owed each notification of its
      object exactly once. */
  lemma {:induction false} OwedOnce(w: Watchers, hs: seq<Header>, p: Placeholder)
    requires Distinct(hs) && forall o | o in w :: Ranked(w[o])
    ensures Owed(w, hs)[p] == if p.cbh in hs && p.mi in ListFor(w, p.cbh) && Watches(p.mi, p.cbh) then 1 else 0
  {
    if hs != [] {
      var n := |hs| - 1;
      OwedOnce(w, hs[..n], p);
      WantedOnce(ListFor(w, hs[n]), hs[n], p);
      assert hs == hs[..n] + [hs[n]];
      assert hs[n] !in hs[..n];
    }
  }

  lemma {:induction false} OwedFirst(w: Watchers, h: Header, hs: seq<Header>)
    ensures Owed(w, [h] + hs) == Wanted(ListFor(w, h), h) + Owed(w, hs)
  {
    var all := [h] + hs;
    if hs == [] {
      assert all[..|all| - 1] == [];
    } else {
      assert all[..|all| - 1] == [h] + hs[..|hs| - 1];
      OwedFirst(w, h, hs[..|hs| - 1]);
    }
  }

  /** The callbacks owed to a list of watchers, in the order of the list. */
  ghost function Due(list: seq<Info>, h: Header): seq<Placeholder> {
    if list == [] then []
    else Due(list[..|list| - 1], h) + if Watches(list[|list| - 1], h) then [Placeholder(list[|list| - 1], h)] else []
  }

  /** The callbacks owed for some notifications, one after the other. */
  ghost function DueAll(w: Watchers, hs: seq<Header>): seq<Placeholder> {
    if hs == [] then [] else Due(ListFor(w, hs[0]), hs[0]) + DueAll(w, hs[1..])
  }

  /** The callbacks of one priority, in the order of the list. */
  ghost function Of(ready: seq<Placeholder>, v: int): seq<Placeholder> {
    if ready == [] then []
    else Of(ready[..|ready| - 1], v) + if ready[|ready| - 1].mi.priority == v then [ready[|ready| - 1]] else []
  }

  /** The first place that all callbacks of a lower priority are behind. */
  predicate Behind(ready: seq<Placeholder>, i: nat, p: Placeholder) {
    && i <= |ready|
    && (forall k | 0 <= k < i :: ready[k].mi.priority >= p.mi.priority)
    && forall k | i <= k < |ready| :: ready[k].mi.priority < p.mi.priority
  }

  /** A callback put there stands behind its equals; no others change places. */
  lemma {:induction false} InsertOf(ready: seq<Placeholder>, i: nat, p: Placeholder, v: int)
    requires Behind(ready, i, p)
    ensures Of(Spliced(ready, i, p), v) == Of(ready, v) + if p.mi.priority == v then [p] else []
  {
    var r, n := Spliced(ready, i, p), |ready|;
    if i == n {
      assert r[..n] == ready;
    } else {
      InsertOf(ready[..n - 1], i, p, v);
      assert r[..n] == Spliced(ready[..n - 1], i, p);
    }
  }

  lemma {:induction false} OfConcat(a: seq<Placeholder>, b: seq<Placeholder>, v: int)
    ensures Of(a + b, v) == Of(a, v) + Of(b, v)
  {
    if b == [] {
      assert a + b == a;
    } else {
      var n := |b| - 1;
      assert (a + b)[..|a + b| - 1] == a + b[..n];
      OfConcat(a, b[..n], v);
    }
  }

  lemma DueMore(list: seq<Info>, i: nat, h: Header)
    requires i < |list|
    ensures Due(list[..i + 1], h) == Due(list[..i], h) + if Watches(list[i], h) then [Placeholder(list[i], h)] else []
  {
    assert list[..i + 1][..i] == list[..i];
  }

  lemma DueFirst(w: Watchers, hs: seq<Header>)
    requires hs != []
    ensures DueAll(w, hs) == Due(ListFor(w, hs[0]), hs[0]) + DueAll(w, hs[1..])
  {
  }

  lemma DueEnd(w: Watchers)
    ensures DueAll(w, []) == []
  {
  }

  lemma {:induction false} NoneDue(list: seq<Info>, n: nat, h: Header)
    requires n <= |list| && forall k | 0 <= k < n :: !Watches(list[k], h)
    ensures Due(list[..n], h) == []
  {
    if n > 0 {
      NoneDue(list, n - 1, h);
      DueMore(list, n - 1, h);
    }
  }

  /** Callbacks due one after the other, behind those that are ready. */
  ghost predicate Joined(before: seq<Placeholder>, due: seq<Placeholder>, after: seq<Placeholder>) {
    forall v :: Of(after, v) == Of(before, v) + Of(due, v)
  }

  lemma JoinedNone(ready: seq<Placeholder>)
    ensures Joined(ready, [], ready)
  {
  }

  lemma JoinedMore(a: seq<Placeholder>, d: seq<Placeholder>, b: seq<Placeholder>, e: seq<Placeholder>, c: seq<Placeholder>)
    requires Joined(a, d, b) && Joined(b, e, c)
    ensures Joined(a, d + e, c)
  {
    forall v ensures Of(c, v) == Of(a, v) + Of(d + e, v) { OfConcat(d, e, v); }
  }

  ghost predicate Descending(ready: seq<Placeholder>) {
    forall i, j | 0 <= i < j < |ready| :: ready[i].mi.priority >= ready[j].mi.priority
  }

  /** That leaves just one order for a list of descending priorities. */
  lemma {:induction false} OneOrder(a: seq<Placeholder>, b: seq<Placeholder>)
    requires Descending(a) && Descending(b) && forall v :: Of(a, v) == Of(b, v)
    ensures a == b
  {
    if a == [] {
      NothingOf(b);
    } else if b == [] {
      NothingOf(a);
    } else {
      var m, n := |a| - 1, |b| - 1;
      SameLast(a, b);
      forall u ensures Of(a[..m], u) == Of(b[..n], u) { SameRest(a, b, u); }
      OneOrder(a[..m], b[..n]);
      assert a == a[..m] + [a[m]] && b == b[..n] + [b[n]];
    }
  }

  lemma SameLast(a: seq<Placeholder>, b: seq<Placeholder>)
    requires a != [] && b != [] && Descending(a) && Descending(b) && forall v :: Of(a, v) == Of(b, v)
    ensures a[|a| - 1] == b[|b| - 1]
  {
    var x, y := a[|a| - 1], b[|b| - 1];
    LastOf(a);
    LastOf(b);
    if x.mi.priority <= y.mi.priority {
      assert Of(a, x.mi.priority) == Of(b, x.mi.priority);
    } else {
      assert Of(a, y.mi.priority) == Of(b, y.mi.priority);
    }
  }

  /** The last callback is the last of its priority, and none has a lower one. */
  lemma LastOf(ready: seq<Placeholder>)
    requires ready != [] && Descending(ready)
    ensures var x := ready[|ready| - 1];
            && (var o := Of(ready, x.mi.priority); o != [] && o[|o| - 1] == x)
            && forall v | v < x.mi.priority :: Of(ready, v) == []
  {
    forall v | v < ready[|ready| - 1].mi.priority ensures Of(ready, v) == [] { NoneOf(ready, v); }
  }

  lemma SameRest(a: seq<Placeholder>, b: seq<Placeholder>, u: int)
    requires a != [] && b != [] && a[|a| - 1] == b[|b| - 1] && Of(a, u) == Of(b, u)
    ensures Of(a[..|a| - 1], u) == Of(b[..|b| - 1], u)
  {
    var x, y, last := Of(a[..|a| - 1], u), Of(b[..|b| - 1], u), if a[|a| - 1].mi.priority == u then [a[|a| - 1]] else [];
    assert x + last == Of(a, u) == Of(b, u) == y + last;
    assert |x| == |y| && x == (x + last)[..|x|] && y == (y + last)[..|x|];
  }

  lemma NothingOf(ready: seq<Placeholder>)
    ensures (forall v :: Of(ready, v) == []) ==> ready == []
  {
    if ready != [] { assert Of(ready, ready[|ready| - 1].mi.priority) != []; }
  }

  lemma {:induction false} NoneOf(ready: seq<Placeholder>, v: int)
    requires forall k | 0 <= k < |ready| :: ready[k].mi.priority > v
    ensures Of(ready, v) == []
  {
    if ready != [] { NoneOf(ready[..|ready| - 1], v); }
  }

  // ----- deliveries -----

  /** One callback that was made: which, when it became ready, and what else was
      ready (with when) at that moment. */
  datatype Delivery = Delivery(made: Placeholder, stamp: nat, waiting: seq<(Placeholder, nat)>)

  /** Nothing that was ready had a higher priority, or the same priority and
      longer standing. */
  ghost predicate BestFirst(d: Delivery) {
    forall q | q in d.waiting :: Precedes(d.made, d.stamp, q.0, q.1)
  }

  ghost predicate AllBest(log: seq<Delivery>) { forall d | d in log :: BestFirst(d) }

  predicate Precedes(p: Placeholder, s: nat, q: Placeholder, t: nat) {
    p.mi.priority > q.mi.priority || (p.mi.priority == q.mi.priority && s < t)
  }

  ghost function Made(log: seq<Delivery>): multiset<Placeholder> {
    if log == [] then multiset{} else Made(log[..|log| - 1]) + multiset{log[|log| - 1].made}
  }

  /** Number of callbacks outstanding for a notification. */
  ghost function Count(ready: seq<Placeholder>, h: Header): nat {
    if ready == [] then 0 else Count(ready[..|ready| - 1], h) + if ready[|ready| - 1].cbh == h then 1 else 0
  }

  lemma {:induction false} CountInsert(ready: seq<Placeholder>, i: nat, p: Placeholder, h: Header)
    requires i <= |ready|
    ensures Count(Spliced(ready, i, p), h) == Count(ready, h) + if p.cbh == h then 1 else 0
  {
    var r := Spliced(ready, i, p);
    var n := |ready|;
    if i == n {
      assert r[..n] == ready;
    } else {
      CountInsert(ready[..n - 1], i, p, h);
      assert r[..n] == Spliced(ready[..n - 1], i, p);
    }
  }

  lemma {:induction false} CountFirst(ready: seq<Placeholder>, h: Header)
    requires ready != []
    ensures Count(ready, h) == (if ready[0].cbh == h then 1 else 0) + Count(ready[1..], h)
  {
    var n := |ready| - 1;
    if n > 0 {
      CountFirst(ready[..n], h);
      assert ready[..n][1..] == ready[1..][..n - 1];
    }
  }

  lemma {:induction false} CountPositive(ready: seq<Placeholder>, h: Header)
    ensures Count(ready, h) > 0 <==> exists p :: p in ready && p.cbh == h
  {
    if ready != [] {
      var n := |ready| - 1;
      CountPositive(ready[..n], h);
      assert ready == ready[..n] + [ready[n]];
      if exists p :: p in ready && p.cbh == h {
        var p :| p in ready && p.cbh == h;
        assert p == ready[n] || p in ready[..n];
      }
    }
  }

  ghost predicate Orderly(ready: seq<Placeholder>, stamps: seq<nat>, clock: nat) {
    && |stamps| == |ready| && (forall i | 0 <= i < |stamps| :: stamps[i] < clock)
    && forall i, j | 0 <= i < j < |ready| :: Precedes(ready[i], stamps[i], ready[j], stamps[j])
  }

  lemma InsertOrderly(ready: seq<Placeholder>, stamps: seq<nat>, clock: nat, i: nat, p: Placeholder)
    requires Orderly(ready, stamps, clock) && i <= |ready|
    requires forall k | 0 <= k < i :: ready[k].mi.priority >= p.mi.priority
    requires i < |ready| ==> p.mi.priority > ready[i].mi.priority
    ensures |stamps| == |ready| && Orderly(Spliced(ready, i, p), Spliced(stamps, i, clock), clock + 1)
  {
    hide Spliced;
  }

  class Monitor {
    var watchers: Watchers
    var pending: seq<Header>
    var ready: seq<Placeholder>
    // when each ready callback became ready; all notifications of this run;
    // all deliveries of this run
    ghost var stamps: seq<nat>
    ghost var clock: nat
    ghost var told: seq<Header>
    ghost var log: seq<Delivery>

    constructor ()
      ensures Idle() && watchers == map[] && told == []
    {
      watchers, pending, ready, stamps, clock, told, log := map[], [], [], [], 0, [], [];
    }

    ghost predicate AllRanked()
      reads this`watchers
    {
      forall o | o in watchers :: Ranked(watchers[o])
    }

    /** A header is freed as soon as nothing refers to it any more, and until
        then its count is the number of callbacks outstanding for it; cur is a
        header being worked on, with so many callbacks on the side. */
    ghost predicate Accounts(cur: Header?, extra: nat)
      reads `pending, `ready, `told, told
    {
      && Distinct(told) && Distinct(pending)
      && (forall h | h in pending :: h in told && Count(ready, h) == 0 && h != cur)
      && (forall p | p in ready :: p.cbh in told)
      && (cur != null ==> cur in told)
      && forall h | h in told ::
           && (h.freed <==> h !in pending && Count(ready, h) == 0 && h != cur)
           && (!h.freed ==> h.refs == Count(ready, h) + if h == cur then extra else 0)
    }

    /** Between notifications, with nothing ready. */
    ghost predicate Idle()
      reads this, told
    {
      AllRanked() && Accounts(null, 0) && Orderly(ready, stamps, clock) && ready == []
    }

    // ----- registration -----

    /** Register a watcher: after the others of the same or a higher priority,
        unless its priority and data are taken. */
    method Register(subject: Oid, mi: Info) returns (ok: bool)
      requires AllRanked()
      modifies this`watchers
      ensures AllRanked()
      ensures ok <==> !(subject in old(watchers) && Clashes(old(watchers)[subject], mi))
      ensures !ok ==> watchers == old(watchers)
      ensures ok ==>
                var list := if subject in old(watchers) then old(watchers)[subject] else [];
                exists i :: 0 <= i <= |list| && PlaceFor(list, i, mi) && watchers == old(watchers)[subject := Spliced(list, i, mi)]
    {
      if subject in watchers {
        var list, i := watchers[subject], 0;
        while i < |list|
          invariant 0 <= i <= |list|
          invariant forall k | 0 <= k < i ::
                      list[k].priority >= mi.priority && !(list[k].priority == mi.priority && list[k].data == mi.data)
        {
          if mi.priority == list[i].priority {
            if mi.data == list[i].data {
              return false;
            }
          } else if mi.priority > list[i].priority {
            break;
          }
          i := i + 1;
        }
        RankedSpliced(list, i, mi);
        watchers := watchers[subject := Spliced(list, i, mi)];
      } else {
        assert Spliced([], 0, mi) == [mi];
        watchers := watchers[subject := [mi]];
      }
      ok := true;
    }

    // ----- notification -----

    method Notify(h: Header, ghost cur: Header?, ghost extra: nat)
      requires Accounts(cur, extra) && h !in told && h.refs == 0 && !h.freed
      modifies this`pending, this`told
      ensures Accounts(cur, extra) && pending == [h] + old(pending) && told == old(told) + [h]
    {
      CountNone(h, cur, extra);
      pending := [h] + pending;
      told := told + [h];
    }

    lemma CountNone(h: Header, cur: Header?, extra: nat)
      requires Accounts(cur, extra) && h !in told
      ensures Count(ready, h) == 0
    {
      CountPositive(ready, h);
    }

    /** Put a callback behind all ready ones of the same or a higher priority,
        and before all others. */
    method InsertReady(p: Placeholder)
      requires Orderly(ready, stamps, clock)
      modifies this`ready, this`stamps, this`clock
      ensures exists i: nat :: Behind(old(ready), i, p) && ready == Spliced(old(ready), i, p)
                               && i <= |old(stamps)| && stamps == Spliced(old(stamps), i, old(clock))
      ensures clock == old(clock) + 1 && Joined(old(ready), [p], ready)
      ensures Orderly(ready, stamps, clock) && multiset(ready) == multiset(old(ready)) + multiset{p}
      ensures forall h :: Count(ready, h) == Count(old(ready), h) + if p.cbh == h then 1 else 0
      ensures forall q | q in ready :: q == p || q in old(ready)
    {
      hide Count, Orderly, Spliced, Behind;
      var i := 0;
      while i < |ready|
        invariant 0 <= i <= |ready| && forall k | 0 <= k < i :: ready[k].mi.priority >= p.mi.priority
      {
        if p.mi.priority > ready[i].mi.priority {
          break;
        }
        i := i + 1;
      }
      InsertOrderly(ready, stamps, clock, i, p);
      RestLower(i, p);
      forall v ensures Of(Spliced(ready, i, p), v) == Of(ready, v) + Of([p], v) { InsertOf(ready, i, p, v); }
      forall h { CountInsert(ready, i, p, h); }
      SplicedMembers(ready, i, p);
      ready := Spliced(ready, i, p);
      stamps := Spliced(stamps, i, clock);
      clock := clock + 1;
    }

    /** What stands behind a callback of a lower priority has a lower one. */
    lemma RestLower(i: nat, p: Placeholder)
      requires Orderly(ready, stamps, clock) && i <= |ready| && forall k | 0 <= k < i :: ready[k].mi.priority >= p.mi.priority
      requires i < |ready| ==> p.mi.priority > ready[i].mi.priority
      ensures Behind(ready, i, p)
    {
    }

    /** The first watcher of a header's object that cares for its event. */
    method CheckRegistered(h: Header) returns (list: seq<Info>, first: int)
      ensures list == ListFor(watchers, h) && -1 <= first < |list|
      ensures first == -1 ==> forall k | 0 <= k < |list| :: !Watches(list[k], h)
      ensures first >= 0 ==> Watches(list[first], h) && forall k | 0 <= k < first :: !Watches(list[k], h)
    {
      list := ListFor(watchers, h);
      var i := 0;
      while i < |list|
        invariant 0 <= i <= |list| && forall k | 0 <= k < i :: !Watches(list[k], h)
      {
        if Watches(list[i], h) {
          return list, i;
        }
        i := i + 1;
      }
      first := -1;
    }

    /** Count one more callback for the header being worked on. */
    method AddCallback(p: Placeholder)
      requires Accounts(p.cbh, 0) && Orderly(ready, stamps, clock)
      modifies this`ready, this`stamps, this`clock, p.cbh`refs
      ensures Accounts(p.cbh, 0) && Orderly(ready, stamps, clock)
      ensures multiset(ready) == multiset(old(ready)) + multiset{p} && Count(ready, p.cbh) > 0
      ensures Joined(old(ready), [p], ready)
    {
      hide Count, Orderly, Distinct, Joined, Behind;
      p.cbh.refs := p.cbh.refs + 1;
      InsertReady(p);
    }

    /** Take the latest notification off the pending list. */
    method Pop() returns (cbp: Header)
      requires pending != [] && Accounts(null, 0)
      modifies this`pending
      ensures cbp == old(pending)[0] && pending == old(pending)[1..]
      ensures Accounts(cbp, 0) && Count(ready, cbp) == 0
    {
      hide Count;
      cbp := pending[0];
      pending := pending[1..];
    }

    method Free(cbp: Header)
      requires Accounts(cbp, 0) && Count(ready, cbp) == 0
      modifies cbp`freed
      ensures Accounts(null, 0)
    {
      hide Count, Distinct;
      cbp.freed := true;
    }

    lemma StillNeeded(cbp: Header)
      requires Accounts(cbp, 0) && Count(ready, cbp) > 0
      ensures Accounts(null, 0)
    {
    }

    /** Make callbacks ready for the watchers from a given one on. */
    method AddCallbacks(list: seq<Info>, first: nat, cbp: Header)
      requires Accounts(cbp, 0) && Orderly(ready, stamps, clock)
      requires first < |list| && Watches(list[first], cbp) && forall k | 0 <= k < first :: !Watches(list[k], cbp)
      modifies this`ready, this`stamps, this`clock, cbp`refs
      ensures Accounts(cbp, 0) && Orderly(ready, stamps, clock) && Count(ready, cbp) > 0
      ensures multiset(ready) == multiset(old(ready)) + Wanted(list, cbp) && Joined(old(ready), Due(list, cbp), ready)
    {
      hide Count, Orderly, Accounts, Wanted, Watches, Joined, Due;
      NoneWanted(list, first, cbp);
      NoneDue(list, first, cbp);
      JoinedNone(ready);
      var i := first;
      while i < |list|
        invariant first <= i <= |list| && Accounts(cbp, 0) && Orderly(ready, stamps, clock)
        invariant multiset(ready) == multiset(old(ready)) + Wanted(list[..i], cbp) && Joined(old(ready), Due(list[..i], cbp), ready)
        invariant i > first ==> Count(ready, cbp) > 0
      {
        WantedMore(list, i, cbp);
        DueMore(list, i, cbp);
        if Watches(list[i], cbp) {
          ghost var now := ready;
          AddCallback(Placeholder(list[i], cbp));
          JoinedMore(old(ready), Due(list[..i], cbp), now, [Placeholder(list[i], cbp)], ready);
        } else {
          assert Due(list[..i + 1], cbp) == Due(list[..i], cbp);
        }
        i := i + 1;
      }
      assert list[..i] == list;
    }

    /** Look at the latest notification: make a callback ready for each watcher
        that wants it, or free it. */
    method MoveOne()
      requires pending != [] && Accounts(null, 0) && Orderly(ready, stamps, clock)
      modifies this`pending, this`ready, this`stamps, this`clock, told
      ensures Accounts(null, 0) && Orderly(ready, stamps, clock) && pending == old(pending)[1..]
      ensures var h := old(pending)[0]; multiset(ready) == multiset(old(ready)) + Wanted(ListFor(watchers, h), h)
      ensures var h := old(pending)[0]; Joined(old(ready), Due(ListFor(watchers, h), h), ready)
    {
      hide Count, Orderly, Accounts, Wanted, Watches, Joined, Due;
      JoinedNone(ready);
      Known(pending[0]);
      var cbp := Pop();
      var list, first := CheckRegistered(cbp);
      if first == -1 {
        NoneWanted(list, |list|, cbp);
        NoneDue(list, |list|, cbp);
        assert list[..|list|] == list;
        Free(cbp);
      } else {
        AddCallbacks(list, first, cbp);
        StillNeeded(cbp);
      }
    }

    lemma Known(h: Header)
      requires Accounts(null, 0) && h in pending
      ensures h in told
    {
    }

    /** Look at all pending notifications. */
    method MovePendingToReady()
      requires Accounts(null, 0) && Orderly(ready, stamps, clock)
      modifies this`pending, this`ready, this`stamps, this`clock, told
      ensures Accounts(null, 0) && Orderly(ready, stamps, clock) && pending == []
      ensures multiset(ready) == multiset(old(ready)) + Owed(watchers, old(pending))
      ensures Joined(old(ready), DueAll(watchers, old(pending)), ready)
      ensures old(pending) == [] ==> ready == old(ready)
    {
      hide Count, Orderly, Accounts, Wanted, Owed, Joined, Due, DueAll;
      ghost var done: seq<Placeholder> := [];
      JoinedNone(ready);
      while pending != []
        invariant old(pending) == [] ==> pending == [] && ready == old(ready)
        invariant Accounts(null, 0) && Orderly(ready, stamps, clock)
        invariant multiset(ready) + Owed(watchers, pending) == multiset(old(ready)) + Owed(watchers, old(pending))
        invariant Joined(old(ready), done, ready) && done + DueAll(watchers, pending) == DueAll(watchers, old(pending))
        decreases |pending|
      {
        ghost var h, rest := pending[0], pending[1..];
        assert pending == [h] + rest;
        OwedFirst(watchers, h, rest);
        DueFirst(watchers, pending);
        ghost var now, due := ready, Due(ListFor(watchers, h), h);
        MoveOne();
        JoinedMore(old(ready), done, now, due, ready);
        assert done + (due + DueAll(watchers, rest)) == done + due + DueAll(watchers, rest);
        done := done + due;
      }
      DueEnd(watchers);
      assert done + [] == done;
      assert Owed(watchers, []) == multiset{} by { OwedNone(watchers); }
    }

    /** Take the first ready callback: nothing else that is ready comes before
        it. */
    method PickFirst() returns (p: Placeholder, ghost d: Delivery)
      requires ready != [] && Accounts(null, 0) && Orderly(ready, stamps, clock)
      modifies this`ready, this`stamps
      ensures p == old(ready)[0] && ready == old(ready)[1..] && p.cbh in told
      ensures Accounts(p.cbh, 1) && Orderly(ready, stamps, clock)
      ensures |old(stamps)| == |old(ready)| && d == Delivery(p, old(stamps)[0], Zip(old(ready)[1..], old(stamps)[1..]))
      ensures BestFirst(d)
    {
      hide Count, Distinct;
      p := ready[0];
      forall h { CountFirst(ready, h); }
      d := Delivery(p, stamps[0], Zip(ready[1..], stamps[1..]));
      ready, stamps := ready[1..], stamps[1..];
    }

    /** The callback itself is made: all that it does to the monitor is to notify
        it of some more headers. */
    method Callback(cbh: Header, future: seq<Header>, from: nat, ghost d: Delivery) returns (upto: nat)
      requires d.made.cbh == cbh && Accounts(cbh, 1) && cbh in told && from <= |future| && Distinct(told + future[from..])
      requires forall h | h in future[from..] :: h.refs == 0 && !h.freed
      modifies this`pending, this`told, this`log
      ensures from <= upto <= |future| && Accounts(cbh, 1) && log == old(log) + [d]
      ensures told == old(told) + future[from..upto] && cbh in told
      ensures Owed(watchers, pending) == Owed(watchers, old(pending)) + Owed(watchers, future[from..upto])
      ensures upto == from ==> pending == old(pending)
    {
      hide Accounts, Wanted, Owed, Distinct;
      log := log + [d];
      var n: nat := *;
      upto := from;
      assert future[from..upto] == [];
      OwedNone(watchers);
      while upto < |future| && upto < n
        invariant from <= upto <= |future| && Accounts(cbh, 1) && log == old(log) + [d]
        invariant told == old(told) + future[from..upto]
        invariant Owed(watchers, pending) == Owed(watchers, old(pending)) + Owed(watchers, future[from..upto])
        invariant upto == from ==> pending == old(pending)
      {
        var h := future[upto];
        NotTold(old(told), future[from..], upto - from);
        assert future[from..][..upto - from] == future[from..upto];
        assert h in future[from..];
        OwedFirst(watchers, h, pending);
        OwedMore(watchers, future[from..upto], h);
        assert future[from..upto + 1] == future[from..upto] + [h];
        Notify(h, cbh, 1);
        upto := upto + 1;
      }
    }

    /** Let go of a header after one of its callbacks. */
    method Drop(cbh: Header)
      requires Accounts(cbh, 1) && cbh in told
      modifies cbh`refs, cbh`freed
      ensures Accounts(null, 0)
      ensures cbh.freed <==> Count(ready, cbh) == 0
    {
      hide Count, Distinct;
      cbh.refs := cbh.refs - 1;
      assert Accounts(cbh, 0);
      if cbh.refs == 0 {
        Free(cbh);
      } else {
        StillNeeded(cbh);
      }
    }

    /** Make one callback, and look at what it notified about. */
    method Deliver(cbh: Header, future: seq<Header>, from: nat, ghost d: Delivery) returns (upto: nat)
      requires d.made.cbh == cbh && pending == [] && Accounts(cbh, 1) && cbh in told && Orderly(ready, stamps, clock)
      requires from <= |future| && Distinct(told + future[from..])
      requires forall h | h in future[from..] :: h.refs == 0 && !h.freed
      modifies this`pending, this`ready, this`stamps, this`clock, this`told, this`log, told, future
      ensures log == old(log) + [d]
      ensures from <= upto <= |future| && told == old(told) + future[from..upto]
      ensures pending == [] && Accounts(null, 0) && Orderly(ready, stamps, clock)
      ensures multiset(ready) == multiset(old(ready)) + Owed(watchers, future[from..upto])
      ensures upto == from ==> ready == old(ready)
      ensures forall h | h in future && h !in told :: h.refs == old(h.refs) && h.freed == old(h.freed)
    {
      hide Precedes, Accounts, Count, Orderly, Wanted, Owed, Distinct;
      upto := Callback(cbh, future, from, d);
      assert forall h | h in told :: h in old(told) || h in future[from..upto];
      assert forall h | h in future[from..upto] :: h in future;
      OwedNone(watchers);
      Settle(cbh);
    }

    /** After a callback: let go of its header, and look at what is pending. */
    method Settle(cbh: Header)
      requires Accounts(cbh, 1) && cbh in told && Orderly(ready, stamps, clock)
      modifies this`pending, this`ready, this`stamps, this`clock, told
      ensures Accounts(null, 0) && Orderly(ready, stamps, clock) && pending == []
      ensures multiset(ready) == multiset(old(ready)) + Owed(watchers, old(pending))
      ensures old(pending) == [] ==> ready == old(ready)
    {
      hide Accounts, Count, Orderly, Wanted, Owed, Distinct;
      Drop(cbh);
      MovePendingToReady();
    }

    /** The books of a run in which future[..k] have come in so far, on top of
        the notifications t0 before it, of which before were pending. */
    ghost predicate Running(t0: seq<Header>, before: seq<Header>, future: seq<Header>, k: nat)
      reads this, told
    {
      && Accounts(null, 0) && Orderly(ready, stamps, clock) && pending == []
      && k <= |future| && told == t0 + future[..k] && AllBest(log)
      && Made(log) + multiset(ready) == Owed(watchers, before) + Owed(watchers, future[..k])
    }

    /** One delivery. */
    method Round(future: seq<Header>, k: nat, ghost t0: seq<Header>, ghost before: seq<Header>) returns (k': nat)
      requires ready != [] && Running(t0, before, future, k)
      requires Distinct(t0 + future) && forall h | h in future[k..] :: h.refs == 0 && !h.freed
      modifies this`pending, this`ready, this`stamps, this`clock, this`told, this`log, told, future
      ensures k <= k' && Running(t0, before, future, k')
      ensures forall h | h in future[k'..] :: h.refs == 0 && !h.freed
      ensures k' == k ==> |ready| < old(|ready|)
    {
      hide Accounts, Count, Orderly, Wanted, Owed, Distinct, AllBest, Made, Watches, ListFor, Of, Due, DueAll, Joined,
        BestFirst, Zip, Precedes;
      Later(t0, future, k);
      ghost var r0, log0 := ready, log;
      var p;
      ghost var d;
      p, d := PickFirst();
      ghost var r1 := ready;
      k' := Deliver(p.cbh, future, k, d);
      Books(watchers, log0, d, r0, r1, ready, before, future, k, k');
      assert future[..k'] == future[..k] + future[k..k'];
      Later(t0, future, k');
      assert forall h | h in future[k'..] :: h in future[k..] && h in future;
    }

    /** The response has gone out: make the callbacks that are due, most urgent
        first, until none is left. The callbacks themselves may notify about
        some of the headers in future. */
    method ProcessCallbacks(future: seq<Header>) returns (ghost sent: seq<Header>)
      requires Idle()
      requires Distinct(told + future) && forall h | h in future :: h.refs == 0 && !h.freed
      modifies this, told, future
      ensures Idle() && pending == [] && watchers == old(watchers)
      ensures sent <= future && told == old(told) + sent
      ensures Made(log) == Owed(watchers, old(pending) + sent)
      ensures AllBest(log)
    {
      hide AllRanked, Accounts, Count, Orderly, Wanted, Owed, Distinct, AllBest, Made;
      ghost var before, t0 := pending, told;
      var k := 0;
      log := [];
      assert AllBest(log) by { NoneMade(); }
      assert Made(log) == multiset{} && Owed(watchers, future[..0]) == multiset{} by { MadeNone(); OwedNone(watchers); }
      Later(t0, future, 0);
      MovePendingToReady();
      while ready != []
        invariant Running(t0, before, future, k) && watchers == old(watchers)
        invariant forall h | h in future[k..] :: h.refs == 0 && !h.freed
        decreases |future| - k, |ready|
      {
        k := Round(future, k, t0, before);
      }
      sent := future[..k];
      OwedConcat(watchers, before, sent);
    }
  }

  ghost function Zip(ready: seq<Placeholder>, stamps: seq<nat>): (z: seq<(Placeholder, nat)>)
    requires |ready| == |stamps|
    ensures |z| == |ready| && forall i {:trigger z[i]} | 0 <= i < |z| :: z[i] == (ready[i], stamps[i])
  {
    seq(|ready|, i requires 0 <= i < |ready| => (ready[i], stamps[i]))
  }

  lemma MadeMore(log: seq<Delivery>, d: Delivery)
    ensures Made(log + [d]) == Made(log) + multiset{d.made}
    ensures AllBest(log) && BestFirst(d) ==> AllBest(log + [d])
  {
    assert (log + [d])[..|log|] == log;
  }

  /** What was made and what is ready, before and after one delivery. */
  lemma Books(w: Watchers, log: seq<Delivery>, d: Delivery, r0: seq<Placeholder>, r1: seq<Placeholder>, r2: seq<Placeholder>,
              before: seq<Header>, future: seq<Header>, k: nat, k': nat)
    requires k <= k' <= |future| && r0 != [] && d.made == r0[0] && r1 == r0[1..]
    requires multiset(r2) == multiset(r1) + Owed(w, future[k..k'])
    requires Made(log) + multiset(r0) == Owed(w, before) + Owed(w, future[..k])
    ensures Made(log + [d]) + multiset(r2) == Owed(w, before) + Owed(w, future[..k'])
    ensures AllBest(log) && BestFirst(d) ==> AllBest(log + [d])
  {
    hide Owed, Made, AllBest, BestFirst;
    MadeMore(log, d);
    assert r0 == [d.made] + r1 && multiset(r0) == multiset{d.made} + multiset(r1);
    assert future[..k'] == future[..k] + future[k..k'];
    OwedConcat(w, future[..k], future[k..k']);
    assert Made(log + [d]) + multiset(r2) == Made(log) + (multiset{d.made} + multiset(r1)) + Owed(w, future[k..k']);
  }

  lemma NoneMade()
    ensures AllBest([])
  {
  }

  lemma MadeNone()
    ensures Made([]) == multiset{}
  {
  }

  lemma NotTold(told: seq<Header>, rest: seq<Header>, i: nat)
    requires Distinct(told + rest) && i < |rest|
    ensures rest[i] !in told + rest[..i]
  {
    var all := told + rest;
    assert all[|told| + i] == rest[i];
    assert forall k | 0 <= k < |told| + i :: all[k] == (told + rest[..i])[k];
  }

  /** Headers still to come are not among those told about. */
  lemma Later(told: seq<Header>, future: seq<Header>, k: nat)
    requires Distinct(told + future) && k <= |future|
    ensures Distinct(told + future[..k] + future[k..])
    ensures forall h | h in future[k..] :: h !in told + future[..k]
  {
    assert told + future[..k] + future[k..] == told + future;
    forall h | h in future[k..] ensures h !in told + future[..k] {
      var i :| 0 <= i < |future[k..]| && future[k..][i] == h;
      NotTold(told, future, k + i);
      assert forall x | x in told + future[..k] :: x in told + future[..k + i];
    }
  }

  lemma OwedMore(w: Watchers, hs: seq<Header>, h: Header)
    ensures Owed(w, hs + [h]) == Owed(w, hs) + Wanted(ListFor(w, h), h)
  {
    assert (hs + [h])[..|hs|] == hs;
  }

  lemma {:induction false} OwedConcat(w: Watchers, a: seq<Header>, b: seq<Header>)
    ensures Owed(w, a + b) == Owed(w, a) + Owed(w, b)
  {
    hide Owed, Wanted;
    if b == [] {
      assert a + b == a;
      OwedNone(w);
    } else {
      var n := |b| - 1;
      OwedConcat(w, a, b[..n]);
      assert b == b[..n] + [b[n]] && a + b == a + b[..n] + [b[n]];
      OwedMore(w, b[..n], b[n]);
      OwedMore(w, a + b[..n], b[n]);
    }
  }

  lemma OwedNone(w: Watchers)
    ensures Owed(w, []) == multiset{}
  {
  }

  lemma {:induction false} NoneWanted(list: seq<Info>, n: nat, h: Header)
    requires n <= |list| && forall k | 0 <= k < n :: !Watches(list[k], h)
    ensures Wanted(list[..n], h) == multiset{}
  {
    if n > 0 {
      assert list[..n][..n - 1] == list[..n - 1];
      NoneWanted(list, n - 1, h);
    }
  }

  lemma WantedMore(list: seq<Info>, i: nat, h: Header)
    requires i < |list|
    ensures Wanted(list[..i + 1], h)
            == Wanted(list[..i], h) + if Watches(list[i], h) then multiset{Placeholder(list[i], h)} else multiset{}
  {
    assert list[..i + 1][..i] == list[..i];
  }
}
