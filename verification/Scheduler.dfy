/** The request scheduler: SETs run alone, other requests may overlap while
    handlers are still working on them, and nobody overtakes. */
module Scheduler {
  import opened Sequences

  /** GETBULK behaves like GETNEXT here. */
  datatype Kind = Get | GetNext | Set

  /** One request being processed. The next field links it into whichever of
      the two lists it is on. */
  class Session {
    const kind: Kind
    const transid: nat
    var next: Session?
    /** Is some handler still working on this request? */
    var outstanding: bool

    constructor (kind: Kind, transid: nat)
      ensures this.kind == kind && this.transid == transid && next == null && !outstanding
    {
      this.kind, this.transid, next, outstanding := kind, transid, null, false;
    }
  }

  // ----- what happened so far -----

  datatype Event =
    | Claimed(s: Session)                 // a SET asks for exclusive execution
    | Started(s: Session, pending: nat)   // with so many delegated requests around
    | Wrapped(s: Session)                 // its response goes out
    | Answered(s: Session)                // its handlers have all answered
    | Resumed(s: Session)                 // taken up again, it has to wait once more

  /** The SET that holds the claim after an event, if any. */
  ghost function ClaimAfter(c: Session?, e: Event): Session? {
    match e
    case Claimed(s) => s
    case Started(_, _) => c
    case Wrapped(s) => if s == c then null else c
    case _ => c
  }

  /** What may happen under a claim: only the claimant starts, and a SET starts
      under its own claim with nothing pending. A GET never waits twice. */
  ghost predicate Permitted(c: Session?, e: Event) {
    match e
    case Claimed(s) => s.kind.Set? && c == null
    case Started(s, pending) => (c == null || c == s) && (s.kind.Set? ==> c == s && pending == 0)
    case Wrapped(_) => true
    case Answered(_) => true
    case Resumed(s) => !s.kind.Get?
  }

  ghost function Claimant(log: seq<Event>): Session? {
    if log == [] then null else ClaimAfter(Claimant(log[..|log| - 1]), log[|log| - 1])
  }

  /** Every event was permitted when it happened. */
  ghost predicate Legal(log: seq<Event>) {
    log == [] || (Legal(log[..|log| - 1]) && Permitted(Claimant(log[..|log| - 1]), log[|log| - 1]))
  }

  lemma {:induction false} LegalPrefix(log: seq<Event>, n: nat)
    requires Legal(log) && n <= |log|
    ensures Legal(log[..n])
    decreases |log|
  {
    if n < |log| {
      LegalPrefix(log[..|log| - 1], n);
      assert log[..|log| - 1][..n] == log[..n];
    } else {
      assert log[..n] == log;
    }
  }

  /** From a claim until it is wrapped up, the claim holds. */
  lemma {:induction false} ClaimHolds(log: seq<Event>, i: nat, s: Session)
    requires Legal(log) && i < |log| && log[i] == Claimed(s)
    requires forall k | i < k < |log| :: log[k] != Wrapped(s)
    ensures Claimant(log) == s
    decreases |log|
  {
    if i < |log| - 1 {
      ClaimHolds(log[..|log| - 1], i, s);
    }
  }

  /** Exclusive execution, over the whole history: no other request starts
      between a SET's claim and its completion. */
  lemma Exclusive(log: seq<Event>, i: nat, j: nat, s: Session, x: Session, pending: nat)
    requires Legal(log) && i < j < |log|
    requires log[i] == Claimed(s) && log[j] == Started(x, pending)
    requires forall k | i < k < j :: log[k] != Wrapped(s)
    ensures x == s
  {
    LegalPrefix(log, j);
    ClaimHolds(log[..j], i, s);
    LegalPrefix(log, j + 1);
    assert log[..j + 1][..j] == log[..j];
  }

  /** A SET starts only when no request is delegated. */
  lemma SetStartsAlone(log: seq<Event>, j: nat, x: Session, pending: nat)
    requires Legal(log) && j < |log| && log[j] == Started(x, pending) && x.kind.Set?
    ensures pending == 0
  {
    LegalPrefix(log, j + 1);
  }

  /** The requests started so far, in order. */
  ghost function Starts(log: seq<Event>): seq<Session> {
    if log == [] then []
    else
      var before := Starts(log[..|log| - 1]);
      match log[|log| - 1]
      case Started(s, _) => before + [s]
      case _ => before
  }

  /** The requests completed so far. */
  ghost function Done(log: seq<Event>): set<Session> {
    if log == [] then {}
    else
      var before := Done(log[..|log| - 1]);
      match log[|log| - 1]
      case Wrapped(s) => before + {s}
      case _ => before
  }

  /** The requests whose answers are in, but which have not been continued. */
  ghost function Unserved(log: seq<Event>): set<Session> {
    if log == [] then {} else UnservedAfter(Unserved(log[..|log| - 1]), log[|log| - 1])
  }

  ghost function UnservedAfter(u: set<Session>, e: Event): set<Session> {
    match e
    case Answered(s) => u + {s}
    case Wrapped(s) => u - {s}
    case Resumed(s) => u - {s}
    case _ => u
  }

  /** After event i the request was completed, or taken up again and had to wait
      once more; the latter never happens to a GET. */
  ghost predicate Served(log: seq<Event>, i: nat, s: Session) {
    exists k :: i < k < |log| && (log[k] == Wrapped(s) || (log[k] == Resumed(s) && !s.kind.Get?))
  }

  /** While nobody is left unserved, every answer has been acted upon. */
  lemma {:induction false} AllServed(log: seq<Event>, i: nat, s: Session)
    requires Legal(log) && i < |log| && log[i] == Answered(s) && s !in Unserved(log)
    ensures Served(log, i, s)
    ensures s.kind.Get? ==> s in Done(log)
    decreases |log|
  {
    var m := |log| - 1;
    if log[m] == Wrapped(s) || log[m] == Resumed(s) {
      assert i < m;
    } else {
      assert i < m && s !in Unserved(log[..m]);
      AllServed(log[..m], i, s);
      var k :| i < k < m && (log[..m][k] == Wrapped(s) || (log[..m][k] == Resumed(s) && !s.kind.Get?));
      assert log[k] == log[..m][k];
    }
  }

  /** What has started or is done stays so. */
  lemma {:induction false} Monotone(log: seq<Event>, longer: seq<Event>)
    requires Extends(log, longer)
    ensures Starts(log) <= Starts(longer) && Done(log) <= Done(longer)
    decreases |longer|
  {
    if log != longer {
      Monotone(log, longer[..|longer| - 1]);
    }
  }

  // ----- the two lists -----

  function Nth(s: seq<Session>, k: nat): Session? {
    if k < |s| then s[k] else null
  }

  /** s is what hangs from head, ending in null; so it has no cycle. */
  ghost predicate IsList(head: Session?, s: seq<Session>)
    reads s
  {
    head == Nth(s, 0) && forall k {:trigger s[k].next} | 0 <= k < |s| :: s[k].next == Nth(s, k + 1)
  }

  ghost predicate Distinct(s: seq<Session>) {
    forall j, k | 0 <= j < k < |s| :: s[j] != s[k]
  }

  ghost predicate Disjoint(s: seq<Session>, t: seq<Session>) {
    forall j, k | 0 <= j < |s| && 0 <= k < |t| :: s[j] != t[k]
  }

  /** What the linked lists and the history stand for. */
  datatype Model = Model(delegated: seq<Session>, queued: seq<Session>, log: seq<Event>, arrived: seq<Session>)

  ghost predicate Extends(log: seq<Event>, longer: seq<Event>) {
    log <= longer
  }

  lemma Same(log: seq<Event>)
    ensures Extends(log, log) && forall e :: Extends(log, log + [e])
  {
  }

  lemma Longer(a: seq<Event>, b: seq<Event>, c: seq<Event>)
    requires Extends(a, b) && Extends(b, c)
    ensures Extends(a, c)
  {
  }

  lemma Append(log: seq<Event>, e: Event)
    ensures Claimant(log + [e]) == ClaimAfter(Claimant(log), e)
    ensures Legal(log + [e]) <==> Legal(log) && Permitted(Claimant(log), e)
    ensures Starts(log + [e]) == if e.Started? then Starts(log) + [e.s] else Starts(log)
    ensures Done(log + [e]) == if e.Wrapped? then Done(log) + {e.s} else Done(log)
    ensures Unserved(log + [e]) == UnservedAfter(Unserved(log), e)
  {
    assert (log + [e])[..|log + [e]| - 1] == log;
  }

  ghost function Members(s: seq<Session>): set<Session> { set x | x in s }

  ghost predicate DistinctIds(s: seq<Session>) {
    forall x, y | x in s && y in s && x != y :: x.transid != y.transid
  }

  /** Facts that hold at every point of a run: cur is the request being worked
      on, if any, and wait are the arrived requests that have not started. */
  ghost predicate Consistent(m: Model, claim: Session?, cur: set<Session>, wait: seq<Session>) {
    && Legal(m.log) && Claimant(m.log) == claim && (claim != null ==> claim.kind.Set?)
    && m.arrived == Starts(m.log) + wait && Distinct(m.arrived) && DistinctIds(m.arrived)
    // every request is in exactly one place
    && Members(m.arrived) == Members(m.delegated) + Members(m.queued) + Done(m.log) + cur
    && Members(m.delegated) !! Members(m.queued) !! Done(m.log) !! cur
    // answers are in for delegated requests only
    && Unserved(m.log) <= Members(m.delegated) + cur
    // a delegated SET is the claimant, and alone
    && (forall s | s in m.delegated && s.kind.Set? :: m.delegated == [s] && s == claim)
  }

  /** Between two calls: requests queue up only behind a claim, and the
      claimant is running alone or waiting at the head of the queue. */
  ghost predicate Resting(m: Model, claim: Session?) {
    && Consistent(m, claim, {}, m.queued)
    && (claim == null ==> m.queued == [])
    && (claim != null ==> m.delegated == [claim] || (m.queued != [] && m.queued[0] == claim))
  }

  /** A request starts; nobody who arrived before it is still waiting. */
  lemma StartStep(m: Model, claim: Session?, asp: Session, wait: seq<Session>)
    requires Consistent(m, claim, {asp}, [asp] + wait)
    requires claim == null || claim == asp
    requires asp.kind.Set? ==> claim == asp && m.delegated == []
    ensures Consistent(m.(log := m.log + [Started(asp, |m.delegated|)]), claim, {asp}, wait)
  {
    hide Distinct, DistinctIds, Legal, Claimant, Starts, Done;
    Append(m.log, Started(asp, |m.delegated|));
    assert Starts(m.log) + ([asp] + wait) == Starts(m.log) + [asp] + wait;
  }

  /** A request is completed. */
  lemma WrapStep(m: Model, claim: Session?, asp: Session, wait: seq<Session>)
    requires Consistent(m, claim, {asp}, wait)
    ensures Consistent(m.(log := m.log + [Wrapped(asp)]), if claim == asp then null else claim, {}, wait)
  {
    hide Distinct, DistinctIds;
    Append(m.log, Wrapped(asp));
    assert asp !in Members(m.delegated);
    assert forall s | s in m.delegated :: s in Members(m.delegated);
  }

  /** A request has to wait once more. */
  lemma AgainStep(m: Model, claim: Session?, asp: Session, wait: seq<Session>)
    requires Consistent(m, claim, {asp}, wait) && !asp.kind.Get?
    ensures Consistent(m.(log := m.log + [Resumed(asp)]), claim, {asp}, wait)
  {
    hide Distinct, DistinctIds;
    Append(m.log, Resumed(asp));
  }

  /** The answers for a delegated request are in. */
  lemma AnswerStep(m: Model, claim: Session?, asp: Session)
    requires Resting(m, claim) && asp in m.delegated
    ensures Resting(m.(log := m.log + [Answered(asp)]), claim)
  {
    hide Distinct, DistinctIds;
    Append(m.log, Answered(asp));
  }

  /** The request being worked on is on neither list. */
  lemma CurrentApart(m: Model, claim: Session?, asp: Session, wait: seq<Session>)
    requires Consistent(m, claim, {asp}, wait)
    ensures asp !in m.delegated && asp !in m.queued
  {
    assert asp !in Members(m.delegated) && asp !in Members(m.queued);
  }

  /** A request joins the queue. */
  lemma QueueStep(m: Model, claim: Session?, asp: Session)
    requires Consistent(m, claim, {asp}, m.queued + [asp]) && asp !in Unserved(m.log)
    ensures Consistent(m.(queued := m.queued + [asp]), claim, {}, m.queued + [asp])
    ensures asp !in m.queued && asp !in m.delegated
  {
    hide Distinct, DistinctIds, Legal, Claimant, Starts, Done;
    assert Members(m.queued + [asp]) == Members(m.queued) + {asp};
    assert asp !in Members(m.queued) && asp !in Members(m.delegated);
  }

  /** A request whose handlers are not finished becomes delegated. */
  lemma DelegateStep(m: Model, claim: Session?, asp: Session, wait: seq<Session>)
    requires Consistent(m, claim, {asp}, wait)
    requires asp.kind.Set? ==> claim == asp && m.delegated == []
    requires (exists s :: s in m.delegated && s.kind.Set?) ==> claim == null || claim == asp
    ensures Consistent(m.(delegated := [asp] + m.delegated), claim, {}, wait)
    ensures asp !in m.queued && asp !in m.delegated
  {
    hide Distinct, DistinctIds, Legal, Claimant, Starts, Done;
    assert Members([asp] + m.delegated) == Members(m.delegated) + {asp};
    assert asp !in Members(m.queued) && asp !in Members(m.delegated);
  }

  lemma CutMembers(s: seq<Session>, k: nat)
    requires k < |s| && Distinct(s)
    ensures Members(s) == Members(Cut(s, k)) + {s[k]} && s[k] !in Members(Cut(s, k))
  {
    var c := Cut(s, k);
    forall x | x in s && x != s[k] ensures x in c {
      var j :| 0 <= j < |s| && s[j] == x;
      assert c[if j < k then j else j - 1] == x;
    }
  }

  /** A delegated request is taken up again. */
  lemma ResumeStep(m: Model, claim: Session?, k: nat, wait: seq<Session>)
    requires Consistent(m, claim, {}, wait) && k < |m.delegated| && Distinct(m.delegated)
    ensures Consistent(m.(delegated := Cut(m.delegated, k)), claim, {m.delegated[k]}, wait)
    ensures m.delegated[k].kind.Set? ==> claim == m.delegated[k] && |m.delegated| == 1
    ensures forall s | s in Cut(m.delegated, k) :: s.transid != m.delegated[k].transid && !s.kind.Set?
  {
    hide Legal, Claimant, Starts, Done;
    var d, c, asp := m.delegated, Cut(m.delegated, k), m.delegated[k];
    CutMembers(d, k);
    assert asp in d;
    assert asp in Members(m.arrived) && Members(c) <= Members(m.arrived);
    forall s | s in c ensures s.transid != asp.transid {
      assert s in Members(c) && s in Members(m.arrived);
    }
    assert forall s | s in c :: s in d by {
      forall s | s in c ensures s in d { assert s in Members(c); }
    }
    assert (exists s :: s in d && s.kind.Set?) ==> |d| == 1;
    assert |d| == 1 ==> c == [];
  }

  /** Which sessions of a list still have handlers working for them. */
  ghost function Busy(s: seq<Session>): (f: seq<bool>)
    reads s
    ensures |f| == |s| && forall j | 0 <= j < |s| :: f[j] == s[j].outstanding
  {
    seq(|s|, j requires 0 <= j < |s| reads s => s[j].outstanding)
  }

  /** The sessions whose flag is b, in list order. */
  ghost function Pick(s: seq<Session>, f: seq<bool>, b: bool): seq<Session>
    requires |s| == |f|
  {
    if s == [] then []
    else
      var n := |s| - 1;
      Pick(s[..n], f[..n], b) + if f[n] == b then [s[n]] else []
  }

  lemma PickStep(s: seq<Session>, f: seq<bool>, k: nat, b: bool)
    requires k < |s| == |f|
    ensures Pick(s[..k + 1], f[..k + 1], b) == Pick(s[..k], f[..k], b) + if f[k] == b then [s[k]] else []
  {
    assert s[..k + 1][..k] == s[..k] && f[..k + 1][..k] == f[..k];
  }

  lemma Once(d: seq<Session>, k: nat)
    requires Distinct(d) && k < |d|
    ensures d[k] !in d[..k] && forall j | k < j < |d| :: d[j] != d[k]
  {
  }

  /** One step of the scan, on values: session k leaves its place, and goes to
      the front if it was delegated again. */
  lemma ScanStep(front: seq<Session>, kept: seq<Session>, d: seq<Session>, k: nat)
    requires k < |d|
    ensures var l := front + kept + d[k..];
            var i := |front| + |kept|;
            && i < |l| && l[i] == d[k] && (i > 0 ==> l[i - 1] == (front + kept)[i - 1])
            && Cut(l, i) == front + kept + d[k + 1..]
            && [d[k]] + Cut(l, i) == [d[k]] + front + kept + d[k + 1..]
            && l == front + (kept + [d[k]]) + d[k + 1..]
            && Nth(l, i + 1) == Nth(d, k + 1)
  {
    var l, i := front + kept + d[k..], |front| + |kept|;
    assert d[k..] == [d[k]] + d[k + 1..];
    assert l[..i] == front + kept && l[i + 1..] == d[k + 1..];
  }

  /** The sessions on the list while it is being scanned are those it had. */
  lemma ScanMembers(front: seq<Session>, kept: seq<Session>, d: seq<Session>, k: nat)
    requires k < |d| && forall s | s in front + kept :: s in d
    ensures Members(front + kept + d[k..]) <= Members(d) && d[k] in Members(d)
    ensures forall s | s in [d[k]] + front + kept :: s in d
    ensures forall s | s in front + (kept + [d[k]]) :: s in d
    ensures forall s | s in front + kept :: s in d
  {
  }

  class Agent {
    var delegatedList: Session?
    var queuedList: Session?
    var processingSet: Session?
    ghost var g: Model

    ghost predicate Lists()
      reads this, g.delegated, g.queued
    {
      && IsList(delegatedList, g.delegated) && IsList(queuedList, g.queued)
      && Distinct(g.delegated) && Distinct(g.queued) && Disjoint(g.delegated, g.queued)
    }

    method ChainHas(asp: Session) returns (b: bool)
      requires Lists()
      ensures b <==> asp in g.delegated
    {
      var curr := delegatedList;
      ghost var k := 0;
      while curr != null
        invariant 0 <= k <= |g.delegated| && curr == Nth(g.delegated, k) && asp !in g.delegated[..k]
        decreases |g.delegated| - k
      {
        if curr == asp {
          return true;
        }
        curr := curr.next;
        k := k + 1;
      }
      return false;
    }

    method TransactionKnown(transid: nat) returns (b: bool)
      requires Lists()
      ensures b <==> exists s :: s in g.delegated && s.transid == transid
    {
      var curr := delegatedList;
      ghost var k := 0;
      while curr != null
        invariant 0 <= k <= |g.delegated| && curr == Nth(g.delegated, k)
        invariant forall j | 0 <= j < k :: g.delegated[j].transid != transid
        decreases |g.delegated| - k
      {
        if curr.transid == transid {
          return true;
        }
        curr := curr.next;
        k := k + 1;
      }
      return false;
    }

    method AddDelegated(asp: Session)
      requires Lists() && asp !in g.delegated && asp !in g.queued
      modifies this`delegatedList, this`g, asp`next
      ensures Lists() && g == old(g).(delegated := [asp] + old(g.delegated))
    {
      asp.next := delegatedList;
      delegatedList := asp;
      g := g.(delegated := [asp] + g.delegated);
    }

    /** Append to the queue: the loop ends by meeting the session it has just
        linked in. */
    method AddQueued(asp: Session)
      requires Lists() && asp !in g.delegated && asp !in g.queued && asp.next == null
      modifies this`queuedList, this`g, g.queued
      ensures Lists() && g == old(g).(queued := old(g.queued) + [asp])
    {
      ghost var q, w := g.queued, g.queued + [asp];
      g := g.(queued := w);
      assert forall j | 0 <= j < |q| :: w[j] == q[j] && q[j] in q;
      if queuedList == null {
        queuedList := asp;
        return;
      }
      var tmp := queuedList;
      ghost var k := 0;
      while tmp != null
        invariant 0 <= k <= |q| && tmp == w[k]
        invariant forall j {:trigger w[j].next} | 0 <= j < |w| :: w[j].next == Nth(if k < |q| then q else w, j + 1)
        modifies q
        decreases |w| - k
      {
        if tmp == asp {
          assert k == |q|;
          break;
        }
        if tmp.next == null {
          tmp.next := asp;
        }
        tmp := tmp.next;
        k := k + 1;
      }
    }

    /** A delegated request has no handler working for it exactly when its
        answers are in. */
    ghost predicate Flags()
      reads this, g.delegated
    {
      forall s | s in g.delegated :: s.outstanding <==> s !in Unserved(g.log)
    }

    ghost predicate Valid()
      reads this, g.delegated, g.queued
    {
      Lists() && Flags() && Resting(g, processingSet)
    }

    // ----- the steps -----

    /** Run the handlers for the first time; they may leave work outstanding. */
    method Start(asp: Session, ghost wait: seq<Session>)
      requires Lists() && Consistent(g, processingSet, {asp}, [asp] + wait)
      requires processingSet == null || processingSet == asp
      requires asp.kind.Set? ==> processingSet == asp && g.delegated == []
      requires Flags()
      modifies this`g, asp`outstanding
      ensures Lists() && Flags() && Consistent(g, processingSet, {asp}, wait)
      ensures g == old(g).(log := old(g.log) + [Started(asp, |g.delegated|)]) && Unserved(g.log) == old(Unserved(g.log))
    {
      hide Distinct, DistinctIds, Consistent, Legal, Claimant, Starts, Done, Unserved;
      ghost var e := Started(asp, |g.delegated|);
      Append(g.log, e);
      CurrentApart(g, processingSet, asp, [asp] + wait);
      StartStep(g, processingSet, asp, wait);
      g := g.(log := g.log + [e]);
      asp.outstanding := *;
    }

    /** Send the response and release the claim, if it was ours. */
    method WrapUp(asp: Session, ghost wait: seq<Session>)
      requires Lists() && Flags() && Consistent(g, processingSet, {asp}, wait)
      modifies this`processingSet, this`g
      ensures Lists() && Flags() && Consistent(g, processingSet, {}, wait)
      ensures processingSet == if old(processingSet) == asp then null else old(processingSet)
      ensures g == old(g).(log := old(g.log) + [Wrapped(asp)]) && Unserved(g.log) == old(Unserved(g.log)) - {asp}
    {
      hide Distinct, DistinctIds, Consistent, Unserved;
      Append(g.log, Wrapped(asp));
      CurrentApart(g, processingSet, asp, wait);
      WrapStep(g, processingSet, asp, wait);
      if asp == processingSet {
        processingSet := null;
      }
      g := g.(log := g.log + [Wrapped(asp)]);
    }

    /** Process a request now: it ends up delegated or done. */
    method Process(asp: Session, ghost wait: seq<Session>)
      requires Lists() && Consistent(g, processingSet, {asp}, [asp] + wait)
      requires processingSet == null || (processingSet == asp && g.delegated == [])
      requires asp.kind.Set? ==> processingSet == asp
      requires Flags() && asp !in Unserved(g.log)
      modifies this`g, this`processingSet, this`delegatedList, asp
      ensures Lists() && Flags() && Consistent(g, processingSet, {}, wait)
      ensures g.delegated == if asp.outstanding then [asp] + old(g.delegated) else old(g.delegated)
      ensures Extends(old(g.log) + [Started(asp, |old(g.delegated)|)], g.log) && Unserved(g.log) == old(Unserved(g.log))
      ensures processingSet != null ==> processingSet == old(processingSet) && g.delegated == [asp]
      ensures g.queued == old(g.queued) && g.arrived == old(g.arrived) && Extends(old(g.log), g.log)
    {
      hide Distinct, DistinctIds, Legal, Claimant, Starts, Done, Consistent, Unserved;
      Start(asp, wait);
      if asp.outstanding {
        DelegateStep(g, processingSet, asp, wait);
        var has := ChainHas(asp);
        if !has {
          AddDelegated(asp);
        }
      } else {
        WrapUp(asp, wait);
      }
    }

    /** A request that has arrived, or that reached the head of the queue. An
        arrival is started at once, unless a SET holds the claim or it is a SET
        itself and has to wait for delegated requests. */
    method HandleRequest(asp: Session, ghost arriving: bool)
      requires Lists() && Flags() && asp !in Unserved(g.log)
      requires arriving ==>
                 && Consistent(g, processingSet, {asp}, g.queued + [asp]) && asp.next == null && processingSet != asp
                 && (processingSet == null ==> g.queued == [])
                 && (processingSet != null ==>
                       g.delegated == [processingSet] || (g.queued != [] && g.queued[0] == processingSet))
      requires !arriving ==>
                 && Consistent(g, processingSet, {asp}, [asp] + g.queued)
                 && (asp.kind.Set? || processingSet != null ==> g.delegated == [])
                 && (processingSet == null || processingSet == asp)
      modifies this, asp, g.queued
      ensures Lists() && Flags() && Consistent(g, processingSet, {}, g.queued) && g.arrived == old(g.arrived)
      ensures arriving ==> Resting(g, processingSet)
      ensures Unserved(g.log) == old(Unserved(g.log)) && (g.delegated == old(g.delegated) || g.delegated == [asp] + old(g.delegated))
      ensures if !arriving || old(processingSet == null && (asp.kind.Set? ==> g.delegated == []))
              then asp in Starts(g.log) && g.queued == old(g.queued)
              else g.queued == old(g.queued) + [asp] && Starts(g.log) == old(Starts(g.log))
      ensures Extends(old(g.log), g.log)
      ensures !arriving ==> g.queued == old(g.queued) && (processingSet != null ==> g.delegated == [processingSet])
    {
      hide Distinct, DistinctIds, Legal, Claimant, Starts, Done, Unserved;
      var has := ChainHas(asp);
      assert asp !in Members(g.delegated) && asp !in Members(g.queued);
      if !has && asp != processingSet {
        if processingSet != null {
          QueueStep(g, processingSet, asp);
          AddQueued(asp);
          return;
        }
        if asp.kind.Set? {
          Append(g.log, Claimed(asp));
          processingSet := asp;
          g := g.(log := g.log + [Claimed(asp)]);
          if delegatedList != null {
            QueueStep(g, processingSet, asp);
            AddQueued(asp);
            return;
          }
        }
      }
      ghost var log := g.log + [Started(asp, |g.delegated|)];
      Append(g.log, Started(asp, |g.delegated|));
      Process(asp, g.queued);
      Monotone(log, g.log);
      assert Starts(log)[|Starts(log)| - 1] == asp;
    }

    // ----- polling -----

    /** Unlink a session given its predecessor in the list. */
    method Unlink(asp: Session, prev: Session?, ghost i: nat)
      requires Lists() && i < |g.delegated| && asp == g.delegated[i]
      requires prev == if i == 0 then null else g.delegated[i - 1]
      modifies this`delegatedList, this`g, Members(g.delegated)`next
      ensures Lists() && g == old(g).(delegated := Cut(old(g.delegated), i)) && asp.next == null
    {
      hide Cut;
      ghost var d, c := g.delegated, Cut(g.delegated, i);
      if prev != null {
        prev.next := asp.next;
      } else {
        delegatedList := asp.next;
      }
      asp.next := null;
      g := g.(delegated := c);
    }

    /** Continue a request whose delegated parts have all been answered: SETs
        and GETNEXTs run their handlers again. */
    method CheckDelayed(asp: Session)
      requires Lists() && Consistent(g, processingSet, {asp}, g.queued) && !asp.outstanding
      requires asp.kind.Set? ==> processingSet == asp && g.delegated == []
      requires forall s | s in g.delegated :: s.transid != asp.transid && !s.kind.Set?
      requires Flags()
      modifies this`g, this`processingSet, this`delegatedList, asp`outstanding, asp`next
      ensures Lists() && Flags() && Consistent(g, processingSet, {}, g.queued)
      ensures Unserved(g.log) == old(Unserved(g.log)) - {asp} && (asp.kind.Get? ==> !asp.outstanding)
      ensures g.delegated == if asp.outstanding then [asp] + old(g.delegated) else old(g.delegated)
      ensures asp.outstanding ==> g.log == old(g.log) + [Resumed(asp)] && processingSet == old(processingSet)
      ensures !asp.outstanding ==> g.log == old(g.log) + [Wrapped(asp)]
      ensures processingSet == if asp == old(processingSet) && !asp.outstanding then null else old(processingSet)
      ensures g.queued == old(g.queued) && g.arrived == old(g.arrived) && Extends(old(g.log), g.log)
    {
      hide Distinct, DistinctIds, Legal, Claimant, Starts, Done, Consistent, Unserved;
      CurrentApart(g, processingSet, asp, g.queued);
      Append(g.log, Resumed(asp));
      match asp.kind {
        case GetNext =>
          asp.outstanding := *;
          if asp.outstanding {
            AgainStep(g, processingSet, asp, g.queued);
            g := g.(log := g.log + [Resumed(asp)]);
            DelegateStep(g, processingSet, asp, g.queued);
            var known := TransactionKnown(asp.transid);
            if !known {
              var has := ChainHas(asp);
              if !has {
                AddDelegated(asp);
              }
            }
          }
        case Set =>
          asp.outstanding := *;
          if asp.outstanding {
            AgainStep(g, processingSet, asp, g.queued);
            g := g.(log := g.log + [Resumed(asp)]);
            DelegateStep(g, processingSet, asp, g.queued);
            var has := ChainHas(asp);
            if !has {
              AddDelegated(asp);
            }
            return;
          }
        case Get =>
      }
      if !asp.outstanding {
        WrapUp(asp, g.queued);
      }
    }

    /** The predecessor pointer of a scan that has reached position i. */
    ghost predicate Behind(prev: Session?, i: nat)
      reads this
    {
      i <= |g.delegated| && prev == if i == 0 then null else g.delegated[i - 1]
    }

    /** Visit one session of the scan, at position i of the list: unlink and
        continue it if it is ready, pass over it if not. */
    method Visit(asp: Session, prev: Session?, ghost i: nat) returns (prev': Session?, ghost again: bool)
      requires Lists() && Flags() && Consistent(g, processingSet, {}, g.queued)
      requires i < |g.delegated| && asp == g.delegated[i] && Behind(prev, i)
      modifies this`g, this`processingSet, this`delegatedList, Members(g.delegated)`next, asp`outstanding
      ensures Lists() && Flags() && Consistent(g, processingSet, {}, g.queued)
      ensures !old(asp.outstanding) ==> Unserved(g.log) == old(Unserved(g.log)) - {asp} && (again ==> !asp.kind.Get?)
      ensures g.queued == old(g.queued) && g.arrived == old(g.arrived) && Extends(old(g.log), g.log)
      ensures old(asp.outstanding) ==> !again && g == old(g) && processingSet == old(processingSet)
      ensures !old(asp.outstanding) ==>
                g.delegated == (if again then [asp] else []) + Cut(old(g.delegated), i)
      ensures asp.outstanding == (old(asp.outstanding) || again)
      ensures Behind(prev', if old(asp.outstanding) || again then i + 1 else i)
      ensures processingSet == if asp == old(processingSet) && !asp.outstanding then null else old(processingSet)
    {
      hide Distinct, DistinctIds, Consistent, Cut, IsList, Flags, Unserved;
      again := false;
      prev' := prev;
      if !asp.outstanding {
        var moved;
        moved, again := Resume(asp, prev, i);
        if prev == null && moved {
          prev' := delegatedList;
        }
      } else {
        prev' := asp;
      }
    }

    /** Unlink a ready session and continue it; tell whether the head of the
        list moved while it was being processed. */
    method Resume(asp: Session, prev: Session?, ghost i: nat) returns (moved: bool, ghost again: bool)
      requires Lists() && Flags() && Consistent(g, processingSet, {}, g.queued)
      requires i < |g.delegated| && asp == g.delegated[i] && Behind(prev, i) && !asp.outstanding
      modifies this`g, this`processingSet, this`delegatedList, Members(g.delegated)`next, asp`outstanding
      ensures Lists() && Flags() && Consistent(g, processingSet, {}, g.queued)
      ensures Unserved(g.log) == old(Unserved(g.log)) - {asp} && (again ==> !asp.kind.Get?)
      ensures g.queued == old(g.queued) && g.arrived == old(g.arrived) && Extends(old(g.log), g.log)
      ensures g.delegated == (if again then [asp] else []) + Cut(old(g.delegated), i)
      ensures moved == again == asp.outstanding && delegatedList == Nth(g.delegated, 0)
      ensures processingSet == if asp == old(processingSet) && !asp.outstanding then null else old(processingSet)
    {
      hide Legal, Claimant, Starts, Done, Consistent, Cut, DistinctIds, Unserved;
      ResumeStep(g, processingSet, i, g.queued);
      CutMembers(g.delegated, i);
      ghost var d := g.delegated;
      Unlink(asp, prev, i);
      assert Flags() by {
        forall s | s in g.delegated ensures s in d { assert s in Members(Cut(d, i)); }
      }
      var oldHead := delegatedList;
      CheckDelayed(asp);
      again := asp.outstanding;
      moved := delegatedList != oldHead;
    }

    lemma ListFacts(i: nat)
      requires Lists()
      ensures delegatedList == Nth(g.delegated, 0) && Distinct(g.delegated)
      ensures i < |g.delegated| ==> g.delegated[i].next == Nth(g.delegated, i + 1)
    {
    }

    /** The scan of d has reached position k: the sessions delegated again are
        in front, the ones passed over follow, and the rest is untouched. */
    ghost predicate Reached(d: seq<Session>, k: nat, again: seq<Session>, kept: seq<Session>, asp: Session?, prev: Session?)
      reads this, g.delegated, g.queued
    {
      && Lists() && Flags() && Consistent(g, processingSet, {}, g.queued)
      && k <= |d| && asp == Nth(d, k) && g.delegated == again + kept + d[k..]
      && Behind(prev, |again| + |kept|) && forall s | s in again + kept :: s in d
    }

    /** Visit the next session of the scan. */
    method Advance(asp: Session, prev: Session?, ghost d: seq<Session>, ghost k: nat,
                   ghost again: seq<Session>, ghost kept: seq<Session>)
      returns (next: Session?, prev': Session?, ghost again': seq<Session>, ghost kept': seq<Session>)
      requires Reached(d, k, again, kept, asp, prev)
      modifies this`g, this`processingSet, this`delegatedList, Members(d)`next, asp`outstanding
      ensures Reached(d, k + 1, again', kept', next, prev')
      ensures g.queued == old(g.queued) && g.arrived == old(g.arrived) && Extends(old(g.log), g.log)
      ensures Unserved(g.log) == if old(asp.outstanding) then old(Unserved(g.log)) else old(Unserved(g.log)) - {asp}
      ensures !old(asp.outstanding) && asp.outstanding ==> !asp.kind.Get?
      ensures if old(asp.outstanding) then kept' == kept + [asp] && again' == again && asp.outstanding
              else kept' == kept && again' == (if asp.outstanding then [asp] else []) + again
      ensures processingSet == if asp == old(processingSet) && !asp.outstanding then null else old(processingSet)
    {
      hide Distinct, DistinctIds, Legal, Claimant, Starts, Done, Consistent, Cut, IsList, Behind, Reached, Extends, Nth, Members, Flags, Unserved;
      EndScan(d, k, again, kept, asp, prev);
      ghost var i := |again| + |kept|;
      ScanStep(again, kept, d, k);
      ListFacts(i);
      next := asp.next;
      ScanMembers(again, kept, d, k);
      ghost var requeued;
      prev', requeued := Visit(asp, prev, i);
      again' := (if asp.outstanding && requeued then [asp] else []) + again;
      kept' := if requeued || !asp.outstanding then kept else kept + [asp];
      Reach(d, k + 1, again', kept', next, prev');
    }

    /** The same, with what the scan has to show for it. */
    method ScanNext(asp: Session, prev: Session?, ghost d: seq<Session>, ghost was: seq<bool>, ghost k: nat,
                    ghost again: seq<Session>, ghost kept: seq<Session>, ghost visited: seq<Session>,
                    ghost u: set<Session>, ghost claim: Session?)
      returns (next: Session?, prev': Session?, ghost again': seq<Session>, ghost kept': seq<Session>, ghost visited': seq<Session>)
      requires Reached(d, k, again, kept, asp, prev) && k < |d| == |was| && asp == d[k] && was[k] == asp.outstanding
      requires Scanned(d, was, k, again, kept, visited, u, Unserved(g.log), claim, processingSet)
      modifies this`g, this`processingSet, this`delegatedList, Members(d)`next, asp`outstanding
      ensures Reached(d, k + 1, again', kept', next, prev')
      ensures Scanned(d, was, k + 1, again', kept', visited', u, Unserved(g.log), claim, processingSet)
      ensures g.queued == old(g.queued) && g.arrived == old(g.arrived) && Extends(old(g.log), g.log)
    {
      hide Distinct, DistinctIds, Legal, Claimant, Starts, Done, Consistent, Cut, IsList, Behind, Reached, Extends, Nth, Unserved, Scanned;
      next, prev', again', kept' := Advance(asp, prev, d, k, again, kept);
      visited' := if was[k] then visited else visited + [asp];
      ScanOn(d, was, k, again, kept, visited, u, old(Unserved(g.log)), claim, old(processingSet), asp.outstanding,
             again', kept', visited', Unserved(g.log), processingSet);
    }

    /** Scan the delegated list. Every session that is ready is continued, once
        and in list order; those still outstanding keep their places, behind
        the ones that were delegated again. Nobody's answers are left lying. */
    method CheckDelegated() returns (ghost again: seq<Session>, ghost visited: seq<Session>)
      requires Valid()
      modifies this`g, this`processingSet, this`delegatedList, g.delegated
      ensures Lists() && Flags() && Consistent(g, processingSet, {}, g.queued)
      ensures g.queued == old(g.queued) && g.arrived == old(g.arrived)
      ensures Unserved(g.log) == {} && forall s | s in again :: !s.kind.Get?
      ensures visited == Pick(old(g.delegated), old(Busy(g.delegated)), false) && Extends(old(g.log), g.log)
      ensures g.delegated == again + Pick(old(g.delegated), old(Busy(g.delegated)), true)
      ensures forall s | s in again :: s in visited
      ensures processingSet == null || processingSet == old(processingSet)
      ensures processingSet != null && processingSet in old(g.delegated) ==> g.delegated == [processingSet]
    {
      hide Valid, Lists, Distinct, DistinctIds, Legal, Claimant, Starts, Done, Consistent, Cut, IsList, Reached, Behind, Pick, Busy, Nth,
        Extends, Flags, Unserved, Scanned;
      ghost var d, was, k, u, claim := g.delegated, Busy(g.delegated), 0, Unserved(g.log), processingSet;
      ghost var kept: seq<Session> := [];
      again, visited := [], [];
      var asp, prev: Session? := delegatedList, null;
      BeginScan();
      ScanFrom(d, was, u, claim);
      WaitingAnswers(d, was);
      while asp != null
        invariant 0 <= k <= |d| && Reached(d, k, again, kept, asp, prev)
        invariant g.queued == old(g.queued) && g.arrived == old(g.arrived) && Extends(old(g.log), g.log)
        invariant forall j | k <= j < |d| :: d[j].outstanding == was[j]
        invariant Scanned(d, was, k, again, kept, visited, u, Unserved(g.log), claim, processingSet)
        modifies this`g, this`processingSet, this`delegatedList, d
        decreases |d| - k
      {
        EndScan(d, k, again, kept, asp, prev);
        Once(d, k);
        ghost var log := g.log;
        asp, prev, again, kept, visited := ScanNext(asp, prev, d, was, k, again, kept, visited, u, claim);
        Longer(old(g.log), log, g.log);
        k := k + 1;
      }
      EndScan(d, k, again, kept, asp, prev);
      ScanDone(d, was, again, kept, visited, u, Unserved(g.log), claim, processingSet);
      assert d[k..] == [];
      if processingSet != null && processingSet in d {
        ClaimantAlone();
      }
    }

    /** The answers that are in belong to the sessions that are ready. */
    lemma WaitingAnswers(d: seq<Session>, was: seq<bool>)
      requires Valid() && d == g.delegated && was == Busy(d)
      ensures forall s | s in Unserved(g.log) :: exists j :: 0 <= j < |d| && d[j] == s && !was[j]
    {
      hide Distinct, DistinctIds, Legal, Claimant, Starts, Done, Unserved;
      forall s | s in Unserved(g.log) ensures exists j :: 0 <= j < |d| && d[j] == s && !was[j] {
        assert s in Members(d);
        var j :| 0 <= j < |d| && d[j] == s;
      }
    }

    lemma ClaimantAlone()
      requires Lists() && Consistent(g, processingSet, {}, g.queued)
      requires processingSet != null && processingSet in g.delegated
      ensures g.delegated == [processingSet]
    {
    }

    lemma BeginScan()
      requires Valid()
      ensures Distinct(g.delegated) && Reached(g.delegated, 0, [], [], delegatedList, null)
      ensures Extends(g.log, g.log)
    {
      assert [] + [] + g.delegated[0..] == g.delegated;
    }

    lemma Reach(d: seq<Session>, k: nat, again: seq<Session>, kept: seq<Session>, asp: Session?, prev: Session?)
      requires Lists() && Flags() && Consistent(g, processingSet, {}, g.queued)
      requires k <= |d| && asp == Nth(d, k) && g.delegated == again + kept + d[k..]
      requires Behind(prev, |again| + |kept|) && forall s | s in again + kept :: s in d
      ensures Reached(d, k, again, kept, asp, prev)
    {
    }

    lemma EndScan(d: seq<Session>, k: nat, again: seq<Session>, kept: seq<Session>, asp: Session?, prev: Session?)
      requires Reached(d, k, again, kept, asp, prev)
      ensures k <= |d| && asp == Nth(d, k) && g.delegated == again + kept + d[k..]
      ensures if asp != null then k < |d| && asp == d[k] else k == |d|
      ensures Lists() && Flags() && Consistent(g, processingSet, {}, g.queued)
      ensures Behind(prev, |again| + |kept|) && forall s | s in again + kept :: s in d
    {
    }

    /** A new request arrives. */
    method Arrive(asp: Session)
      requires Valid() && asp.next == null && asp !in g.arrived
      requires forall s | s in g.arrived :: s.transid != asp.transid
      modifies this, asp, g.queued
      ensures Valid() && g.arrived == old(g.arrived) + [asp]
      ensures Extends(old(g.log), g.log) && Unserved(g.log) == old(Unserved(g.log))
      ensures if old(processingSet == null && (asp.kind.Set? ==> g.delegated == []))
              then asp in Starts(g.log) && g.queued == old(g.queued)
              else g.queued == old(g.queued) + [asp] && Starts(g.log) == old(Starts(g.log))
    {
      hide Legal, Claimant, Starts, Done, IsList, Distinct, Unserved;
      ArriveStep(g, processingSet, asp);
      g := g.(arrived := g.arrived + [asp]);
      HandleRequest(asp, true);
    }

    /** The handlers working for a delegated request have all answered. */
    method Complete(asp: Session)
      requires Valid() && asp in g.delegated
      modifies asp`outstanding, this`g
      ensures Valid() && !asp.outstanding && g == old(g).(log := old(g.log) + [Answered(asp)])
    {
      hide Legal, Claimant, Starts, Done, Distinct, DistinctIds, Unserved, Resting;
      AnswerStep(g, processingSet, asp);
      Append(g.log, Answered(asp));
      asp.outstanding := false;
      g := g.(log := g.log + [Answered(asp)]);
    }

    /** Take the first request off the queue. */
    method Pop() returns (asp: Session)
      requires Lists() && Flags() && Consistent(g, processingSet, {}, g.queued) && queuedList != null
      modifies this`queuedList, this`g
      ensures asp == old(queuedList) && old(g.queued) == [asp] + g.queued
      ensures Lists() && Flags() && g == old(g).(queued := g.queued) && asp !in Unserved(g.log)
      ensures Consistent(g, processingSet, {asp}, [asp] + g.queued)
    {
      hide Legal, Claimant, Starts, Done, Consistent, Unserved;
      asp := queuedList;
      ghost var q := g.queued[1..];
      PopStep(g, processingSet);
      assert g.queued == [asp] + q;
      queuedList := asp.next;
      g := g.(queued := q);
    }

    /** The SET at the head of the queue claims execution and waits. */
    method ClaimHead()
      requires Lists() && Flags() && Consistent(g, processingSet, {}, g.queued)
      requires processingSet == null && queuedList != null && queuedList.kind.Set?
      modifies this`processingSet, this`g
      ensures processingSet == queuedList == Nth(g.queued, 0)
      ensures Lists() && Flags() && Consistent(g, processingSet, {}, g.queued)
      ensures g == old(g).(log := old(g.log) + [Claimed(queuedList)]) && Unserved(g.log) == old(Unserved(g.log))
    {
      hide Distinct, DistinctIds, Unserved;
      Append(g.log, Claimed(queuedList));
      processingSet := queuedList;
      g := g.(log := g.log + [Claimed(queuedList)]);
    }

    /** The periodic check: continue delegated requests, then start queued ones
        until the queue is empty or a SET holds everything up: with nothing
        delegated, nothing is left waiting. Every request whose answers were in
        is completed, or delegated again with its handlers at work; a GET is
        always completed. The others stay in order, behind those delegated now.
        The two assertions are the program's own. */
    method Poll()
      requires Valid()
      modifies this, g.delegated, g.queued
      ensures Valid() && g.arrived == old(g.arrived) && Extends(old(g.log), g.log)
      ensures g.delegated == [] ==> g.queued == [] && processingSet == null
      ensures Unserved(g.log) == {} && forall s | s in g.delegated :: s.outstanding
      ensures forall s | s in old(g.delegated) && !old(s.outstanding) ::
                s in Done(g.log) || (s in g.delegated && s.outstanding && !s.kind.Get?)
      ensures Ends(g.delegated, Pick(old(g.delegated), old(Busy(g.delegated)), true))
    {
      hide Legal, Claimant, Starts, Done, Distinct, DistinctIds, Pick, Busy, Consistent, Cut, Unserved, Ends, Extends;
      ghost var again, visited;
      ghost var d, was := g.delegated, Busy(g.delegated);
      Tracked();
      again, visited := CheckDelegated();
      ghost var still, mid := Pick(d, was, true), g.log;
      Continued(d, was, again);
      NothingBehind(again, still);
      Same(mid);
      assert delegatedList == Nth(g.delegated, 0) && queuedList == Nth(g.queued, 0);
      if processingSet != null && delegatedList != null {
        StillContinued(d, was, again, still, mid);
        return;
      }
      ghost var q := Members(g.queued);
      while queuedList != null
        invariant Lists() && Consistent(g, processingSet, {}, g.queued)
        invariant processingSet != null ==> g.queued != [] && g.queued[0] == processingSet && g.delegated == []
        invariant g.arrived == old(g.arrived) && Members(g.queued) <= q
        invariant Flags() && Unserved(g.log) == {} && Extends(mid, g.log) && Ends(g.delegated, again + still)
        modifies this, q
        decreases |g.queued|
      {
        assert processingSet == null || processingSet == queuedList;
        if queuedList.kind.Set? && delegatedList != null {
          assert processingSet == null;
          Same(g.log);
          ghost var log := g.log;
          ClaimHead();
          Longer(mid, log, g.log);
          break;
        }
        var asp := Pop();
        assert asp in q;
        ghost var now, log := g.delegated, g.log;
        HandleRequest(asp, false);
        OneInFront(now, g.delegated, asp, again + still);
        Longer(mid, log, g.log);
        if processingSet != null {
          break;
        }
      }
      Longer(old(g.log), mid, g.log);
      StillContinued(d, was, again, still, mid);
    }

    /** After the scan: whoever was ready is done or waits again. */
    lemma Continued(d: seq<Session>, was: seq<bool>, again: seq<Session>)
      requires Consistent(g, processingSet, {}, g.queued) && |d| == |was| && Distinct(d)
      requires Members(d) <= Members(g.arrived) && Members(d) !! Members(g.queued)
      requires g.delegated == again + Pick(d, was, true) && forall s | s in again :: !s.kind.Get?
      ensures forall j | 0 <= j < |d| && !was[j] :: d[j] in Done(g.log) || (d[j] in again && !d[j].kind.Get?)
    {
      hide DistinctIds, Legal, Claimant, Starts, Done, Pick;
      forall j | 0 <= j < |d| && !was[j] ensures d[j] in Done(g.log) || d[j] in again {
        assert d[j] in Members(d) && d[j] in Members(g.arrived);
        if d[j] in Pick(d, was, true) {
          PickedFrom(d, was, true, d[j]);
          assert false;
        }
      }
    }

    lemma StillContinued(d: seq<Session>, was: seq<bool>, again: seq<Session>, still: seq<Session>, mid: seq<Event>)
      requires |d| == |was| && Extends(mid, g.log) && Ends(g.delegated, again + still)
      requires forall j | 0 <= j < |d| && !was[j] :: d[j] in Done(mid) || (d[j] in again && !d[j].kind.Get?)
      requires Flags() && Unserved(g.log) == {}
      ensures forall s | s in g.delegated :: s.outstanding
      ensures forall j | 0 <= j < |d| && !was[j] :: d[j] in Done(g.log) || (d[j] in g.delegated && d[j].outstanding && !d[j].kind.Get?)
      ensures Ends(g.delegated, still)
    {
      hide Done, Unserved;
      Monotone(mid, g.log);
      forall s | s in again ensures s in g.delegated {
        assert s in again + still;
      }
    }

    constructor ()
      ensures Valid() && g == Model([], [], [], [])
    {
      delegatedList, queuedList, processingSet := null, null, null;
      g := Model([], [], [], []);
      new;
      assert Legal(g.log) && Claimant(g.log) == null && Starts(g.log) == [] && Done(g.log) == {};
    }

    lemma Tracked()
      requires Valid()
      ensures Members(g.delegated) <= Members(g.arrived) && Members(g.queued) <= Members(g.arrived)
      ensures forall s | s in g.delegated || s in g.queued :: s in Members(g.arrived)
    {
    }

    lemma EverybodyServed()
      requires Valid() && Unserved(g.log) == {}
      ensures forall i | 0 <= i < |g.log| && g.log[i].Answered? ::
                Served(g.log, i, g.log[i].s) && (g.log[i].s.kind.Get? ==> g.log[i].s in Done(g.log))
    {
      hide Served, Unserved, Done;
      forall i | 0 <= i < |g.log| && g.log[i].Answered?
        ensures Served(g.log, i, g.log[i].s) && (g.log[i].s.kind.Get? ==> g.log[i].s in Done(g.log))
      {
        AllServed(g.log, i, g.log[i].s);
      }
    }

    /** A whole run, with arrivals, answers and polls in any order. After a poll
        every answer that ever came in has been acted upon, and every GET that
        was answered is completed. */
    method Run(ops: seq<Op>, ghost coming: seq<Session>)
      requires Valid() && coming == Arrivals(ops)
      requires Distinct(g.arrived + coming) && DistinctIds(g.arrived + coming)
      requires forall s | s in coming :: s.next == null
      modifies this, Members(g.arrived + coming)
      ensures Valid() && g.arrived == old(g.arrived) + coming && Extends(old(g.log), g.log)
      ensures ops == [] ==> unchanged(this) && forall s | s in g.delegated :: s.outstanding == old(s.outstanding)
      ensures ops != [] && ops[|ops| - 1].Polls? ==>
                && (forall s | s in g.delegated :: s.outstanding)
                && forall i | 0 <= i < |g.log| && g.log[i].Answered? ::
                     Served(g.log, i, g.log[i].s) && (g.log[i].s.kind.Get? ==> g.log[i].s in Done(g.log))
      ensures ops != [] && ops[|ops| - 1].Answers? ==> var s := ops[|ops| - 1].s; s in g.delegated ==> !s.outstanding && s in Unserved(g.log)
      decreases |ops|
    {
      hide DistinctIds, Consistent, IsList, Legal, Claimant, Starts, Done, Unserved, Served, Pick, Busy, Ends;
      ghost var a := g.arrived;
      if ops == [] {
        assert a + coming == a;
        return;
      }
      ghost var rest, log := if ops[0].Arrives? then coming[1..] else coming, g.log;
      Tracked();
      Later(a, coming);
      forall x {:trigger x in rest} | x in rest ensures x.next == null && x !in g.queued && x !in g.delegated {
        assert x in coming;
      }
      match ops[0] {
        case Arrives(s) =>
          Newcomer(a, s, rest);
          Arrive(s);
        case Answers(s) =>
          var has := ChainHas(s);
          if has {
            Append(g.log, Answered(s));
            Complete(s);
          }
        case Polls =>
          Poll();
          EverybodyServed();
      }
      assert g.arrived + rest == a + coming;
      ghost var mid := g.log;
      Run(ops[1..], rest);
      Longer(log, mid, g.log);
    }
  }

  /** What the outside world does to the scheduler. */
  datatype Op = Arrives(s: Session) | Answers(s: Session) | Polls

  /** The requests that arrive during a run, in order. */
  ghost function Arrivals(ops: seq<Op>): seq<Session> {
    if ops == [] then []
    else if ops[0].Arrives? then [ops[0].s] + Arrivals(ops[1..])
    else Arrivals(ops[1..])
  }

  lemma Later(a: seq<Session>, n: seq<Session>)
    requires Distinct(a + n)
    ensures Members(a + n) == Members(a) + Members(n)
    ensures forall s | s in n :: s !in a && s !in Members(a)
  {
    assert forall k | 0 <= k < |n| :: (a + n)[|a| + k] == n[k];
    assert forall k | 0 <= k < |a| :: (a + n)[k] == a[k];
    forall s | s in n ensures s !in a {
      var k :| 0 <= k < |n| && n[k] == s;
      assert (a + n)[|a| + k] == s;
    }
  }

  lemma Newcomer(a: seq<Session>, s: Session, rest: seq<Session>)
    requires Distinct(a + ([s] + rest)) && DistinctIds(a + ([s] + rest))
    ensures s !in a && s !in rest && forall x | x in a :: x.transid != s.transid
  {
    var all := a + ([s] + rest);
    assert all[|a|] == s && forall k | 0 <= k < |rest| :: all[|a| + 1 + k] == rest[k];
    assert forall k | 0 <= k < |a| :: all[k] == a[k];
  }

  /** The scan of d has come to place k. Visited are the sessions that were
      ready, kept the others, and again those delegated again, none of them a
      GET; the answers of all visited have been acted upon. */
  ghost predicate Scanned(d: seq<Session>, was: seq<bool>, k: nat, again: seq<Session>, kept: seq<Session>, visited: seq<Session>,
                          u0: set<Session>, u: set<Session>, claim0: Session?, claim: Session?)
  {
    && k <= |d| == |was|
    && kept == Pick(d[..k], was[..k], true) && visited == Pick(d[..k], was[..k], false)
    && (forall s | s in again :: s in visited && !s.kind.Get?) && u == u0 - Members(visited)
    && (claim == null || (claim == claim0 && (claim in visited ==> claim in again)))
  }

  lemma ScanFrom(d: seq<Session>, was: seq<bool>, u: set<Session>, claim: Session?)
    requires |d| == |was|
    ensures Scanned(d, was, 0, [], [], [], u, u, claim, claim)
  {
  }

  /** One session more: it was ready or not, and is outstanding now or not. */
  lemma ScanOn(d: seq<Session>, was: seq<bool>, k: nat, again: seq<Session>, kept: seq<Session>, visited: seq<Session>,
               u0: set<Session>, u: set<Session>, claim0: Session?, claim: Session?, busy: bool,
               again': seq<Session>, kept': seq<Session>, visited': seq<Session>, u': set<Session>, claim': Session?)
    requires Scanned(d, was, k, again, kept, visited, u0, u, claim0, claim) && k < |d|
    requires visited' == if was[k] then visited else visited + [d[k]]
    requires if was[k] then kept' == kept + [d[k]] && again' == again && busy
             else kept' == kept && again' == (if busy then [d[k]] else []) + again && (busy ==> !d[k].kind.Get?)
    requires u' == if was[k] then u else u - {d[k]}
    requires claim' == if d[k] == claim && !busy then null else claim
    ensures Scanned(d, was, k + 1, again', kept', visited', u0, u', claim0, claim')
  {
    hide Pick;
    PickStep(d, was, k, true);
    PickStep(d, was, k, false);
  }

  /** At the end every session that was ready has been visited. */
  lemma ScanDone(d: seq<Session>, was: seq<bool>, again: seq<Session>, kept: seq<Session>, visited: seq<Session>,
                 u0: set<Session>, u: set<Session>, claim0: Session?, claim: Session?)
    requires Scanned(d, was, |d|, again, kept, visited, u0, u, claim0, claim)
    requires forall s | s in u0 :: exists j :: 0 <= j < |d| && d[j] == s && !was[j]
    ensures kept == Pick(d, was, true) && visited == Pick(d, was, false) && u == {}
    ensures forall s | s in again :: s in visited && !s.kind.Get?
    ensures claim == null || claim == claim0
    ensures claim != null && claim in d ==> claim in again + kept
  {
    hide Pick;
    assert d[..|d|] == d && was[..|d|] == was;
    forall s | s in u0 ensures s in visited {
      var j :| 0 <= j < |d| && d[j] == s && !was[j];
      Picked(d, was, j);
    }
    if claim != null && claim in d {
      var j :| 0 <= j < |d| && d[j] == claim;
      Picked(d, was, j);
    }
  }

  lemma {:induction false} Picked(d: seq<Session>, f: seq<bool>, j: nat)
    requires j < |d| == |f|
    ensures d[j] in Pick(d, f, f[j])
  {
    if j < |d| - 1 { Picked(d[..|d| - 1], f[..|d| - 1], j); }
  }

  lemma {:induction false} PickedFrom(d: seq<Session>, f: seq<bool>, b: bool, s: Session)
    requires |d| == |f| && s in Pick(d, f, b)
    ensures exists j :: 0 <= j < |d| && d[j] == s && f[j] == b
  {
    var n := |d| - 1;
    if s in Pick(d[..n], f[..n], b) {
      PickedFrom(d[..n], f[..n], b, s);
      var j :| 0 <= j < n && d[..n][j] == s && f[..n][j] == b;
      assert d[j] == s && f[j] == b;
    }
  }

  /** The list ends with p. */
  ghost predicate Ends(d: seq<Session>, p: seq<Session>) {
    |p| <= |d| && d[|d| - |p|..] == p
  }

  lemma NothingBehind(again: seq<Session>, still: seq<Session>)
    ensures Ends(again + still, again + still)
  {
  }

  lemma OneInFront(was: seq<Session>, now: seq<Session>, asp: Session, p: seq<Session>)
    requires Ends(was, p) && (now == was || now == [asp] + was)
    ensures Ends(now, p)
  {
  }

  lemma PopStep(m: Model, claim: Session?)
    requires Consistent(m, claim, {}, m.queued) && m.queued != [] && Distinct(m.queued)
    ensures Consistent(m.(queued := m.queued[1..]), claim, {m.queued[0]}, [m.queued[0]] + m.queued[1..])
    ensures m.queued[0] !in Unserved(m.log)
  {
    hide Legal, Claimant, Starts, Done, DistinctIds;
    var q := m.queued[1..];
    assert m.queued == [m.queued[0]] + q;
    assert Members(m.queued) == Members(q) + {m.queued[0]};
    assert forall k | 0 <= k < |q| :: q[k] == m.queued[k + 1];
    assert m.queued[0] !in Members(q) && m.queued[0] !in Members(m.delegated);
  }

  lemma ArriveStep(m: Model, claim: Session?, asp: Session)
    requires Resting(m, claim) && asp !in m.arrived && forall s | s in m.arrived :: s.transid != asp.transid
    ensures Consistent(m.(arrived := m.arrived + [asp]), claim, {asp}, m.queued + [asp])
    ensures asp != claim && asp !in m.delegated && asp !in m.queued && asp !in Unserved(m.log)
  {
    hide Legal, Claimant;
    var a := m.arrived + [asp];
    assert Members(a) == Members(m.arrived) + {asp};
    assert asp !in Members(m.arrived);
    assert Distinct(a) && a == Starts(m.log) + (m.queued + [asp]);
    assert asp !in Members(m.delegated) && asp !in Members(m.queued);
  }
}