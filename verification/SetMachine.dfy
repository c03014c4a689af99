/** The phases of a SET request, with handlers that may answer at once or
    later, and the gathering of their errors. */
module SetMachine {

  const NO_ERROR := 0
  const COMMIT_FAILED := 14
  const UNDO_FAILED := 15

  datatype Mode = Begin | Reserve1 | Reserve2 | Action | Commit | Undo | Free | Success | Failure {
    predicate Finished() { Success? || Failure? }
  }

  // ----- what a run looks like -----

  /** One pass over the handlers.
      failing: some request carried an error status when the pass was over.
      committed: some request carried commitFailed then.
      code: some handler signalled an error by its return value.
      suspended: the pass had to wait for delegated requests.
      dropped: it was the first to wait, which clears the session's status.
      status: the session's status when the pass was over. */
  datatype Pass = Pass(phase: Mode, failing: bool, commitFailed: bool, code: bool, suspended: bool, dropped: bool, status: int)

  /** Does a pass leave the session with an error status? */
  predicate Bad(p: Pass) {
    match p.phase
    case Undo => !p.dropped || p.failing
    case Free => !p.dropped || p.failing
    case Commit => p.commitFailed || (p.suspended && p.failing) || (p.code && !p.dropped)
    case _ => p.failing || (p.code && !p.dropped)
  }

  /** The phase that follows a pass. */
  function Next(phase: Mode, bad: bool): Mode {
    match phase
    case Begin => Reserve1
    case Reserve1 => if bad then Free else Reserve2
    case Reserve2 => if bad then Free else Action
    case Action => if bad then Undo else Commit
    case Commit => if bad then Failure else Success
    case _ => Failure
  }

  predicate Suspended(log: seq<Pass>) { exists k :: 0 <= k < |log| && log[k].suspended }

  /** The passes follow each other as they should, and only the first
      suspended one is dropped. */
  ghost predicate Follows(log: seq<Pass>) {
    log == [] ||
    (var n := |log| - 1;
     && Follows(log[..n])
     && log[n].phase == Upcoming(log[..n])
     && !log[n].phase.Finished() && !log[n].phase.Begin?
     && (log[n].dropped <==> log[n].suspended && !Suspended(log[..n])))
  }

  /** The mode the session moves to after these passes. */
  function Upcoming(log: seq<Pass>): Mode {
    if log == [] then Reserve1 else Next(log[|log| - 1].phase, Bad(log[|log| - 1]))
  }

  ghost predicate Complete(log: seq<Pass>) {
    Follows(log) && Upcoming(log).Finished()
  }

  function Phases(log: seq<Pass>): (r: seq<Mode>)
    ensures |r| == |log| && forall k | 0 <= k < |r| :: r[k] == log[k].phase
  {
    seq(|log|, k requires 0 <= k < |log| => log[k].phase)
  }

  lemma {:induction false} FollowsUpTo(log: seq<Pass>, n: nat)
    requires Follows(log) && n <= |log|
    ensures Follows(log[..n])
    decreases |log|
  {
    if n < |log| {
      FollowsUpTo(log[..|log| - 1], n);
      assert log[..|log| - 1][..n] == log[..n];
    } else {
      assert log[..n] == log;
    }
  }

  lemma FollowsAt(log: seq<Pass>, k: nat)
    requires Follows(log) && k < |log|
    ensures log[k].phase == if k == 0 then Reserve1 else Next(log[k - 1].phase, Bad(log[k - 1]))
    ensures !log[k].phase.Finished() && !log[k].phase.Begin?
    ensures log[k].dropped <==> log[k].suspended && forall j | 0 <= j < k :: !log[j].suspended
  {
    FollowsUpTo(log, k + 1);
    var b := log[..k + 1];
    assert b[..k] == log[..k] && b[k] == log[k];
  }

  /** Every finished SET ran one of four sequences of phases. */
  lemma FourRuns(log: seq<Pass>)
    requires Complete(log)
    ensures || Phases(log) == [Reserve1, Free]
            || Phases(log) == [Reserve1, Reserve2, Free]
            || Phases(log) == [Reserve1, Reserve2, Action, Undo]
            || Phases(log) == [Reserve1, Reserve2, Action, Commit]
  {
    hide Follows, Suspended;
    assert log != [];
    FollowsAt(log, 0);
    if |log| > 1 {
      FollowsAt(log, 1);
      if |log| > 2 {
        FollowsAt(log, 2);
        if |log| > 3 {
          FollowsAt(log, 3);
          if |log| > 4 {
            FollowsAt(log, 4);
          }
        }
      }
    }
  }

  /** A SET succeeds if it came to COMMIT and that left no error. */
  lemma Verdict(log: seq<Pass>)
    requires Complete(log)
    ensures log != [] && (Upcoming(log) == Success <==> log[|log| - 1].phase == Commit && !Bad(log[|log| - 1]))
  {
    hide Bad;
  }

  /** COMMIT is entered only if no request carried an error status, and no
      remembered return value signalled one, after any earlier pass; and that
      is also enough. */
  lemma CommitOnlyIfClean(log: seq<Pass>)
    requires Complete(log)
    ensures (exists k :: 0 <= k < |log| && log[k].phase == Commit) <==>
            forall k | 0 <= k < |log| :: log[k].phase in {Reserve1, Reserve2, Action} ==> !Bad(log[k])
  {
    FourRuns(log);
    var p := Phases(log);
    forall k | 0 <= k < |log| - 1 ensures log[k + 1].phase == Next(log[k].phase, Bad(log[k])) {
      FollowsAt(log, k + 1);
    }
    assert log[0].phase == p[0] && log[1].phase == p[1];
    if |log| > 2 {
      assert log[2].phase == p[2];
    }
    if |log| > 3 {
      assert log[3].phase == p[3];
    }
  }

  /** COMMIT can overlook an error signalled by a return value, but only in the
      first suspended pass, and only if no request carried an error. */
  lemma OverlookedCode(log: seq<Pass>, c: nat, k: nat)
    requires Complete(log) && k < c < |log| && log[c].phase == Commit && log[k].code
    ensures log[k].suspended && !log[k].failing
    ensures forall j | 0 <= j < |log| && j != k :: log[j].suspended ==> k < j && !log[j].dropped
  {
    hide Follows, Suspended;
    FourRuns(log);
    CommitOnlyIfClean(log);
    var p := Phases(log);
    assert log[k].phase == p[k] && log[c].phase == p[c];
    FollowsAt(log, k);
    forall j | 0 <= j < |log| && j != k && log[j].suspended ensures k < j && !log[j].dropped {
      FollowsAt(log, j);
    }
  }

  lemma UpcomingPhase(log: seq<Pass>)
    requires Follows(log)
    ensures !Upcoming(log).Begin?
  {
  }

  lemma FollowsOn(log: seq<Pass>, p: Pass)
    requires Follows(log) && p.phase == Upcoming(log) && !p.phase.Finished()
    requires !p.phase.Begin? && (p.dropped <==> p.suspended && !Suspended(log))
    ensures Follows(log + [p]) && (log != [] ==> log[|log| - 1].phase != Begin)
  {
    assert (log + [p])[..|log|] == log;
  }

  // ----- what the handlers do -----

  /** What becomes of one request in one phase: it is answered at once or later,
      and marked with an error or not. */
  datatype Reply = Now(error: int) | Later(error: int)

  /** All that the handlers do in the phases of a SET: what becomes of each
      request, and the value they return for each chain. */
  datatype Script = Script(reply: (Mode, nat) -> Reply, code: (Mode, nat) -> int)

  /** Some request is marked with an error in the phase. */
  predicate Marks(h: Script, n: nat, p: Mode) { exists r :: 1 <= r <= n && h.reply(p, r).error != NO_ERROR }

  /** Some request has to wait for its answer. */
  predicate Waits(h: Script, n: nat, p: Mode) { exists r :: 1 <= r <= n && h.reply(p, r).Later? }

  /** The handlers of some chain return an error. */
  predicate Signals(h: Script, c: nat, p: Mode) { exists i :: 0 <= i < c && h.code(p, i) != NO_ERROR }

  /** One request's status after a phase: no error is taken back. */
  function Marked(h: Script, p: Mode, r: nat, status: int): int {
    if h.reply(p, r).error != NO_ERROR then h.reply(p, r).error else status
  }

  /** A request was replied to: one that has to wait keeps its status for now. */
  predicate Replied(h: Script, p: Mode, r: nat, before: int, after: int, busy: bool) {
    busy == h.reply(p, r).Later? && after == if busy then before else Marked(h, p, r, before)
  }

  function Errors(h: Script, st: seq<int>, p: Mode): (e: seq<int>)
    ensures |e| == |st| && forall k | 0 <= k < |e| :: e[k] == Marked(h, p, k + 1, st[k])
  {
    seq(|st|, k requires 0 <= k < |st| => Marked(h, p, k + 1, st[k]))
  }

  /** The statuses of n requests after these passes. */
  function StatusAfter(h: Script, n: nat, log: seq<Pass>): (e: seq<int>)
    ensures |e| == n
  {
    if log == [] then seq(n, k => NO_ERROR)
    else Errors(h, StatusAfter(h, n, log[..|log| - 1]), log[|log| - 1].phase)
  }

  /** The passes are as the script has it, for c chains and n requests. */
  ghost predicate Played(h: Script, c: nat, n: nat, log: seq<Pass>) {
    log == [] ||
    (var m := |log| - 1;
     && Played(h, c, n, log[..m])
     && (log[m].code <==> Signals(h, c, log[m].phase))
     && (log[m].suspended <==> Waits(h, n, log[m].phase))
     && log[m].failing == Failing(StatusAfter(h, n, log))
     && log[m].commitFailed == Carries(StatusAfter(h, n, log), COMMIT_FAILED))
  }

  lemma {:induction false} PlayedUpTo(h: Script, c: nat, n: nat, log: seq<Pass>, m: nat)
    requires Played(h, c, n, log) && m <= |log|
    ensures Played(h, c, n, log[..m])
    decreases |log|
  {
    if m < |log| {
      PlayedUpTo(h, c, n, log[..|log| - 1], m);
      assert log[..|log| - 1][..m] == log[..m];
    } else {
      assert log[..m] == log;
    }
  }

  lemma {:induction false} FailingMarks(h: Script, n: nat, log: seq<Pass>)
    ensures Failing(StatusAfter(h, n, log)) <==> exists j :: 0 <= j < |log| && Marks(h, n, log[j].phase)
  {
    if log != [] {
      var m := |log| - 1;
      var before, after := StatusAfter(h, n, log[..m]), StatusAfter(h, n, log);
      FailingMarks(h, n, log[..m]);
      assert forall k | 0 <= k < n :: after[k] != NO_ERROR <==> before[k] != NO_ERROR || h.reply(log[m].phase, k + 1).error != NO_ERROR;
      if Marks(h, n, log[m].phase) {
        var r :| 1 <= r <= n && h.reply(log[m].phase, r).error != NO_ERROR;
        assert after[r - 1] != NO_ERROR;
      }
      if Failing(before) {
        var k :| 0 <= k < n && before[k] != NO_ERROR;
        assert after[k] != NO_ERROR;
      }
      if Failing(after) {
        var k :| 0 <= k < n && after[k] != NO_ERROR;
        assert before[k] != NO_ERROR || h.reply(log[m].phase, k + 1).error != NO_ERROR;
      }
    }
  }

  /** A request ends up with the error it was marked with last. */
  lemma {:induction false} LastMark(h: Script, n: nat, log: seq<Pass>, r: nat)
    requires 1 <= r <= n
    ensures var e := StatusAfter(h, n, log)[r - 1];
            if e == NO_ERROR then forall k | 0 <= k < |log| :: h.reply(log[k].phase, r).error == NO_ERROR
            else exists k :: 0 <= k < |log| && h.reply(log[k].phase, r).error == e
                             && forall j | k < j < |log| :: h.reply(log[j].phase, r).error == NO_ERROR
  {
    if log != [] {
      LastMark(h, n, log[..|log| - 1], r);
    }
  }

  /** One pass of a run that keeps to the script. */
  lemma PlayedAt(h: Script, c: nat, n: nat, log: seq<Pass>, k: nat)
    requires Played(h, c, n, log) && k < |log|
    ensures log[k].code <==> Signals(h, c, log[k].phase)
    ensures log[k].suspended <==> Waits(h, n, log[k].phase)
    ensures log[k].failing <==> exists j :: 0 <= j <= k && Marks(h, n, log[j].phase)
  {
    PlayedUpTo(h, c, n, log, k + 1);
    var b := log[..k + 1];
    assert b[k] == log[k];
    FailingMarks(h, n, b);
  }

  // ----- what a script leads to -----

  /** The first three phases, one of which another comes before. */
  predicate Earlier(q: Mode, p: Mode) {
    (q.Reserve1? && (p.Reserve2? || p.Action?)) || (q.Reserve2? && p.Action?)
  }

  /** The phase is the first to wait; what its handlers return is forgotten. */
  ghost predicate FirstToWait(h: Script, n: nat, p: Mode) {
    Waits(h, n, p) && forall q | Earlier(q, p) :: !Waits(h, n, q)
  }

  /** Nothing goes wrong in a phase as far as the session remembers. */
  ghost predicate Smooth(h: Script, c: nat, n: nat, p: Mode) {
    !Marks(h, n, p) && (Signals(h, c, p) ==> FirstToWait(h, n, p))
  }

  /** COMMIT runs exactly when each of the first three phases marks no request
      and returns no error, unless it is the first one to wait. */
  lemma CommitExactly(h: Script, c: nat, n: nat, log: seq<Pass>)
    requires Complete(log) && Played(h, c, n, log)
    ensures (exists k :: 0 <= k < |log| && log[k].phase == Commit) <==>
            Smooth(h, c, n, Reserve1) && Smooth(h, c, n, Reserve2) && Smooth(h, c, n, Action)
  {
    hide Follows, Suspended, Played, Marks, Waits, Signals;
    Course(h, c, n, log);
    CommitOnlyIfClean(log);
    var r1, r2, a := Smooth(h, c, n, Reserve1), Smooth(h, c, n, Reserve2), Smooth(h, c, n, Action);
    assert Earlier(Reserve1, Reserve2) && Earlier(Reserve1, Action) && Earlier(Reserve2, Action);
    assert Bad(log[0]) <==> !r1;
    if r1 {
      assert log[1].phase == Reserve2 && (Bad(log[1]) <==> !r2);
      if r2 {
        assert log[2].phase == Action && (Bad(log[2]) <==> !a);
        assert log[3].phase == if a then Commit else Undo;
      }
    }
  }

  /** The passes of a complete run, one after the other. */
  lemma Course(h: Script, c: nat, n: nat, log: seq<Pass>)
    requires Complete(log) && Played(h, c, n, log)
    ensures 2 <= |log| <= 4 && log[0].phase == Reserve1
    ensures forall k | 0 < k < |log| :: log[k].phase == Next(log[k - 1].phase, Bad(log[k - 1]))
    ensures forall k | 0 <= k < |log| ::
              && (log[k].code <==> Signals(h, c, log[k].phase))
              && (log[k].suspended <==> Waits(h, n, log[k].phase))
              && (log[k].dropped <==> log[k].suspended && forall j | 0 <= j < k :: !log[j].suspended)
    ensures forall k | 0 <= k < |log| :: log[k].failing <==> exists j :: 0 <= j <= k && Marks(h, n, log[j].phase)
    ensures log[|log| - 1].phase in {Free, Undo, Commit}
    ensures forall k | 0 <= k < |log| - 1 :: log[k].phase in {Reserve1, Reserve2, Action}
  {
    hide Follows, Suspended, Played, Marks, Waits, Signals;
    FourRuns(log);
    var p := Phases(log);
    assert log[0].phase == p[0] && log[|log| - 1].phase == p[|log| - 1];
    assert forall k | 0 <= k < |log| - 1 :: log[k].phase == p[k];
    forall k | 0 <= k < |log|
      ensures k > 0 ==> log[k].phase == Next(log[k - 1].phase, Bad(log[k - 1]))
      ensures log[k].dropped <==> log[k].suspended && forall j | 0 <= j < k :: !log[j].suspended
      ensures log[k].code <==> Signals(h, c, log[k].phase)
      ensures log[k].suspended <==> Waits(h, n, log[k].phase)
      ensures log[k].failing <==> exists j :: 0 <= j <= k && Marks(h, n, log[j].phase)
    {
      FollowsAt(log, k);
      PlayedAt(h, c, n, log, k);
    }
  }

  /** Nothing happens in a phase: no error, no waiting. */
  ghost predicate Quiet(h: Script, c: nat, n: nat, p: Mode) {
    !Signals(h, c, p) && !Marks(h, n, p) && !Waits(h, n, p)
  }

  /** The only error is a value returned in phase p, and the clean-up after it is
      the first to wait. */
  ghost predicate OnlyReturned(h: Script, c: nat, n: nat, p: Mode, cleanup: Mode) {
    && Signals(h, c, p) && !Marks(h, n, p) && !Waits(h, n, p)
    && Waits(h, n, cleanup) && !Marks(h, n, cleanup)
  }

  /** A failed SET is answered with noError exactly when the handlers only return
      an error, mark no request, and the clean-up is the first to wait. */
  lemma SilentFailure(h: Script, c: nat, n: nat, log: seq<Pass>)
    requires Complete(log) && Played(h, c, n, log)
    ensures Upcoming(log) == Failure && !Bad(log[|log| - 1]) <==>
            || OnlyReturned(h, c, n, Reserve1, Free)
            || (Quiet(h, c, n, Reserve1) && OnlyReturned(h, c, n, Reserve2, Free))
            || (Quiet(h, c, n, Reserve1) && Quiet(h, c, n, Reserve2) && OnlyReturned(h, c, n, Action, Undo))
  {
    hide Follows, Suspended, Played, Marks, Waits, Signals;
    Course(h, c, n, log);
    assert log[1].phase == if Bad(log[0]) then Free else Reserve2;
    assert |log| > 2 ==> !Bad(log[0]) && log[2].phase == if Bad(log[1]) then Free else Action;
    assert |log| > 3 ==> !Bad(log[1]) && log[3].phase == if Bad(log[2]) then Undo else Commit;
    assert |log| == 2 || |log| == 3 || |log| == 4;
  }

  /** Wherever handlers return an error they also mark a request. */
  ghost predicate AlwaysMarked(h: Script, chains: seq<seq<nat>>, n: nat) {
    forall p, i | 0 <= i < |chains| && h.code(p, i) != NO_ERROR ::
      exists r :: r in chains[i] && 1 <= r <= n && h.reply(p, r).error != NO_ERROR
  }

  /** Then no error is lost: COMMIT runs exactly when none was signalled in any
      way, and a failed SET is answered with an error. */
  lemma NothingLost(h: Script, chains: seq<seq<nat>>, n: nat, log: seq<Pass>)
    requires Complete(log) && Played(h, |chains|, n, log) && AlwaysMarked(h, chains, n)
    ensures (exists k :: 0 <= k < |log| && log[k].phase == Commit) <==>
            forall p | p in {Reserve1, Reserve2, Action} :: !Signals(h, |chains|, p) && !Marks(h, n, p)
    ensures Upcoming(log) == Failure ==> Bad(log[|log| - 1])
  {
    assert forall p :: Signals(h, |chains|, p) ==> Marks(h, n, p);
    hide Follows, Suspended, Played, Marks, Waits, Signals, AlwaysMarked;
    CommitExactly(h, |chains|, n, log);
    SilentFailure(h, |chains|, n, log);
  }

  // ----- the session -----

  predicate Failing(st: seq<int>) { exists k :: 0 <= k < |st| && st[k] != NO_ERROR }

  /** Request numbers count from 1. */
  predicate Fails(st: seq<int>, r: nat) { 1 <= r <= |st| && st[r - 1] != NO_ERROR }

  /** The requests of the first i chains. */
  ghost function Upto(chains: seq<seq<nat>>, i: nat): set<nat>
    requires i <= |chains|
  {
    if i == 0 then {} else Upto(chains, i - 1) + Elems(chains[i - 1])
  }

  ghost function Elems(chain: seq<nat>): set<nat> { set r | r in chain }

  /** Each of n requests is on exactly one chain. */
  ghost predicate Partition(chains: seq<seq<nat>>, n: nat) {
    && (forall r :: r in Upto(chains, |chains|) <==> 1 <= r <= n)
    && forall i | 0 <= i < |chains| :: Upto(chains, i) !! Elems(chains[i])
  }

  lemma {:induction false} UptoGrows(chains: seq<seq<nat>>, i: nat, j: nat)
    requires i <= j <= |chains|
    ensures Upto(chains, i) <= Upto(chains, j)
  {
    if i < j { UptoGrows(chains, i, j - 1); }
  }

  /** No request's error status is ever cleared. */
  ghost predicate Keeps(st: seq<int>, st': seq<int>) {
    |st| == |st'| && forall k | 0 <= k < |st| :: st[k] != NO_ERROR ==> st'[k] != NO_ERROR
  }

  /** Only the given requests changed. */
  ghost predicate Only(st: seq<int>, st': seq<int>, who: set<nat>) {
    |st| == |st'| && forall k | 0 <= k < |st| :: k + 1 !in who ==> st'[k] == st[k]
  }

  /** Gathering over the requests seen: the least failing one that is not above
      the index already held, if there is one. */
  ghost predicate Picked(st: seq<int>, seen: set<nat>, index0: nat, status0: int, index: nat, status: int) {
    if exists r :: r in seen && Fails(st, r) && (index0 == 0 || r <= index0)
    then index in seen && Fails(st, index) && status == st[index - 1]
         && (index0 == 0 || index <= index0) && forall r | r in seen && Fails(st, r) :: index <= r
    else index == index0 && status == status0
  }

  /** Gathering one specific error: any request that carries it will do. */
  ghost predicate Matched(st: seq<int>, seen: set<nat>, e: int, index0: nat, status0: int, index: nat, status: int) {
    if exists r :: r in seen && 1 <= r <= |st| && st[r - 1] == e
    then index in seen && 1 <= index <= |st| && st[index - 1] == e == status
    else index == index0 && status == status0
  }

  ghost predicate Gathered(st: seq<int>, seen: set<nat>, e: int, index0: nat, status0: int, index: nat, status: int) {
    if e == NO_ERROR then Picked(st, seen, index0, status0, index, status)
    else Matched(st, seen, e, index0, status0, index, status)
  }

  /** An index once reported belongs to a failing request. */
  predicate Justified(st: seq<int>, index: nat) { index == 0 || Fails(st, index) }

  /** The index is that of the least failing request, 0 if there is none. */
  ghost predicate LeastFailing(st: seq<int>, index: nat) {
    if Failing(st) then Fails(st, index) && forall r | Fails(st, r) :: index <= r else index == 0
  }

  /** Gathering over all requests finds the least failing one, even from an
      index left over from before. */
  lemma GatheredAll(st: seq<int>, chains: seq<seq<nat>>, index0: nat, status0: int, index: nat, status: int)
    requires Partition(chains, |st|) && Justified(st, index0)
    requires Picked(st, Upto(chains, |chains|), index0, status0, index, status)
    ensures LeastFailing(st, index) && Justified(st, index)
    ensures if Failing(st) then status == st[index - 1] else status == status0
  {
    var all := Upto(chains, |chains|);
    assert forall r: nat :: Fails(st, r) ==> r in all;
    if Failing(st) {
      var k :| 0 <= k < |st| && st[k] != NO_ERROR;
      assert Fails(st, k + 1);
    }
  }

  /** What was gathered from the requests seen so far stands when only other
      requests change. */
  lemma GatheredStands(st: seq<int>, st': seq<int>, seen: set<nat>, who: set<nat>, e: int,
                       index0: nat, status0: int, index: nat, status: int)
    requires Gathered(st, seen, e, index0, status0, index, status)
    requires Only(st, st', who) && who !! seen
    ensures Gathered(st', seen, e, index0, status0, index, status)
  {
    assert forall r | r in seen && 1 <= r <= |st| :: st'[r - 1] == st[r - 1];
  }

  lemma GatheredMore(st: seq<int>, seen: set<nat>, more: set<nat>, e: int,
                     index0: nat, status0: int, index1: nat, status1: int, index: nat, status: int)
    requires Gathered(st, seen, e, index0, status0, index1, status1)
    requires Gathered(st, more, e, index1, status1, index, status)
    ensures Gathered(st, seen + more, e, index0, status0, index, status)
  {
  }

  /** The index stands at place k of chain i, or behind it. */
  ghost predicate NotBefore(chains: seq<seq<nat>>, i: nat, k: nat, index: nat) {
    exists i', k' {:trigger chains[i'][k']} ::
      i <= i' < |chains| && 0 <= k' < |chains[i']| && (i' == i ==> k <= k') && chains[i'][k'] == index
  }

  /** For a specific error: no carrier of it comes behind the index. */
  ghost predicate LastCarrier(st: seq<int>, chains: seq<seq<nat>>, e: int, index: nat) {
    forall i: nat, k: nat {:trigger chains[i][k]} |
      i < |chains| && k < |chains[i]| && 1 <= chains[i][k] <= |st| && st[chains[i][k] - 1] == e :: NotBefore(chains, i, k, index)
  }

  lemma NoChains(st: seq<int>, e: int, index: nat)
    ensures LastCarrier(st, [], e, index)
  {
  }

  /** One more chain, with or without carriers. */
  lemma LastOn(st: seq<int>, chains: seq<seq<nat>>, i: nat, e: int, index0: nat, index: nat)
    requires i < |chains| && LastCarrier(st, chains[..i], e, index0)
    requires forall k | 0 <= k < |chains[i]| && 1 <= chains[i][k] <= |st| && st[chains[i][k] - 1] == e ::
               exists j :: k <= j < |chains[i]| && index == chains[i][j]
    requires (forall k | 0 <= k < |chains[i]| && 1 <= chains[i][k] <= |st| :: st[chains[i][k] - 1] != e) ==> index == index0
    ensures LastCarrier(st, chains[..i + 1], e, index)
  {
    var c := chains[..i + 1];
    forall a: nat, k: nat {:trigger c[a][k]} | a < |c| && k < |c[a]| && 1 <= c[a][k] <= |st| && st[c[a][k] - 1] == e
      ensures NotBefore(c, a, k, index)
    {
      if l :| 0 <= l < |chains[i]| && 1 <= chains[i][l] <= |st| && st[chains[i][l] - 1] == e {
        var from := if a == i then k else l;
        var j :| from <= j < |chains[i]| && index == chains[i][j];
        assert c[i][j] == index;
      } else {
        assert a < i && chains[..i][a] == c[a];
        assert chains[..i][a][k] == c[a][k];
        assert NotBefore(chains[..i], a, k, index);
        var i', k' :| a <= i' < i && 0 <= k' < |chains[..i][i']| && (i' == a ==> k <= k') && chains[..i][i'][k'] == index;
        assert c[i'][k'] == index;
      }
    }
  }

  // ----- which error is reported -----

  /** The session's status after the first i chains, of which none changes any
      more. */
  ghost predicate StatusBy(st: seq<int>, chains: seq<seq<nat>>, i: nat, e: int, index0: nat, status0: int, s: int)
    requires i <= |chains|
  {
    exists ix: nat :: Gathered(st, Upto(chains, i), e, index0, status0, ix, s)
  }

  /** Nothing came up in chain j. */
  ghost predicate SilentAt(h: Script, p: Mode, st: seq<int>, chains: seq<seq<nat>>, j: nat, e: int, index0: nat, status0: int)
    requires j < |chains|
  {
    h.code(p, j) == NO_ERROR && StatusBy(st, chains, j + 1, e, index0, status0, NO_ERROR)
  }

  ghost predicate QuietBy(h: Script, p: Mode, st: seq<int>, chains: seq<seq<nat>>, i: nat, e: int, index0: nat, status0: int)
    requires i <= |chains|
  {
    forall j: nat | j < i :: SilentAt(h, p, st, chains, j, e, index0, status0)
  }

  /** What came up in chain j: the session's status, or else the value returned. */
  ghost predicate SignAt(h: Script, p: Mode, st: seq<int>, chains: seq<seq<nat>>, j: nat, e: int, index0: nat, status0: int, v: int)
    requires j < |chains|
  {
    || StatusBy(st, chains, j + 1, e, index0, status0, v)
    || (StatusBy(st, chains, j + 1, e, index0, status0, NO_ERROR) && v == h.code(p, j))
  }

  /** What a pass over the first i chains comes to: what came up at the first
      chain where something did. */
  ghost predicate FinalBy(h: Script, p: Mode, st: seq<int>, chains: seq<seq<nat>>, i: nat, e: int, index0: nat, status0: int, final: int)
    requires i <= |chains|
  {
    if final == NO_ERROR then QuietBy(h, p, st, chains, i, e, index0, status0)
    else exists j: nat :: j < i && QuietBy(h, p, st, chains, j, e, index0, status0)
                          && SignAt(h, p, st, chains, j, e, index0, status0, final)
  }

  /** Other chains' requests have no part in it. */
  lemma StatusStands(st: seq<int>, st': seq<int>, chains: seq<seq<nat>>, i: nat, j: nat, e: int, index0: nat, status0: int, s: int)
    requires j <= i < |chains| && Upto(chains, i) !! Elems(chains[i]) && Only(st, st', Elems(chains[i]))
    requires StatusBy(st, chains, j, e, index0, status0, s)
    ensures StatusBy(st', chains, j, e, index0, status0, s)
  {
    hide Gathered;
    UptoGrows(chains, j, i);
    var ix: nat :| Gathered(st, Upto(chains, j), e, index0, status0, ix, s);
    GatheredStands(st, st', Upto(chains, j), Elems(chains[i]), e, index0, status0, ix, s);
  }

  lemma QuietStands(h: Script, p: Mode, st: seq<int>, st': seq<int>, chains: seq<seq<nat>>, i: nat, j: nat, e: int, index0: nat, status0: int)
    requires j <= i < |chains| && Upto(chains, i) !! Elems(chains[i]) && Only(st, st', Elems(chains[i]))
    requires QuietBy(h, p, st, chains, j, e, index0, status0)
    ensures QuietBy(h, p, st', chains, j, e, index0, status0)
  {
    hide StatusBy, Only;
    forall k: nat | k < j ensures SilentAt(h, p, st', chains, k, e, index0, status0) {
      assert SilentAt(h, p, st, chains, k, e, index0, status0);
      StatusStands(st, st', chains, i, k + 1, e, index0, status0, NO_ERROR);
    }
  }

  /** One more chain, with its returned value and the session's status after it. */
  lemma FinalOn(h: Script, p: Mode, st: seq<int>, st': seq<int>, chains: seq<seq<nat>>, i: nat, e: int,
                index0: nat, status0: int, final: int, s: int)
    requires i < |chains| && Upto(chains, i) !! Elems(chains[i]) && Only(st, st', Elems(chains[i]))
    requires FinalBy(h, p, st, chains, i, e, index0, status0, final)
    requires StatusBy(st', chains, i + 1, e, index0, status0, s)
    ensures var result := if s != NO_ERROR then s else h.code(p, i);
            FinalBy(h, p, st', chains, i + 1, e, index0, status0, if final == NO_ERROR then result else final)
  {
    hide StatusBy, Only, QuietBy;
    if final == NO_ERROR {
      QuietStands(h, p, st, st', chains, i, i, e, index0, status0);
      if s == NO_ERROR && h.code(p, i) == NO_ERROR {
        QuietOn(h, p, st', chains, i, e, index0, status0);
      } else {
        assert SignAt(h, p, st', chains, i, e, index0, status0, if s != NO_ERROR then s else h.code(p, i));
      }
    } else {
      var j: nat :| j < i && QuietBy(h, p, st, chains, j, e, index0, status0) && SignAt(h, p, st, chains, j, e, index0, status0, final);
      QuietStands(h, p, st, st', chains, i, j, e, index0, status0);
      if StatusBy(st, chains, j + 1, e, index0, status0, final) {
        StatusStands(st, st', chains, i, j + 1, e, index0, status0, final);
      } else {
        StatusStands(st, st', chains, i, j + 1, e, index0, status0, NO_ERROR);
      }
      assert SignAt(h, p, st', chains, j, e, index0, status0, final);
    }
  }

  lemma QuietOn(h: Script, p: Mode, st: seq<int>, chains: seq<seq<nat>>, i: nat, e: int, index0: nat, status0: int)
    requires i < |chains| && QuietBy(h, p, st, chains, i, e, index0, status0) && SilentAt(h, p, st, chains, i, e, index0, status0)
    ensures QuietBy(h, p, st, chains, i + 1, e, index0, status0)
  {
    hide SilentAt;
  }

  function SpecificTo(p: Mode): int {
    if p == Commit then COMMIT_FAILED else if p == Undo then UNDO_FAILED else NO_ERROR
  }

  /** A pass that did not wait: the errors gathered, what it came to, and the
      status it leaves. */
  ghost predicate WorkedOut(h: Script, chains: seq<seq<nat>>, st0: seq<int>, before: int, p: Pass, st: seq<int>,
                            index0: nat, index: nat, gathered: int, final: int)
  {
    && LeastFailing(st0, index0)
    && Gathered(st, Upto(chains, |chains|), SpecificTo(p.phase), index0, before, index, gathered)
    && FinalBy(h, p.phase, st, chains, |chains|, SpecificTo(p.phase), index0, before, final)
    && p.status == if (final != NO_ERROR && gathered == NO_ERROR) || final == COMMIT_FAILED || final == UNDO_FAILED then final else gathered
  }

  ghost predicate Worked(h: Script, chains: seq<seq<nat>>, st0: seq<int>, before: int, p: Pass, st: seq<int>) {
    exists index0: nat, index: nat, gathered, final :: WorkedOut(h, chains, st0, before, p, st, index0, index, gathered, final)
  }

  lemma WorkedAs(h: Script, chains: seq<seq<nat>>, st0: seq<int>, before: int, p: Pass, st: seq<int>,
                 index0: nat, index: nat, gathered: int, final: int)
    requires WorkedOut(h, chains, st0, before, p, st, index0, index, gathered, final)
    ensures Worked(h, chains, st0, before, p, st)
  {
  }

  /** The first value other than noError that a chain's handlers return in a
      phase, noError if there is none. */
  ghost predicate FirstCode(h: Script, c: nat, p: Mode, v: int) {
    if v == NO_ERROR then forall i: nat {:trigger h.code(p, i)} | i < c :: h.code(p, i) == NO_ERROR
    else exists i: nat :: i < c && FirstCodeAt(h, p, i, v)
  }

  ghost predicate FirstCodeAt(h: Script, p: Mode, i: nat, v: int) {
    h.code(p, i) == v && forall j: nat {:trigger h.code(p, j)} | j < i :: h.code(p, j) == NO_ERROR
  }

  /** The status when no request tells of an error: what the phase returned, or
      in a clean-up what was there before. */
  ghost predicate Unmarked(h: Script, c: nat, before: int, p: Mode, v: int) {
    if p == Free || p == Undo then v == before else FirstCode(h, c, p, v)
  }

  /** Handlers say commitFailed only in COMMIT and undoFailed only in UNDO. */
  ghost predicate Proper(h: Script, c: nat, n: nat) {
    (forall p, r: nat | 1 <= r <= n :: ProperReply(h, p, r)) && (forall p, i: nat | i < c :: ProperCode(h, p, i))
  }

  predicate ProperReply(h: Script, p: Mode, r: nat) { ProperIn(p, h.reply(p, r).error) }

  predicate ProperCode(h: Script, p: Mode, i: nat) { ProperIn(p, h.code(p, i)) }

  predicate ProperIn(p: Mode, v: int) { (v == COMMIT_FAILED ==> p == Commit) && (v == UNDO_FAILED ==> p == Undo) }

  /** The status that a pass leaves, given the status before it and the requests'
      statuses after it: in COMMIT commitFailed and in UNDO undoFailed, if a
      request carries it; else that of the least failing request, except that
      COMMIT and UNDO look for those errors only if they have to wait; else
      noError if the pass was the first to wait, and otherwise what was returned
      first or, in a clean-up, was there before. */
  ghost predicate Leaves(h: Script, c: nat, before: int, p: Pass, st: seq<int>) {
    if p.phase == Commit && Carries(st, COMMIT_FAILED) then p.status == COMMIT_FAILED
    else if p.phase == Undo && Carries(st, UNDO_FAILED) then p.status == UNDO_FAILED
    else if Failing(st) && (p.suspended || (p.phase != Commit && p.phase != Undo))
    then exists ix: nat :: LeastFailing(st, ix) && p.status == st[ix - 1]
    else if p.dropped then p.status == NO_ERROR
    else Unmarked(h, c, before, p.phase, p.status)
  }

  function StatusBefore(log: seq<Pass>, k: nat): int
    requires k <= |log|
  {
    if k == 0 then NO_ERROR else log[k - 1].status
  }

  /** Pass k's status is the right one: that of Leaves if the pass had to wait,
      the handlers are proper or no request fails; and what the pass worked out,
      if it did not wait. */
  ghost predicate ToldAt(h: Script, chains: seq<seq<nat>>, n: nat, log: seq<Pass>, k: nat)
    requires k < |log|
  {
    var st0, st, before := StatusAfter(h, n, log[..k]), StatusAfter(h, n, log[..k + 1]), StatusBefore(log, k);
    && (log[k].suspended || Proper(h, |chains|, n) || !Failing(st) ==> Leaves(h, |chains|, before, log[k], st))
    && (!log[k].suspended ==> Worked(h, chains, st0, before, log[k], st))
  }

  ghost predicate Told(h: Script, chains: seq<seq<nat>>, n: nat, log: seq<Pass>) {
    forall k: nat | k < |log| :: ToldAt(h, chains, n, log, k)
  }

  lemma ToldOn(h: Script, chains: seq<seq<nat>>, n: nat, log: seq<Pass>)
    requires log != [] && Told(h, chains, n, log[..|log| - 1]) && ToldAt(h, chains, n, log, |log| - 1)
    ensures Told(h, chains, n, log)
  {
    hide Leaves, Worked, Proper;
    var m := |log| - 1;
    forall k: nat | k < m ensures ToldAt(h, chains, n, log, k) {
      assert ToldAt(h, chains, n, log[..m], k);
      assert log[..m][..k] == log[..k] && log[..m][..k + 1] == log[..k + 1];
    }
  }

  /** While a session waits: its status, should no request turn out to fail. */
  ghost predicate Owed(h: Script, c: nat, log: seq<Pass>, st: seq<int>, status: int) {
    log != [] &&
    var m := |log| - 1;
    !Failing(st) ==>
      if log[m].dropped then status == NO_ERROR else Unmarked(h, c, StatusBefore(log, m), log[m].phase, status)
  }

  // ----- how that comes about -----

  /** Some request tells of an error, of error e if that is the only one sought. */
  predicate Tells(st: seq<int>, e: int) { if e == NO_ERROR then Failing(st) else Carries(st, e) }

  /** As long as no request tells of an error, the session's status stays. */
  lemma StatusStays(st: seq<int>, chains: seq<seq<nat>>, i: nat, e: int, index0: nat, status0: int, s: int)
    requires i <= |chains| && !Tells(st, e) && StatusBy(st, chains, i, e, index0, status0, s)
    ensures s == status0
  {
    assert forall r :: !Fails(st, r) || st[r - 1] != e;
    assert e == NO_ERROR ==> forall r :: !Fails(st, r);
  }

  /** Then a pass comes to the first value returned, if there was no error
      before, and leaves the status if there was. */
  lemma WorkedUnmarked(h: Script, chains: seq<seq<nat>>, st0: seq<int>, before: int, p: Pass, st: seq<int>)
    requires Worked(h, chains, st0, before, p, st) && !Tells(st, SpecificTo(p.phase))
    requires (p.phase == Free || p.phase == Undo) == (before != NO_ERROR)
    ensures Unmarked(h, |chains|, before, p.phase, p.status)
  {
    hide Gathered, LeastFailing, Tells;
    var index0: nat, index: nat, gathered, final :| WorkedOut(h, chains, st0, before, p, st, index0, index, gathered, final);
    var e := SpecificTo(p.phase);
    assert StatusBy(st, chains, |chains|, e, index0, before, gathered);
    StatusStays(st, chains, |chains|, e, index0, before, gathered);
    UnmarkedFinal(h, p.phase, st, chains, e, index0, before, final);
  }

  lemma UnmarkedFinal(h: Script, p: Mode, st: seq<int>, chains: seq<seq<nat>>, e: int, index0: nat, before: int, final: int)
    requires FinalBy(h, p, st, chains, |chains|, e, index0, before, final) && !Tells(st, e)
    ensures if before == NO_ERROR then FirstCode(h, |chains|, p, final) else final == NO_ERROR || final == before
  {
    hide StatusBy, Tells;
    if final == NO_ERROR {
      forall i: nat {:trigger h.code(p, i)} | i < |chains| ensures before == NO_ERROR ==> h.code(p, i) == NO_ERROR {
        assert SilentAt(h, p, st, chains, i, e, index0, before);
      }
    } else {
      var j: nat :| j < |chains| && QuietBy(h, p, st, chains, j, e, index0, before) && SignAt(h, p, st, chains, j, e, index0, before, final);
      if StatusBy(st, chains, j + 1, e, index0, before, final) {
        StatusStays(st, chains, j + 1, e, index0, before, final);
      } else {
        StatusStays(st, chains, j + 1, e, index0, before, NO_ERROR);
        forall i: nat {:trigger h.code(p, i)} | i < j ensures h.code(p, i) == NO_ERROR {
          assert SilentAt(h, p, st, chains, i, e, index0, before);
        }
        assert FirstCodeAt(h, p, j, final);
      }
    }
  }

  predicate Special(v: int) { v == COMMIT_FAILED || v == UNDO_FAILED }

  /** Nobody has said commitFailed or undoFailed yet. */
  predicate NoneSpecial(st: seq<int>) { forall k | 0 <= k < |st| :: !Special(st[k]) }

  predicate Last(p: Mode) { p == Commit || p == Undo }

  /** COMMIT and UNDO come last. */
  lemma LastIsLast(log: seq<Pass>)
    requires Follows(log)
    ensures forall k | 0 <= k < |log| - 1 :: !Last(log[k].phase)
  {
    hide Follows;
    forall k | 0 <= k < |log| - 1 ensures !Last(log[k].phase) {
      FollowsAt(log, k);
      FollowsAt(log, k + 1);
    }
  }

  lemma {:induction false} RequestsUnspecial(h: Script, c: nat, n: nat, log: seq<Pass>)
    requires Proper(h, c, n) && forall k | 0 <= k < |log| :: !Last(log[k].phase)
    ensures NoneSpecial(StatusAfter(h, n, log))
  {
    if log != [] {
      var m := |log| - 1;
      RequestsUnspecial(h, c, n, log[..m]);
      var st0 := StatusAfter(h, n, log[..m]);
      forall k | 0 <= k < n ensures !Special(StatusAfter(h, n, log)[k]) {
        assert !Special(st0[k]) && ProperReply(h, log[m].phase, k + 1);
      }
    }
  }

  lemma {:induction false} StatusUnspecial(h: Script, chains: seq<seq<nat>>, n: nat, log: seq<Pass>, m: nat)
    requires m <= |log| && Proper(h, |chains|, n) && (forall k | 0 <= k < m :: !Last(log[k].phase)) && Told(h, chains, n, log[..m])
    ensures !Special(StatusBefore(log, m))
  {
    if m > 0 {
      hide Worked, Proper, Follows;
      var l, k := log[..m], m - 1;
      assert ToldAt(h, chains, n, l, k);
      ToldUpTo(h, chains, n, l, k);
      assert l[..k] == log[..k] && l[..k + 1] == l;
      StatusUnspecial(h, chains, n, log, k);
      RequestsUnspecial(h, |chains|, n, l);
      LeavesUnspecial(h, |chains|, n, StatusBefore(l, k), l[k], StatusAfter(h, n, l));
    }
  }

  lemma LeavesUnspecial(h: Script, c: nat, n: nat, before: int, p: Pass, st: seq<int>)
    requires Leaves(h, c, before, p, st) && Proper(h, c, n) && NoneSpecial(st) && !Special(before) && !Last(p.phase)
    ensures !Special(p.status)
  {
    if !Failing(st) && !p.dropped && p.phase != Free && p.status != NO_ERROR {
      var i: nat :| i < c && FirstCodeAt(h, p.phase, i, p.status);
      assert ProperCode(h, p.phase, i);
    }
  }

  lemma ToldUpTo(h: Script, chains: seq<seq<nat>>, n: nat, log: seq<Pass>, m: nat)
    requires Told(h, chains, n, log) && m <= |log|
    ensures Told(h, chains, n, log[..m])
  {
    hide Leaves, Worked, Proper;
    forall k: nat | k < m ensures ToldAt(h, chains, n, log[..m], k) {
      assert ToldAt(h, chains, n, log, k);
      assert log[..m][..k] == log[..k] && log[..m][..k + 1] == log[..k + 1];
    }
  }

  /** What a chain signals is the status before, a request's or a returned one. */
  lemma FinalFrom(h: Script, p: Mode, st: seq<int>, chains: seq<seq<nat>>, e: int, index0: nat, before: int, final: int, n: nat)
    requires FinalBy(h, p, st, chains, |chains|, e, index0, before, final) && Proper(h, |chains|, n) && !Special(before)
    requires e == SpecificTo(p) && (Last(p) || NoneSpecial(st))
    ensures Special(final) ==> final == e
  {
    hide QuietBy;
    if Special(final) {
      var j: nat :| j < |chains| && QuietBy(h, p, st, chains, j, e, index0, before) && SignAt(h, p, st, chains, j, e, index0, before, final);
      if StatusBy(st, chains, j + 1, e, index0, before, final) {
        var ix: nat :| Gathered(st, Upto(chains, j + 1), e, index0, before, ix, final);
      } else {
        assert ProperCode(h, p, j);
      }
    }
  }

  /** A pass that did not wait leaves the right status exactly if what came up
      first is no commitFailed or undoFailed, or is the error gathered from the
      requests, or no request tells of an error. */
  lemma WorkedExactly(h: Script, chains: seq<seq<nat>>, before: int, p: Pass, st0: seq<int>, st: seq<int>,
                      index0: nat, index: nat, gathered: int, final: int)
    requires WorkedOut(h, chains, st0, before, p, st, index0, index, gathered, final)
    requires Partition(chains, |st|) && Keeps(st0, st) && !p.suspended && !p.dropped
    requires (p.phase == Free || p.phase == Undo) == (before != NO_ERROR)
    ensures Leaves(h, |chains|, before, p, st) <==>
              !Tells(st, SpecificTo(p.phase)) || (Special(final) ==> final == gathered)
  {
    hide FinalBy, Unmarked;
    var e := SpecificTo(p.phase);
    if !Tells(st, e) {
      WorkedAs(h, chains, st0, before, p, st, index0, index, gathered, final);
      WorkedUnmarked(h, chains, st0, before, p, st);
    } else if e == NO_ERROR {
      GatheredAll(st, chains, index0, before, index, gathered);
      forall ix: nat | LeastFailing(st, ix) ensures ix == index {
      }
    } else {
      var k :| 0 <= k < |st| && st[k] == e;
      EveryoneSeen(chains, |st|);
      assert k + 1 in Upto(chains, |chains|) && st[k + 1 - 1] == e;
    }
  }

  /** So it does if handlers are proper. */
  lemma WorkedLeaves(h: Script, chains: seq<seq<nat>>, n: nat, before: int, p: Pass, st0: seq<int>, st: seq<int>)
    requires Worked(h, chains, st0, before, p, st) && Proper(h, |chains|, n) && Partition(chains, |st|) && Keeps(st0, st)
    requires !Special(before) && (Last(p.phase) || NoneSpecial(st)) && !p.suspended && !p.dropped
    requires (p.phase == Free || p.phase == Undo) == (before != NO_ERROR)
    ensures Leaves(h, |chains|, before, p, st)
  {
    hide Proper, FinalBy, Leaves, Partition, Keeps, LeastFailing;
    var e := SpecificTo(p.phase);
    var index0: nat, index: nat, gathered, final :| WorkedOut(h, chains, st0, before, p, st, index0, index, gathered, final);
    FinalFrom(h, p.phase, st, chains, e, index0, before, final, n);
    WorkedExactly(h, chains, before, p, st0, st, index0, index, gathered, final);
    if Tells(st, e) && e != NO_ERROR {
      var k :| 0 <= k < |st| && st[k] == e;
      EveryoneSeen(chains, |st|);
      assert k + 1 in Upto(chains, |chains|) && st[k + 1 - 1] == e;
    }
  }

  /** A pass that did not wait is told of rightly. */
  lemma ToldWorked(h: Script, chains: seq<seq<nat>>, n: nat, log: seq<Pass>, st0: seq<int>, st: seq<int>)
    requires Follows(log) && log != [] && Partition(chains, n)
    requires var m := |log| - 1;
             && Told(h, chains, n, log[..m]) && st0 == StatusAfter(h, n, log[..m]) && st == StatusAfter(h, n, log) && Keeps(st0, st)
             && Worked(h, chains, st0, StatusBefore(log, m), log[m], st) && !log[m].suspended && !log[m].dropped
             && (log[m].phase == Free || log[m].phase == Undo) == (StatusBefore(log, m) != NO_ERROR)
    ensures Told(h, chains, n, log)
  {
    hide Follows, Worked, Proper, Partition, Keeps, Leaves;
    var m := |log| - 1;
    LastIsLast(log);
    assert log[..m + 1] == log;
    if Proper(h, |chains|, n) {
      StatusUnspecial(h, chains, n, log, m);
      if !Last(log[m].phase) { RequestsUnspecial(h, |chains|, n, log); }
      WorkedLeaves(h, chains, n, StatusBefore(log, m), log[m], st0, st);
    } else if !Failing(st) {
      QuietLeaves(h, chains, StatusBefore(log, m), log[m], st0, st);
    }
    ToldOn(h, chains, n, log);
  }

  lemma QuietLeaves(h: Script, chains: seq<seq<nat>>, before: int, p: Pass, st0: seq<int>, st: seq<int>)
    requires Worked(h, chains, st0, before, p, st) && !Failing(st) && !p.dropped
    requires (p.phase == Free || p.phase == Undo) == (before != NO_ERROR)
    ensures Leaves(h, |chains|, before, p, st)
  {
    hide Worked, Unmarked;
    WorkedUnmarked(h, chains, st0, before, p, st);
  }

  /** After FREE a SET is answered with the error of its least failing request. */
  lemma FreeTells(h: Script, chains: seq<seq<nat>>, log: seq<Pass>, st: seq<int>, index: nat, status: int)
    requires log != [] && Told(h, chains, |st|, log) && st == StatusAfter(h, |st|, log) && Proper(h, |chains|, |st|)
    requires var last := log[|log| - 1]; last.phase == Free && last.status == status && Reported(last, st, index, status)
    requires Failing(st)
    ensures LeastFailing(st, index) && 1 <= index <= |st| && status == st[index - 1]
  {
    hide Worked, LeastFailing, StatusAfter, Proper, Leaves;
    var m := |log| - 1;
    assert ToldAt(h, chains, |st|, log, m);
    assert log[..m + 1] == log;
    FreeLeaves(h, |chains|, StatusBefore(log, m), log[m], st, index);
  }

  lemma FreeLeaves(h: Script, c: nat, before: int, p: Pass, st: seq<int>, index: nat)
    requires Leaves(h, c, before, p, st) && p.phase == Free && Failing(st) && LeastFailing(st, index)
    ensures 1 <= index <= |st| && p.status == st[index - 1]
  {
  }

  /** What a session owes when it has to wait. */
  lemma OwedPaused(h: Script, chains: seq<seq<nat>>, log: seq<Pass>, st0: seq<int>, st: seq<int>)
    requires log != []
    requires var m := |log| - 1;
             && Worked(h, chains, st0, StatusBefore(log, m), log[m], st)
             && (log[m].phase == Free || log[m].phase == Undo) == (StatusBefore(log, m) != NO_ERROR)
    ensures Owed(h, |chains|, Paused(log), st, if Suspended(log[..|log| - 1]) then log[|log| - 1].status else NO_ERROR)
  {
    hide Worked, Unmarked;
    var m := |log| - 1;
    assert StatusBefore(Paused(log), m) == StatusBefore(log, m);
    if !Failing(st) {
      WorkedUnmarked(h, chains, st0, StatusBefore(log, m), log[m], st);
    }
  }

  /** A pass that waited is told of rightly when all answers are in. */
  lemma ToldResumed(h: Script, chains: seq<seq<nat>>, n: nat, log: seq<Pass>, st: seq<int>,
                    index0: nat, status0: int, index1: nat, status1: int, index: nat, status: int)
    requires log != [] && Partition(chains, n) && |st| == n && Justified(st, index0)
    requires var m := |log| - 1;
             && Told(h, chains, n, log[..m]) && log[m].suspended
             && st == StatusAfter(h, n, Reviewed(log, st, status))
             && Owed(h, |chains|, log, st, status0)
             && Gathered(st, Upto(chains, |chains|), NO_ERROR, index0, status0, index1, status1)
             && (if Last(log[m].phase)
                 then Gathered(st, Upto(chains, |chains|), SpecificTo(log[m].phase), index1, status1, index, status)
                 else status == status1)
    ensures Told(h, chains, n, Reviewed(log, st, status))
  {
    hide Worked, Proper, Partition, Unmarked;
    var m, log' := |log| - 1, Reviewed(log, st, status);
    assert log'[..m] == log[..m] && log'[..m + 1] == log' && StatusBefore(log', m) == StatusBefore(log, m);
    GatheredAll(st, chains, index0, status0, index1, status1);
    EveryoneSeen(chains, n);
    if Last(log[m].phase) && Carries(st, SpecificTo(log[m].phase)) {
      var k :| 0 <= k < |st| && st[k] == SpecificTo(log[m].phase);
      assert k + 1 in Upto(chains, |chains|) && st[k + 1 - 1] == SpecificTo(log[m].phase);
    }
    assert Leaves(h, |chains|, StatusBefore(log', m), log'[m], st);
    ToldOn(h, chains, n, log');
  }

  class Session {
    var mode: Mode
    var status: int
    var index: nat
    const treecache: seq<seq<nat>>
    const script: Script             // what the handlers are going to do
    const requests: array<int>       // error statuses
    const delegated: array<bool>     // which requests are still being worked on
    ghost var log: seq<Pass>

    /** A request whose varbinds have been put on chains. */
    constructor (chains: seq<seq<nat>>, n: nat, script: Script)
      requires Partition(chains, n)
      ensures Ready() && mode.Begin? && NoneDelegated() && requests.Length == n && treecache == chains
      ensures OnScript() && this.script == script
      ensures fresh(requests) && fresh(delegated)
    {
      mode, status, index, treecache, log, this.script := Begin, NO_ERROR, 0, chains, [], script;
      requests, delegated := new int[n](_ => NO_ERROR), new bool[n](_ => false);
    }

    ghost predicate Shape() {
      Partition(treecache, requests.Length) && delegated.Length == requests.Length
    }

    // ----- gathering errors -----

    method CheckRequestsStatus(chain: seq<nat>, specific: int) returns (s: int)
      requires forall r | r in chain :: 1 <= r <= requests.Length
      modifies this`index, this`status
      ensures s == status && (old(status) != NO_ERROR ==> status != NO_ERROR)
      ensures Gathered(requests[..], Elems(chain), specific, old(index), old(status), index, status)
      ensures specific != NO_ERROR ==> forall k | 0 <= k < |chain| && 1 <= chain[k] <= requests.Length && requests[chain[k] - 1] == specific ::
                exists j :: k <= j < |chain| && index == chain[j]
      ensures specific != NO_ERROR && (forall k | 0 <= k < |chain| && 1 <= chain[k] <= requests.Length :: requests[chain[k] - 1] != specific)
              ==> index == old(index)
    {
      hide Gathered, Fails;
      var k := 0;
      GatheredNone(requests[..], specific, index, status);
      assert Elems(chain[..0]) == {};
      while k < |chain|
        invariant 0 <= k <= |chain| && (old(status) != NO_ERROR ==> status != NO_ERROR)
        invariant Gathered(requests[..], Elems(chain[..k]), specific, old(index), old(status), index, status)
        invariant specific != NO_ERROR ==> forall i | 0 <= i < k && 1 <= chain[i] <= requests.Length && requests[chain[i] - 1] == specific ::
                    exists j :: i <= j < k && index == chain[j]
        invariant specific != NO_ERROR && (forall i | 0 <= i < k && 1 <= chain[i] <= requests.Length :: requests[chain[i] - 1] != specific)
                  ==> index == old(index)
      {
        var r := chain[k];
        assert r in chain;
        GatheredOne(requests[..], Elems(chain[..k]), r, specific, old(index), old(status), index, status);
        if requests[r - 1] != NO_ERROR && (specific == NO_ERROR || requests[r - 1] == specific)
           && (specific != NO_ERROR || index == 0 || r <= index) {
          index, status := r, requests[r - 1];
        }
        assert Elems(chain[..k + 1]) == Elems(chain[..k]) + {r};
        k := k + 1;
      }
      assert chain[..k] == chain;
      return status;
    }

    method CheckAllRequestsStatus(specific: int)
      requires Shape()
      modifies this`index, this`status
      ensures Gathered(requests[..], Upto(treecache, |treecache|), specific, old(index), old(status), index, status)
      ensures specific != NO_ERROR ==> LastCarrier(requests[..], treecache, specific, index)
    {
      hide Gathered, Partition, LastCarrier;
      assert LastCarrier(requests[..], treecache[..0], specific, index) by { NoChains(requests[..], specific, index); }
      var i := 0;
      GatheredNone(requests[..], specific, index, status);
      while i < |treecache|
        invariant 0 <= i <= |treecache|
        invariant Gathered(requests[..], Upto(treecache, i), specific, old(index), old(status), index, status)
        invariant specific != NO_ERROR ==> LastCarrier(requests[..], treecache[..i], specific, index)
      {
        ghost var index1, status1 := index, status;
        ChainInRange(treecache, requests.Length, i);
        var _ := CheckRequestsStatus(treecache[i], specific);
        GatheredMore(requests[..], Upto(treecache, i), Elems(treecache[i]), specific,
                     old(index), old(status), index1, status1, index, status);
        if specific != NO_ERROR { LastOn(requests[..], treecache, i, specific, index1, index); }
        i := i + 1;
      }
      assert treecache[..i] == treecache;
    }

    // ----- handlers -----

    /** The handlers of chain i answer or delegate each of its requests, mark it
        with an error or not, and return a value. */
    method CallHandlers(i: nat) returns (code: int)
      requires Shape() && i < |treecache| && forall r | r in treecache[i] :: 1 <= r <= requests.Length
      modifies requests, delegated
      ensures code == script.code(mode, i)
      ensures Keeps(old(requests[..]), requests[..]) && Only(old(requests[..]), requests[..], Elems(treecache[i]))
      ensures forall k | 0 <= k < requests.Length ::
                if k + 1 in treecache[i] then Replied(script, mode, k + 1, old(requests[k]), requests[k], delegated[k])
                else requests[k] == old(requests[k]) && delegated[k] == old(delegated[k])
    {
      var chain, k := treecache[i], 0;
      while k < |chain|
        invariant 0 <= k <= |chain|
        invariant forall j | 0 <= j < requests.Length ::
                    if j + 1 in chain[..k] then Replied(script, mode, j + 1, old(requests[j]), requests[j], delegated[j])
                    else requests[j] == old(requests[j]) && delegated[j] == old(delegated[j])
      {
        var r := chain[k];
        assert r in chain;
        match script.reply(mode, r) {
          case Now(e) =>
            if e != NO_ERROR {
              requests[r - 1] := e;
            }
            delegated[r - 1] := false;
          case Later(_) =>
            delegated[r - 1] := true;
        }
        assert chain[..k + 1] == chain[..k] + [r];
        k := k + 1;
      }
      assert chain[..k] == chain;
      code := script.code(mode, i);
    }

    function Specific(): int
      reads this`mode
    {
      SpecificTo(mode)
    }

    method HandleVarRequests() returns (final: int, ghost code: bool)
      requires Shape()
      modifies this`index, this`status, requests, delegated
      ensures Keeps(old(requests[..]), requests[..])
      ensures Gathered(requests[..], Upto(treecache, |treecache|), Specific(), old(index), old(status), index, status)
      ensures final != NO_ERROR ==> code || status != NO_ERROR
      ensures code ==> final != NO_ERROR
      ensures code <==> Signals(script, |treecache|, mode)
      ensures FinalBy(script, mode, requests[..], treecache, |treecache|, Specific(), old(index), old(status), final)
      ensures forall k | 0 <= k < requests.Length :: Replied(script, mode, k + 1, old(requests[k]), requests[k], delegated[k])
    {
      hide Gathered, Partition, Keeps, Only, Replied, Marked, FinalBy;
      assert FinalBy(script, mode, requests[..], treecache, 0, Specific(), index, status, NO_ERROR) by { FinalNone(); }
      final, code := NO_ERROR, false;
      var i := 0;
      GatheredNone(requests[..], Specific(), index, status);
      KeepsAll(requests[..]);
      while i < |treecache|
        invariant 0 <= i <= |treecache|
        invariant Keeps(old(requests[..]), requests[..])
        invariant Gathered(requests[..], Upto(treecache, i), Specific(), old(index), old(status), index, status)
        invariant final != NO_ERROR ==> code || status != NO_ERROR
        invariant code ==> final != NO_ERROR
        invariant code <==> Signals(script, i, mode)
        invariant FinalBy(script, mode, requests[..], treecache, i, Specific(), old(index), old(status), final)
        invariant forall k | 0 <= k < requests.Length ::
                    if k + 1 in Upto(treecache, i) then Replied(script, mode, k + 1, old(requests[k]), requests[k], delegated[k])
                    else requests[k] == old(requests[k]) && delegated[k] == old(delegated[k])
      {
        ghost var st, index1, status1 := requests[..], index, status;
        ChainInRange(treecache, requests.Length, i);
        var result := CallHandlers(i);
        code := code || result != NO_ERROR;
        KeepsOn(old(requests[..]), st, requests[..]);
        GatheredStands(st, requests[..], Upto(treecache, i), Elems(treecache[i]), Specific(),
                       old(index), old(status), index, status);
        var gathered := CheckRequestsStatus(treecache[i], Specific());
        GatheredMore(requests[..], Upto(treecache, i), Elems(treecache[i]), Specific(),
                     old(index), old(status), index1, status1, index, status);
        FinalOn(script, mode, st, requests[..], treecache, i, Specific(), old(index), old(status), final, gathered);
        if gathered != NO_ERROR {
          result := gathered;
        }
        if final == NO_ERROR && result != NO_ERROR {
          final := result;
        }
        i := i + 1;
      }
      EveryoneSeen(treecache, requests.Length);
    }

    lemma FinalNone()
      ensures FinalBy(script, mode, requests[..], treecache, 0, Specific(), index, status, NO_ERROR)
    {
    }

    method CheckForDelegated() returns (b: bool)
      requires Shape()
      ensures b <==> exists k :: 0 <= k < delegated.Length && delegated[k]
    {
      hide Partition;
      var i := 0;
      while i < |treecache|
        invariant 0 <= i <= |treecache|
        invariant forall r | r in Upto(treecache, i) && 1 <= r <= delegated.Length :: !delegated[r - 1]
      {
        ChainInRange(treecache, requests.Length, i);
        var chain, k := treecache[i], 0;
        while k < |chain|
          invariant 0 <= k <= |chain|
          invariant forall j | 0 <= j < k && 1 <= chain[j] <= delegated.Length :: !delegated[chain[j] - 1]
        {
          assert chain[k] in chain;
          if delegated[chain[k] - 1] {
            return true;
          }
          k := k + 1;
        }
        i := i + 1;
      }
      EveryoneSeen(treecache, requests.Length);
      forall k | 0 <= k < delegated.Length ensures !delegated[k] {
        assert k + 1 in Upto(treecache, |treecache|);
      }
      return false;
    }

    // ----- the machine -----

    ghost predicate Ready()
      reads this, requests, delegated
    {
      Shape() && Settled(log, requests[..], mode, index, status)
    }

    ghost predicate Waiting()
      reads this, requests, delegated
    {
      Shape() && Unsettled(log, requests[..], mode, index, status) && Owed(script, |treecache|, log, requests[..], status)
    }

    /** Between the phases: the history and the statuses are as scripted, and
        every pass has left the right status. */
    ghost predicate OnScript()
      reads this, requests
    {
      && Played(script, |treecache|, requests.Length, log) && requests[..] == StatusAfter(script, requests.Length, log)
      && Told(script, treecache, requests.Length, log)
    }

    /** So they are in a phase that has to wait, but for the answers to come. */
    ghost predicate Awaiting()
      reads this, requests, delegated
    {
      log != [] && delegated.Length == requests.Length &&
      var m := |log| - 1;
      && Played(script, |treecache|, requests.Length, log[..m]) && mode == log[m].phase
      && Told(script, treecache, requests.Length, log[..m])
      && (log[m].code <==> Signals(script, |treecache|, mode))
      && log[m].suspended && Waits(script, requests.Length, mode)
      && Answering(script, mode, StatusAfter(script, requests.Length, log[..m]), requests[..], delegated[..])
    }

    /** Choose the phase to run next. */
    method ChooseMode()
      requires Ready() && !mode.Finished()
      modifies this`mode, this`status
      ensures mode == Upcoming(log) && Rank(mode) < Rank(old(mode)) && !mode.Begin?
      ensures status == (if log == [] then NO_ERROR else old(status)) && (old(mode).Begin? ==> !mode.Finished())
    {
      hide Settled, Partition, Follows;
      SettledFacts(log, requests[..], mode, index, status);
      match mode {
        case Begin =>
          mode := Reserve1;
          status := NO_ERROR;
        case Reserve1 =>
          mode := if status != NO_ERROR then Free else Reserve2;
        case Reserve2 =>
          mode := if status != NO_ERROR then Free else Action;
        case Action =>
          mode := if status != NO_ERROR then Undo else Commit;
        case Commit =>
          mode := if status != NO_ERROR then Failure else Success;
        case Undo =>
          mode := Failure;
        case Free =>
          mode := Failure;
      }
    }

    /** Move to the next phase and run it. */
    method HandleSet()
      requires Ready() && !mode.Finished()
      modifies this, requests, delegated
      ensures Ready() && !mode.Begin? && mode == Upcoming(old(log))
      ensures if mode.Finished() then log == old(log) && requests[..] == old(requests[..])
              else |log| == |old(log)| + 1 && log[..|log| - 1] == old(log) && !log[|log| - 1].suspended
      ensures Keeps(old(requests[..]), requests[..]) && Rank(mode) < Rank(old(mode))
      ensures mode.Finished() ==> delegated[..] == old(delegated[..])
      ensures !mode.Finished() ==>
                && log[|log| - 1].phase == mode && (log[|log| - 1].code <==> Signals(script, |treecache|, mode))
                && (log[|log| - 1].failing <==> Failing(requests[..]))
                && (log[|log| - 1].commitFailed <==> Carries(requests[..], COMMIT_FAILED))
                && log[|log| - 1].status == status && !log[|log| - 1].dropped
                && (mode == Free || mode == Undo) == (StatusBefore(log, |log| - 1) != NO_ERROR)
                && Worked(script, treecache, old(requests[..]), StatusBefore(log, |log| - 1), log[|log| - 1], requests[..])
                && forall k | 0 <= k < requests.Length ::
                     Replied(script, mode, k + 1, old(requests[k]), requests[k], delegated[k])
    {
      hide Settled, Gathered, Partition, Keeps, Follows, Upto, Failing, Carries, Bad, Justified, Upcoming, Rank, Signals, Replied, FinalBy, LeastFailing,
        Worked;
      ghost var before, st, index0, status0 := log, requests[..], index, StatusBefore(log, |log|);
      SettledFacts(log, st, mode, index, status);
      KeepsAll(st);
      ChooseMode();
      if mode.Finished() {
        Finish(log, st, mode, old(mode), index, status);
        return;
      }
      var result;
      ghost var code;
      result, code := HandleVarRequests();
      ghost var gathered := status;
      if (result != NO_ERROR && status == NO_ERROR) || result == COMMIT_FAILED || result == UNDO_FAILED {
        status := result;
      }
      ghost var p := Pass(mode, Failing(requests[..]), Carries(requests[..], COMMIT_FAILED), code, false, false, status);
      log := log + [p];
      WorkedAs(script, treecache, st, status0, p, requests[..], index0, index, gathered, result);
      Ran(before, p, treecache, st, requests[..], index0, status0, index, gathered, status);
    }

    ghost predicate NoneDelegated()
      reads this, delegated
    {
      forall k | 0 <= k < delegated.Length :: !delegated[k]
    }

    /** Run phases until the request is finished or has to wait. */
    method HandleSetLoop() returns (waiting: bool)
      requires Ready() && NoneDelegated() && OnScript()
      modifies this, requests, delegated
      ensures if waiting then Awaiting() else OnScript()
      ensures Rank(mode) < Rank(old(mode)) || old(mode).Finished()
      ensures Shape() && Keeps(old(requests[..]), requests[..])
      ensures waiting ==>
                var status := if Suspended(old(log)) then status else NO_ERROR;
                && Unsettled(log, requests[..], mode, index, status)
                && Owed(script, |treecache|, log, requests[..], status)
      ensures !waiting ==> Ready() && mode.Finished() && NoneDelegated()
    {
      hide Settled, Unsettled, Partition, Keeps, Follows, Suspended, Played, Signals, Waits, Replied, Answering, Failing, Carries, Rank,
        Told, Worked, Owed;
      KeepsAll(requests[..]);
      while !mode.Finished()
        invariant Ready() && NoneDelegated() && Keeps(old(requests[..]), requests[..]) && OnScript()
        invariant mode == old(mode) || Rank(mode) < Rank(old(mode))
        invariant Suspended(log) == Suspended(old(log))
        decreases Rank(mode)
      {
        ghost var st, before := requests[..], log;
        HandleSet();
        KeepsOn(old(requests[..]), st, requests[..]);
        SameSuspended(before, log);
        var delayed := CheckForDelegated();
        if !mode.Finished() {
          OnePass(script, |treecache|, before, log, st, requests[..], delegated[..]);
        }
        if delayed {
          Pause(log, requests[..], mode, index, status);
          OwedPaused(script, treecache, log, st, requests[..]);
          log := Paused(log);
          return true;
        }
        if !mode.Finished() {
          SettledFacts(log, requests[..], mode, index, status);
          ToldWorked(script, treecache, requests.Length, log, st, requests[..]);
        }
      }
      return false;
    }

    /** The request comes in. A first suspension clears the status. */
    method HandleRequest() returns (waiting: bool)
      requires Ready() && mode.Begin? && NoneDelegated() && OnScript()
      modifies this, requests, delegated
      ensures waiting ==> Waiting() && Awaiting()
      ensures !waiting ==> Ready() && mode.Finished() && OnScript()
      ensures Keeps(old(requests[..]), requests[..])
    {
      hide Unsettled, Partition, Keeps, Told, Owed;
      waiting := HandleSetLoop();
      if waiting {
        status := NO_ERROR;
      }
    }

    /** A handler answers for one request, perhaps with an error. */
    method Answer(r: nat)
      requires Waiting() && Awaiting() && 1 <= r <= requests.Length && delegated[r - 1]
      modifies requests, delegated
      ensures Waiting() && Awaiting() && delegated[..] == old(delegated[..])[r - 1 := false]
      ensures Keeps(old(requests[..]), requests[..])
    {
      hide Partition, Follows, Unsettled, Played, Signals, Waits, Told, Unmarked;
      ghost var st := requests[..];
      var e := script.reply(mode, r).error;
      if e != NO_ERROR {
        requests[r - 1] := e;
      }
      delegated[r - 1] := false;
      StillUnsettled(log, st, requests[..], mode, index, status);
    }

    /** Every answer is in: gather their errors and go on. A later suspension
        keeps the status. */
    method CheckDelayedRequest() returns (waiting: bool)
      requires Waiting() && Awaiting() && NoneDelegated()
      modifies this, requests, delegated
      ensures waiting ==> Waiting() && Awaiting()
      ensures !waiting ==> Ready() && mode.Finished() && OnScript()
      ensures Rank(mode) < Rank(old(mode))
      ensures Keeps(old(requests[..]), requests[..])
    {
      hide Settled, Unsettled, Gathered, Partition, Keeps, Follows, Suspended, Played, Signals, Waits, Answering, Failing, Carries, Rank,
        Told, Owed;
      NotFinished();
      ghost var index0, status0 := index, status;
      CheckAllRequestsStatus(NO_ERROR);
      ghost var index1, status1 := index, status;
      match mode {
        case Commit => CheckAllRequestsStatus(COMMIT_FAILED);
        case Undo => CheckAllRequestsStatus(UNDO_FAILED);
        case _ =>
      }
      Resumed(log, treecache, requests[..], mode, index0, status0, index1, status1, index, status);
      AllAnswered(script, |treecache|, log, requests[..], delegated[..], status);
      ToldResumed(script, treecache, requests.Length, log, requests[..], index0, status0, index1, status1, index, status);
      log := Reviewed(log, requests[..], status);
      waiting := HandleSetLoop();
    }

    lemma NotFinished()
      requires Waiting()
      ensures !mode.Finished()
    {
      FollowsAt(log, |log| - 1);
    }

    /** A whole SET: the request comes in, answers arrive in any order, and it
        goes on whenever all of them are there. However the handlers behave, it
        ends after one of the four sequences of phases, and every pass leaves the
        status that its replies and returned values call for; and if they mark a
        request wherever they return an error, COMMIT runs exactly when no error
        came up before, and a failed SET is answered with an error. */
    method Run()
      requires Ready() && mode.Begin? && NoneDelegated() && OnScript()
      modifies this, requests, delegated
      ensures Ready() && mode.Finished() && Complete(log) && mode == Upcoming(log)
      ensures mode == Success <==> log[|log| - 1].phase == Commit && status == NO_ERROR
      ensures Played(script, |treecache|, requests.Length, log) && requests[..] == StatusAfter(script, requests.Length, log)
      ensures Told(script, treecache, requests.Length, log) && status == log[|log| - 1].status
      ensures Proper(script, |treecache|, requests.Length) && log[|log| - 1].phase == Free && Failing(requests[..]) ==>
                LeastFailing(requests[..], index) && 1 <= index <= requests.Length && status == requests[index - 1]
      ensures (status != NO_ERROR <==> Bad(log[|log| - 1])) && Reported(log[|log| - 1], requests[..], index, status)
      ensures AlwaysMarked(script, treecache, requests.Length) ==>
                && ((exists k :: 0 <= k < |log| && log[k].phase == Commit) <==>
                    forall p | p in {Reserve1, Reserve2, Action} ::
                      !Signals(script, |treecache|, p) && !Marks(script, requests.Length, p))
                && (mode == Failure ==> status != NO_ERROR)
    {
      hide Partition, Keeps, Follows, Reported, Unsettled, Played, AlwaysMarked, Awaiting, Marks, Signals, Bad, Rank, Told, Owed, LeastFailing, Proper;
      var waiting := HandleRequest();
      while waiting
        invariant if waiting then Waiting() && Awaiting() else Ready() && mode.Finished() && OnScript()
        decreases waiting, Rank(mode), |Busy(delegated[..])|
      {
        var delayed := CheckForDelegated();
        if delayed {
          label Before: var k :| 0 <= k < delegated.Length && delegated[k];
          Answer(k + 1);
          OneLess(old@Before(delegated[..]), k);
        } else {
          waiting := CheckDelayedRequest();
        }
      }
      Verdict(log);
      if Proper(script, |treecache|, requests.Length) && log[|log| - 1].phase == Free && Failing(requests[..]) {
        FreeTells(script, treecache, log, requests[..], index, status);
      }
      if AlwaysMarked(script, treecache, requests.Length) {
        NothingLost(script, treecache, requests.Length, log);
      }
    }
  }

  // ----- without that condition -----

  const GENERIC_ERROR := 5

  function OneError(p: Mode, i: nat): int { if p == Reserve1 then GENERIC_ERROR else NO_ERROR }

  function WaitIn(phase: Mode): (Mode, nat) -> Reply {
    (p, r) => if p == phase then Later(NO_ERROR) else Now(NO_ERROR)
  }

  /** In RESERVE1 the only handler returns an error and marks nothing; in FREE it
      answers later. The SET fails, and its response says noError. */
  method SilentSet() returns (s: Session)
    ensures s.script == Script(WaitIn(Free), OneError) && s.treecache == [[1]] && s.requests.Length == 1
    ensures s.mode == Failure && s.status == NO_ERROR
  {
    hide Played, Complete, Bad, Reported, Told, StatusAfter, LeastFailing, Proper, AlwaysMarked, Settled, Failing;
    OneChain();
    s := new Session([[1]], 1, Script(WaitIn(Free), OneError));
    s.Run();
    ReturnsOne(WaitIn(Free));
    assert s.script.reply(Free, 1).Later?;
    assert OnlyReturned(s.script, 1, 1, Reserve1, Free);
    SilentFailure(s.script, 1, 1, s.log);
  }

  /** The same error, but RESERVE1 is itself answered later: COMMIT runs. */
  method OverlookedSet() returns (s: Session)
    ensures s.script == Script(WaitIn(Reserve1), OneError) && s.treecache == [[1]] && s.requests.Length == 1
    ensures exists k :: 0 <= k < |s.log| && s.log[k].phase == Commit
    ensures Complete(s.log) && Played(s.script, 1, 1, s.log)
  {
    hide Played, Complete, Bad, Reported, Told, StatusAfter, LeastFailing, Proper, AlwaysMarked, Settled, Failing;
    OneChain();
    s := new Session([[1]], 1, Script(WaitIn(Reserve1), OneError));
    s.Run();
    ReturnsOne(WaitIn(Reserve1));
    assert s.script.reply(Reserve1, 1).Later?;
    CommitExactly(s.script, 1, 1, s.log);
  }

  lemma TwoChains()
    ensures Partition([[1], [2]], 2)
  {
    assert Upto([[1], [2]], 1) == Upto([[1], [2]], 0) + Elems([1]) == {1};
    assert Upto([[1], [2]], 2) == Upto([[1], [2]], 1) + Elems([2]) == {1, 2};
  }

  /** How that run goes: RESERVE1 and FREE. */
  lemma MixedFails(log: seq<Pass>, st: seq<int>)
    requires var h, chains := Script(SecondMarked, Improper), [[1], [2]];
             && Complete(log) && Played(h, 2, 2, log) && Told(h, chains, 2, log) && st == StatusAfter(h, 2, log)
    ensures st == [NO_ERROR, WRONG_TYPE] && Upcoming(log) == Failure && log[|log| - 1].status == COMMIT_FAILED
  {
    hide Follows, Suspended, Played, Told, Worked, Waits, Signals;
    var h, chains := Script(SecondMarked, Improper), [[1], [2]];
    Course(h, 2, 2, log);
    assert h.reply(Reserve1, 2).error == WRONG_TYPE;
    assert Marks(h, 2, Reserve1);
    assert forall p :: !Waits(h, 2, p) by { NobodyWaits(); }
    assert log[0].failing && Bad(log[0]) && log[1].phase == Free && |log| == 2;
    assert log[..0] == [] && log[..1][..0] == [] && log[..2] == log;
    var st1 := StatusAfter(h, 2, log[..1]);
    assert st1 == Errors(h, StatusAfter(h, 2, log[..0]), Reserve1) == [NO_ERROR, WRONG_TYPE];
    assert st == Errors(h, st1, Free) == [NO_ERROR, WRONG_TYPE];
    ToldHas(h, chains, 2, log, 0);
    ToldHas(h, chains, 2, log, 1);
    assert h.code(Reserve1, 0) == COMMIT_FAILED;
    SpecialWins(h, chains, StatusAfter(h, 2, log[..0]), NO_ERROR, log[0], st1, COMMIT_FAILED);
    SpecialWins(h, chains, st1, log[0].status, log[1], st, COMMIT_FAILED);
  }

  lemma NobodyWaits()
    ensures forall p :: !Waits(Script(SecondMarked, Improper), 2, p)
  {
  }

  lemma ToldHas(h: Script, chains: seq<seq<nat>>, n: nat, log: seq<Pass>, k: nat)
    requires Told(h, chains, n, log) && k < |log| && !log[k].suspended
    ensures Worked(h, chains, StatusAfter(h, n, log[..k]), StatusBefore(log, k), log[k], StatusAfter(h, n, log[..k + 1]))
  {
    hide Worked, Leaves;
    assert ToldAt(h, chains, n, log, k);
  }

  lemma OneChain()
    ensures Partition([[1]], 1)
  {
    assert Upto([[1]], 1) == Upto([[1]], 0) + Elems([1]) == {1};
  }

  lemma ReturnsOne(reply: (Mode, nat) -> Reply)
    ensures Signals(Script(reply, OneError), 1, Reserve1)
    ensures forall p | p != Reserve1 :: !Signals(Script(reply, OneError), 1, p)
  {
    assert OneError(Reserve1, 0) != NO_ERROR;
  }

  /** What one handler says in RESERVE1 without being in COMMIT. */
  function Improper(p: Mode, i: nat): int { if p == Reserve1 && i == 0 then COMMIT_FAILED else NO_ERROR }

  const WRONG_TYPE := 7

  function SecondMarked(p: Mode, r: nat): Reply { Now(if p == Reserve1 && r == 2 then WRONG_TYPE else NO_ERROR) }

  /** Unless handlers are proper, a commitFailed or undoFailed signalled by the
      first chain, none of whose requests fails, takes the place of any other
      error, and keeps it in the clean-up. */
  lemma SpecialWins(h: Script, chains: seq<seq<nat>>, st0: seq<int>, before: int, p: Pass, st: seq<int>, v: int)
    requires Worked(h, chains, st0, before, p, st) && !Last(p.phase) && Special(v)
    requires |chains| > 0 && forall r | r in chains[0] :: !Fails(st, r)
    requires before == v || (before == NO_ERROR && h.code(p.phase, 0) == v)
    ensures p.status == v
  {
    var index0: nat, index: nat, gathered, final :| WorkedOut(h, chains, st0, before, p, st, index0, index, gathered, final);
    assert Upto(chains, 1) == Upto(chains, 0) + Elems(chains[0]) == Elems(chains[0]);
    forall s | StatusBy(st, chains, 1, NO_ERROR, index0, before, s) ensures s == before {
      var ix: nat :| Gathered(st, Upto(chains, 1), NO_ERROR, index0, before, ix, s);
    }
    assert !SilentAt(h, p.phase, st, chains, 0, NO_ERROR, index0, before);
  }

  /** So a SET whose only failing request is marked wrongType can be answered with
      commitFailed, though COMMIT never ran. */
  method MixedSet() returns (s: Session)
    ensures s.script == Script(SecondMarked, Improper) && s.treecache == [[1], [2]]
    ensures s.requests[..] == [NO_ERROR, WRONG_TYPE] && s.mode == Failure && s.status == COMMIT_FAILED
  {
    hide Played, Complete, Bad, Reported, Told, Proper, StatusAfter, LeastFailing, Marks, Signals, Waits;
    TwoChains();
    s := new Session([[1], [2]], 2, Script(SecondMarked, Improper));
    s.Run();
    MixedFails(s.log, s.requests[..]);
  }

  /** The requests that have to wait. */
  ghost function Busy(delegated: seq<bool>): set<nat> {
    set k: nat | k < |delegated| && delegated[k]
  }

  lemma OneLess(delegated: seq<bool>, k: nat)
    requires k < |delegated| && delegated[k]
    ensures |Busy(delegated[k := false])| < |Busy(delegated)|
  {
    assert Busy(delegated) == Busy(delegated[k := false]) + {k};
  }

  /** Requests that have been answered have their new status, others the old. */
  ghost predicate Answering(h: Script, p: Mode, before: seq<int>, st: seq<int>, delegated: seq<bool>) {
    && |before| == |st| == |delegated|
    && forall k | 0 <= k < |st| ::
         && (delegated[k] ==> h.reply(p, k + 1).Later?)
         && st[k] == if delegated[k] then before[k] else Marked(h, p, k + 1, before[k])
  }

  /** What a phase makes of a run that keeps to the script, if it has to wait and
      if it does not. */
  lemma OnePass(h: Script, c: nat, before: seq<Pass>, log: seq<Pass>, st: seq<int>, st': seq<int>, delegated: seq<bool>)
    requires Played(h, c, |st|, before) && st == StatusAfter(h, |st|, before)
    requires |log| == |before| + 1 && log[..|before|] == before && |st'| == |st| == |delegated|
    requires var p := log[|before|];
             && !p.suspended && (p.code <==> Signals(h, c, p.phase))
             && (p.failing <==> Failing(st')) && (p.commitFailed <==> Carries(st', COMMIT_FAILED))
             && forall k | 0 <= k < |st| :: Replied(h, p.phase, k + 1, st[k], st'[k], delegated[k])
    ensures if exists k :: 0 <= k < |delegated| && delegated[k]
            then Waits(h, |st|, log[|before|].phase) && Answering(h, log[|before|].phase, st, st', delegated)
            else Played(h, c, |st|, log) && st' == StatusAfter(h, |st|, log)
  {
    hide Failing, Carries, Signals, Played, StatusAfter, Marked;
    var p := log[|before|].phase;
    if k :| 0 <= k < |delegated| && delegated[k] {
      assert h.reply(p, k + 1).Later?;
    } else {
      forall r | 1 <= r <= |st| ensures !h.reply(p, r).Later? { assert !delegated[r - 1]; }
      assert !Waits(h, |st|, p);
      assert st' == Errors(h, st, p);
      PlayedOn(h, c, |st|, log);
    }
  }

  lemma PlayedOn(h: Script, c: nat, n: nat, log: seq<Pass>)
    requires log != []
    ensures var m := |log| - 1;
            StatusAfter(h, n, log) == Errors(h, StatusAfter(h, n, log[..m]), log[m].phase)
    ensures var m := |log| - 1;
            Played(h, c, n, log) <==>
              && Played(h, c, n, log[..m])
              && (log[m].code <==> Signals(h, c, log[m].phase))
              && (log[m].suspended <==> Waits(h, n, log[m].phase))
              && log[m].failing == Failing(StatusAfter(h, n, log))
              && log[m].commitFailed == Carries(StatusAfter(h, n, log), COMMIT_FAILED)
  {
  }

  /** When every answer is in, the run is back on script. */
  lemma AllAnswered(h: Script, c: nat, log: seq<Pass>, st: seq<int>, delegated: seq<bool>, status: int)
    requires log != [] && |st| == |delegated| && forall k | 0 <= k < |delegated| :: !delegated[k]
    requires var m := |log| - 1;
             && Played(h, c, |st|, log[..m])
             && (log[m].code <==> Signals(h, c, log[m].phase)) && log[m].suspended && Waits(h, |st|, log[m].phase)
             && Answering(h, log[m].phase, StatusAfter(h, |st|, log[..m]), st, delegated)
    ensures Played(h, c, |st|, Reviewed(log, st, status)) && st == StatusAfter(h, |st|, Reviewed(log, st, status))
  {
    hide Failing, Carries, Signals;
    var m := |log| - 1;
    var log' := Reviewed(log, st, status);
    assert log'[..m] == log[..m] && log'[m].phase == log[m].phase;
    assert st == Errors(h, StatusAfter(h, |st|, log[..m]), log[m].phase);
  }

  function Rank(mode: Mode): nat {
    match mode
    case Begin => 5
    case Reserve1 => 4
    case Reserve2 => 3
    case Action => 2
    case Success => 0
    case Failure => 0
    case _ => 1
  }

  lemma GatheredNone(st: seq<int>, e: int, index: nat, status: int)
    ensures Gathered(st, {}, e, index, status, index, status)
  {
  }

  lemma ChainInRange(chains: seq<seq<nat>>, n: nat, i: nat)
    requires Partition(chains, n) && i < |chains|
    ensures forall r | r in chains[i] :: 1 <= r <= n
    ensures Upto(chains, i) !! Elems(chains[i]) && Upto(chains, i + 1) == Upto(chains, i) + Elems(chains[i])
  {
    UptoGrows(chains, i + 1, |chains|);
    assert forall r | r in chains[i] :: r in Elems(chains[i]) && r in Upto(chains, i + 1);
  }

  lemma KeepsAll(st: seq<int>)
    ensures Keeps(st, st)
  {
  }

  lemma KeepsOn(a: seq<int>, b: seq<int>, c: seq<int>)
    requires Keeps(a, b) && Keeps(b, c)
    ensures Keeps(a, c)
  {
  }

  lemma EveryoneSeen(chains: seq<seq<nat>>, n: nat)
    requires Partition(chains, n)
    ensures forall r | 1 <= r <= n :: r in Upto(chains, |chains|)
  {
  }

  lemma GatheredOne(st: seq<int>, seen: set<nat>, r: nat, e: int, index0: nat, status0: int, index: nat, status: int)
    requires Gathered(st, seen, e, index0, status0, index, status) && 1 <= r <= |st|
    ensures if st[r - 1] != NO_ERROR && (e == NO_ERROR || st[r - 1] == e) && (e != NO_ERROR || index == 0 || r <= index)
            then Gathered(st, seen + {r}, e, index0, status0, r, st[r - 1])
            else Gathered(st, seen + {r}, e, index0, status0, index, status)
  {
  }

  predicate Carries(st: seq<int>, e: int) { exists k :: 0 <= k < |st| && st[k] == e }

  /** What an error-gathering session knows between two phases. */
  ghost predicate Settled(log: seq<Pass>, st: seq<int>, mode: Mode, index: nat, status: int) {
    && Follows(log) && Justified(st, index)
    && (mode.Begin? <==> log == [])
    && (log == [] ==> LeastFailing(st, index))
    && (log != [] ==>
          var last := log[|log| - 1];
          && mode == (if mode.Finished() then Upcoming(log) else last.phase)
          && last.failing == Failing(st) && last.commitFailed == Carries(st, COMMIT_FAILED)
          && (status != NO_ERROR <==> Bad(last)) && status == last.status
          && Reported(last, st, index, status))
  }

  /** Except in COMMIT and UNDO, the index is that of the least failing
      request, and the status is that request's (a commitFailed or undoFailed
      among the others can take its place). In COMMIT it is that of a request
      with commitFailed, and in UNDO of one with undoFailed, if there is one. */
  ghost predicate Reported(last: Pass, st: seq<int>, index: nat, status: int) {
    if Last(last.phase) then
      Carries(st, SpecificTo(last.phase)) ==> Fails(st, index) && st[index - 1] == SpecificTo(last.phase)
    else
      && LeastFailing(st, index)
      && (last.failing && Fails(st, index) ==> status in {st[index - 1], COMMIT_FAILED, UNDO_FAILED})
  }

  lemma SettledFacts(log: seq<Pass>, st: seq<int>, mode: Mode, index: nat, status: int)
    requires Settled(log, st, mode, index, status)
    ensures mode.Begin? <==> log == []
    ensures !mode.Finished() && !mode.Begin? ==>
              mode == log[|log| - 1].phase && (status != NO_ERROR <==> Bad(log[|log| - 1]))
    ensures !mode.Finished() && log != [] ==> (status != NO_ERROR <==> Bad(log[|log| - 1]))
    ensures Justified(st, index) && Follows(log)
    ensures !mode.Finished() && !Upcoming(log).Finished() ==> LeastFailing(st, index)
    ensures log != [] ==> status == log[|log| - 1].status
  {
  }

  lemma Finish(log: seq<Pass>, st: seq<int>, mode: Mode, was: Mode, index: nat, status: int)
    requires Settled(log, st, was, index, status) && !was.Finished() && !was.Begin?
    requires mode == Upcoming(log) && mode.Finished()
    ensures Settled(log, st, mode, index, status)
  {
  }

  /** A phase was run without waiting (so far). */
  lemma Ran(log: seq<Pass>, p: Pass, chains: seq<seq<nat>>, st0: seq<int>, st: seq<int>,
            index0: nat, status0: int, index: nat, gathered: int, status: int)
    requires Follows(log) && p.phase == Upcoming(log) && !p.phase.Finished()
    requires !p.suspended && !p.dropped && p.status == status
    requires Partition(chains, |st|) && Keeps(st0, st) && Justified(st0, index0)
    requires p.failing == Failing(st) && p.commitFailed == Carries(st, COMMIT_FAILED)
    requires if log == [] then status0 == NO_ERROR else status0 != NO_ERROR <==> Bad(log[|log| - 1])
    requires Gathered(st, Upto(chains, |chains|), SpecificTo(p.phase), index0, status0, index, gathered)
    requires gathered == NO_ERROR ==> (status != NO_ERROR <==> p.code)
    requires gathered != NO_ERROR ==> status in {gathered, COMMIT_FAILED, UNDO_FAILED}
    ensures Settled(log + [p], st, p.phase, index, status)
    ensures (p.phase == Free || p.phase == Undo) == (status0 != NO_ERROR)
  {
    hide Follows, Partition;
    UpcomingPhase(log);
    FollowsOn(log, p);
    assert status0 != NO_ERROR <==> p.phase == Free || p.phase == Undo;
    if !Last(p.phase) {
      GatheredAll(st, chains, index0, status0, index, gathered);
    } else {
      EveryoneSeen(chains, |st|);
      if Carries(st, SpecificTo(p.phase)) {
        var k :| 0 <= k < |st| && st[k] == SpecificTo(p.phase);
        assert k + 1 in Upto(chains, |chains|) && st[k + 1 - 1] == SpecificTo(p.phase);
      }
    }
  }

  /** What a waiting session knows: its status may miss errors of requests that
      have answered since. */
  ghost predicate Unsettled(log: seq<Pass>, st: seq<int>, mode: Mode, index: nat, status: int) {
    && Follows(log) && Justified(st, index) && log != []
    && var last := log[|log| - 1];
    && mode == last.phase && last.suspended
    && (Remembered(last) ==> status != NO_ERROR)
    && (status != NO_ERROR ==> Remembered(last) || Failing(st))
  }

  /** The session's own status tells of the error, whatever the requests say. */
  predicate Remembered(p: Pass) {
    !p.dropped && (p.phase == Undo || p.phase == Free || p.code)
  }

  /** The history when the last phase has to wait. */
  function Paused(log: seq<Pass>): seq<Pass>
    requires log != []
  {
    var n := |log| - 1;
    log[..n] + [log[n].(suspended := true, dropped := !Suspended(log[..n]))]
  }

  /** The history when the requests have been looked at again. */
  function Reviewed(log: seq<Pass>, st: seq<int>, status: int): seq<Pass>
    requires log != []
  {
    var n := |log| - 1;
    log[..n] + [log[n].(failing := Failing(st), commitFailed := Carries(st, COMMIT_FAILED), status := status)]
  }

  lemma SameSuspended(log: seq<Pass>, log': seq<Pass>)
    requires log' == log || (|log'| == |log| + 1 && log'[..|log|] == log && !log'[|log|].suspended)
    ensures Suspended(log') == Suspended(log)
  {
    if Suspended(log) {
      var k :| 0 <= k < |log| && log[k].suspended;
      assert log'[k] == log[k];
    }
    if Suspended(log') {
      var k :| 0 <= k < |log'| && log'[k].suspended;
      assert log[k] == log'[k];
    }
  }

  lemma Pause(log: seq<Pass>, st: seq<int>, mode: Mode, index: nat, status: int)
    requires Settled(log, st, mode, index, status) && !mode.Finished() && !mode.Begin?
    requires !log[|log| - 1].suspended
    ensures Unsettled(Paused(log), st, mode, index, if Suspended(log) then status else NO_ERROR)
  {
    var n := |log| - 1;
    assert Paused(log)[..n] == log[..n];
    assert log[..n] + [log[n]] == log;
    SameSuspended(log[..n], log);
  }

  lemma StillUnsettled(log: seq<Pass>, st: seq<int>, st': seq<int>, mode: Mode, index: nat, status: int)
    requires Unsettled(log, st, mode, index, status) && Keeps(st, st')
    ensures Unsettled(log, st', mode, index, status)
  {
  }

  lemma Resumed(log: seq<Pass>, chains: seq<seq<nat>>, st: seq<int>, mode: Mode, index0: nat, status0: int,
                index1: nat, status1: int, index: nat, status: int)
    requires Unsettled(log, st, mode, index0, status0) && Partition(chains, |st|)
    requires Gathered(st, Upto(chains, |chains|), NO_ERROR, index0, status0, index1, status1)
    requires if Last(mode) then Gathered(st, Upto(chains, |chains|), SpecificTo(mode), index1, status1, index, status)
             else index == index1 && status == status1
    ensures var log' := Reviewed(log, st, status);
            log != [] && Settled(log', st, mode, index, status) && Suspended(log') && Justified(st, index0)
  {
    GatheredAll(st, chains, index0, status0, index1, status1);
    EveryoneSeen(chains, |st|);
    var n, log' := |log| - 1, Reviewed(log, st, status);
    assert log'[..n] == log[..n] && log'[n].suspended;
    if Last(mode) && Carries(st, SpecificTo(mode)) {
      var k :| 0 <= k < |st| && st[k] == SpecificTo(mode);
      assert k + 1 in Upto(chains, |chains|) && st[k + 1 - 1] == SpecificTo(mode);
    }
  }
}
