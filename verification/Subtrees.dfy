/** The linked nodes of the registration tree and the routines that relink
    and split whole stacks of them. */
module Subtrees {
  import opened Oids
  import opened SliceTree

  class Subtree {
    const reg: Reg
    var start: Oid
    var end: Oid
    var next: Subtree?
    var prev: Subtree?
    var children: Subtree?
    var oidOff: nat

    constructor (reg: Reg)
      requires reg.name != []
      ensures this.reg == reg && start == reg.name && end == Bump(reg.name)
      ensures next == null && prev == null && children == null && oidOff == 0
    {
      this.reg, start, end := reg, reg.name, Bump(reg.name);
      next, prev, children, oidOff := null, null, null, 0;
    }

    /** A deep copy shares no storage but keeps every link. */
    constructor Copy(a: Subtree)
      ensures reg == a.reg && start == a.start && end == a.end
      ensures next == a.next && prev == a.prev && children == a.children && oidOff == a.oidOff
    {
      reg, start, end := a.reg, a.start, a.end;
      next, prev, children, oidOff := a.next, a.prev, a.children, a.oidOff;
    }

    method ChangeNext(thenext: Subtree?)
      modifies this`next, (if thenext == null then {} else {thenext})`oidOff
      ensures next == thenext
      ensures thenext != null ==> thenext.oidOff == Diff(start, thenext.start)
    {
      next := thenext;
      if thenext != null {
        var c, off := CompareLl(start, thenext.start);
        thenext.oidOff := off;
      }
    }

    method ChangePrev(theprev: Subtree?)
      modifies this`prev, this`oidOff
      ensures prev == theprev
      ensures oidOff == if theprev != null then Diff(theprev.start, start) else old(oidOff)
    {
      prev := theprev;
      if theprev != null {
        var c, off := CompareLl(theprev.start, start);
        oidOff := off;
      }
    }
  }

  /** The k-th node of a stack, or null past its end. */
  function Nth(c: seq<Subtree>, k: nat): Subtree? {
    if k < |c| then c[k] else null
  }

  /** c is the chain of children links from its first node to the end. */
  ghost predicate Chain(c: seq<Subtree>)
    reads c
  {
    forall k {:trigger c[k].children} | 0 <= k < |c| :: c[k].children == Nth(c, k + 1)
  }

  ghost function Nodes(c: seq<Subtree>): set<Subtree> { set n | n in c }

  ghost predicate Distinct(c: seq<Subtree>) {
    forall j, k | 0 <= j < k < |c| :: c[j] != c[k]
  }

  /** Point the next link of a whole stack at one node. */
  method ChangeNextAll(head: Subtree?, thenext: Subtree?, ghost c: seq<Subtree>)
    requires Chain(c) && head == Nth(c, 0)
    modifies Nodes(c)`next, (if thenext == null then {} else {thenext})`oidOff
    ensures forall n | n in c :: n.next == thenext
    ensures thenext != null ==>
              if c == [] then thenext.oidOff == old(thenext.oidOff)
              else thenext.oidOff == Diff(c[|c| - 1].start, thenext.start)
  {
    var ptr := head;
    ghost var k := 0;
    while ptr != null
      invariant 0 <= k <= |c| && ptr == Nth(c, k)
      invariant forall j | 0 <= j < k :: c[j].next == thenext
      invariant thenext != null ==>
                  if k == 0 then thenext.oidOff == old(thenext.oidOff)
                  else thenext.oidOff == Diff(c[k - 1].start, thenext.start)
      decreases |c| - k
    {
      ptr.ChangeNext(thenext);
      ptr := ptr.children;
      k := k + 1;
    }
  }

  /** The difference offset of a node after it or its prev link was set. */
  function OffFrom(theprev: Subtree?, n: Subtree, off: nat): nat
    reads theprev, n
  {
    if theprev == null then off else Diff(theprev.start, n.start)
  }

  /** Point the prev link of a whole stack at one node. */
  method ChangePrevAll(head: Subtree?, theprev: Subtree?, ghost c: seq<Subtree>)
    requires Chain(c) && Distinct(c) && head == Nth(c, 0)
    modifies Nodes(c)`prev, Nodes(c)`oidOff
    ensures forall n | n in c :: n.prev == theprev && n.oidOff == OffFrom(theprev, n, old(n.oidOff))
  {
    var ptr := head;
    ghost var k := 0;
    while ptr != null
      invariant 0 <= k <= |c| && ptr == Nth(c, k)
      invariant forall j | 0 <= j < k :: c[j].prev == theprev && c[j].oidOff == OffFrom(theprev, c[j], old(c[j].oidOff))
      invariant forall j | k <= j < |c| :: c[j].oidOff == old(c[j].oidOff)
      decreases |c| - k
    {
      ptr.ChangePrev(theprev);
      ptr := ptr.children;
      k := k + 1;
    }
  }

  ghost predicate Disjoint(c: seq<Subtree>, d: seq<Subtree>) {
    forall j, k | 0 <= j < |c| && 0 <= k < |d| :: c[j] != d[k]
  }

  /** What every upper half looks like after a split at p. */
  ghost predicate UpperHalves(ncol: seq<Subtree>, col: seq<Subtree>, p: Oid, end: Oid)
    reads ncol
  {
    && |ncol| == |col|
    && Chain(ncol) && Distinct(ncol)
    && forall k | 0 <= k < |ncol| :: ncol[k].reg == col[k].reg && ncol[k].start == p && ncol[k].end == end
  }

  lemma ConsHalves(nw: Subtree, rest: seq<Subtree>, col: seq<Subtree>, p: Oid, end: Oid)
    returns (ncol: seq<Subtree>)
    requires col != [] && UpperHalves(rest, col[1..], p, end)
    requires nw.reg == col[0].reg && nw.start == p && nw.end == end
    requires nw.children == Nth(rest, 0) && forall k | 0 <= k < |rest| :: rest[k] != nw
    ensures UpperHalves(ncol, col, p, end)
    ensures |ncol| == |rest| + 1 == |col| && Distinct(ncol) && forall k | 0 <= k < |ncol| :: ncol[k] == if k == 0 then nw else rest[k - 1]
  {
    ncol := [nw] + rest;
    forall k | 0 <= k < |ncol|
      ensures ncol[k].children == Nth(ncol, k + 1)
      ensures ncol[k].reg == col[k].reg && ncol[k].start == p && ncol[k].end == end
    {
      if k > 0 { assert ncol[k] == rest[k - 1] && col[k] == col[1..][k - 1]; }
    }
  }

  /** Put stack ncol between stack col and the stack nxt that followed it. */
  method Interpose(ghost col: seq<Subtree>, ghost ncol: seq<Subtree>, ghost nxt: seq<Subtree>,
                   cur: Subtree, nw: Subtree, ghost end: Oid)
    requires Chain(col) && UpperHalves(ncol, col, nw.start, end) && Chain(nxt) && Distinct(nxt)
    requires cur == Nth(col, 0) && nw == Nth(ncol, 0) && nw.next == Nth(nxt, 0)
    requires Disjoint(col, ncol) && Disjoint(ncol, nxt) && Disjoint(col, nxt)
    requires forall k | 0 <= k < |ncol| :: ncol[k].next == Nth(nxt, 0)
    modifies Nodes(col)`next, Nodes(ncol)`prev, Nodes(ncol)`oidOff, Nodes(nxt)`prev, Nodes(nxt)`oidOff
    ensures UpperHalves(ncol, col, nw.start, end)
    ensures forall k | 0 <= k < |ncol| :: ncol[k].next == Nth(nxt, 0)
    ensures forall k | 0 <= k < |col| :: col[k].next == nw
    ensures forall k | 0 <= k < |ncol| :: ncol[k].prev == cur && ncol[k].oidOff == Diff(cur.start, nw.start)
    ensures forall k | 0 <= k < |nxt| :: nxt[k].prev == nw && nxt[k].oidOff == Diff(nw.start, nxt[k].start)
  {
    ChangeNextAll(cur, nw, col);
    ChangePrevAll(nw, cur, ncol);
    ChangePrevAll(nw.next, nw, nxt);
  }

  /** Split the stack that hangs from cur at p. The lower halves stay where
      they are; the upper halves are fresh nodes, chained in the same order,
      and sit between cur's stack and the following stack nxt. */
  method SplitNode(cur: Subtree, p: Oid, ghost col: seq<Subtree>, ghost nxt: seq<Subtree>)
    returns (nw: Subtree?, ghost ncol: seq<Subtree>)
    requires cur == Nth(col, 0) && Chain(col) && Distinct(col)
    requires Chain(nxt) && Distinct(nxt) && Disjoint(col, nxt)
    requires forall k | 0 <= k < |col| :: col[k].next == Nth(nxt, 0) && col[k].start == cur.start && col[k].end == cur.end
    modifies Nodes(col)`end, Nodes(col)`next, Nodes(nxt)`prev, Nodes(nxt)`oidOff
    decreases |col|, 1
    ensures nw == null <==> Lt(old(cur.end), p)
    ensures nw == null ==> ncol == [] && forall n | n in col + nxt :: unchanged(n)
    ensures nw != null ==> nw == Nth(ncol, 0) && UpperHalves(ncol, col, p, old(cur.end))
    ensures forall k | 0 <= k < |ncol| :: fresh(ncol[k]) && ncol[k].next == Nth(nxt, 0)
              && ncol[k].prev == cur && ncol[k].oidOff == Diff(cur.start, p)
    ensures nw != null ==> forall k | 0 <= k < |col| :: col[k].end == p && col[k].next == nw
    ensures nw != null ==> forall k | 0 <= k < |nxt| :: nxt[k].prev == nw && nxt[k].oidOff == Diff(p, nxt[k].start)
  {
    hide UpperHalves;
    var c := Compare(p, cur.end);
    Trichotomy(p, cur.end);
    if c > 0 {
      return null, [];
    }
    ghost var above;
    nw, above := CopyUpper(cur, p, col, nxt);
    ncol := ConsHalves(nw, above, col, p, old(cur.end));
    Interpose(col, ncol, nxt, cur, nw, old(cur.end));
  }

  /** The copying half of a split, before this stack's links are repaired. */
  method CopyUpper(cur: Subtree, p: Oid, ghost col: seq<Subtree>, ghost nxt: seq<Subtree>)
    returns (nw: Subtree, ghost above: seq<Subtree>)
    requires cur == Nth(col, 0) && Chain(col) && Distinct(col) && Leq(p, cur.end)
    requires Chain(nxt) && Distinct(nxt) && Disjoint(col, nxt)
    requires forall k | 0 <= k < |col| :: col[k].next == Nth(nxt, 0) && col[k].start == cur.start && col[k].end == cur.end
    modifies Nodes(col)`end, Nodes(col)`next, Nodes(nxt)`prev, Nodes(nxt)`oidOff
    decreases |col|, 0, 1
    ensures Chain(col) && Chain(nxt)
    ensures fresh(nw) && nw.reg == cur.reg && nw.start == p && nw.end == old(cur.end)
    ensures nw.children == Nth(above, 0) && nw.next == Nth(nxt, 0) && nw !in above
    ensures UpperHalves(above, col[1..], p, old(cur.end))
    ensures forall k | 0 <= k < |above| :: fresh(above[k]) && above[k].next == Nth(nxt, 0)
    ensures forall k | 0 <= k < |col| :: col[k].end == p
  {
    nw := new Subtree.Copy(cur);
    nw.start := p;
    nw.children, above := SplitAbove(cur, p, col, nxt);
    cur.end := p;
  }

  /** The split of everything stacked above cur. */
  method SplitAbove(cur: Subtree, p: Oid, ghost col: seq<Subtree>, ghost nxt: seq<Subtree>)
    returns (child: Subtree?, ghost above: seq<Subtree>)
    requires cur == Nth(col, 0) && Chain(col) && Distinct(col) && Leq(p, cur.end)
    requires Chain(nxt) && Distinct(nxt) && Disjoint(col, nxt)
    requires forall k | 0 <= k < |col| :: col[k].next == Nth(nxt, 0) && col[k].start == cur.start && col[k].end == cur.end
    modifies Nodes(col[1..])`end, Nodes(col[1..])`next, Nodes(nxt)`prev, Nodes(nxt)`oidOff
    decreases |col|, 0, 0
    ensures Chain(col) && Chain(nxt)
    ensures child == Nth(above, 0) && UpperHalves(above, col[1..], p, old(cur.end))
    ensures forall k | 0 <= k < |above| :: fresh(above[k]) && above[k].next == Nth(nxt, 0)
    ensures forall k | 0 < k < |col| :: col[k].end == p
  {
    ghost var rest := col[1..];
    assert forall k {:trigger col[k]} | 0 < k < |col| :: col[k] == rest[k - 1];
    if cur.children == null {
      return null, [];
    }
    Trichotomy(p, cur.end);
    child, above := SplitNode(cur.children, p, rest, nxt);
  }
}
