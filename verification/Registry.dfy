/** The registry: registration, unregistration and cached lookup over the
    linked tree of subtree nodes. */
module Registry {
  import opened Sequences
  import opened Oids
  import opened SliceTree
  import opened Subtrees

  // ----- how a grid of nodes realises a tree -----

  /** The head of stack i, or null beside the grid. */
  function HeadAt(cols: seq<seq<Subtree>>, i: int): Subtree? {
    if 0 <= i < |cols| then Nth(cols[i], 0) else null
  }

  /** Column c realises slice s: one node per registration, chained in stack
      order, every node linked to the heads of the neighbouring stacks. */
  ghost predicate Column(c: seq<Subtree>, s: Slice, nx: Subtree?, pv: Subtree?, before: Oid)
    reads c
  {
    && |c| == |s.stack| && Chain(c) && Distinct(c)
    && forall k | 0 <= k < |c| ::
         && c[k].reg == s.stack[k] && c[k].start == s.start && c[k].end == s.end
         && c[k].next == nx && c[k].prev == pv
         && (pv != null ==> c[k].oidOff == Diff(before, s.start))
  }

  function Before(t: Tree, i: int): Oid {
    if 0 < i <= |t| then t[i - 1].start else []
  }

  ghost predicate ColumnAt(cols: seq<seq<Subtree>>, t: Tree, i: int)
    requires |cols| == |t|
    reads if 0 <= i < |cols| then cols[i] else []
  {
    0 <= i < |cols| ==> Column(cols[i], t[i], HeadAt(cols, i + 1), HeadAt(cols, i - 1), Before(t, i))
  }

  ghost predicate Separate(cols: seq<seq<Subtree>>) {
    forall i, j | 0 <= i < j < |cols| :: Disjoint(cols[i], cols[j])
  }

  ghost predicate Covers(repr: set<Subtree>, cols: seq<seq<Subtree>>) {
    forall i, k | 0 <= i < |cols| && 0 <= k < |cols[i]| :: cols[i][k] in repr
  }

  ghost predicate Realises(cols: seq<seq<Subtree>>, t: Tree, repr: set<Subtree>)
    reads repr
  {
    && |cols| == |t| && Separate(cols) && Covers(repr, cols)
    && (forall i {:trigger ColumnAt(cols, t, i)} | 0 <= i < |cols| :: ColumnAt(cols, t, i))
  }

  /** Every column apart from i and i + 1 is in order. */
  ghost predicate Others(cols: seq<seq<Subtree>>, t: Tree, i: nat, repr: set<Subtree>)
    requires |cols| == |t| && Covers(repr, cols)
    reads repr
  {
    forall j {:trigger ColumnAt(cols, t, j)} | 0 <= j < |cols| && j != i && j != i + 1 :: ColumnAt(cols, t, j)
  }

  /** The nodes of all other columns lie outside columns i and i + 1. */
  lemma OthersApart(cols: seq<seq<Subtree>>, i: nat)
    requires i < |cols| && Separate(cols)
    ensures forall j, k | 0 <= j < |cols| && j != i && j != i + 1 && 0 <= k < |cols[j]| ::
              cols[j][k] !in cols[i] && (i + 1 < |cols| ==> cols[j][k] !in cols[i + 1])
  {
    forall j | 0 <= j < |cols| && j != i && j != i + 1
      ensures Disjoint(cols[j], cols[i]) && (i + 1 < |cols| ==> Disjoint(cols[j], cols[i + 1]))
    {
      assert j < i ==> Disjoint(cols[j], cols[i]);
      assert i + 1 < |cols| && j < i + 1 ==> Disjoint(cols[j], cols[i + 1]);
    }
  }

  /** The columns around a freshly split pair are in order. */
  ghost predicate Halved(cols: seq<seq<Subtree>>, t: Tree, i: nat, p: Oid, ncol: seq<Subtree>)
    requires |cols| == |t| && i < |cols|
    reads cols[i], if i + 1 < |cols| then cols[i + 1] else []
    reads ncol
  {
    && Column(cols[i], t[i].(end := p), Nth(ncol, 0), HeadAt(cols, i - 1), Before(t, i))
    && Column(ncol, t[i].(start := p), HeadAt(cols, i + 1), HeadAt(cols, i), t[i].start)
    && (i + 1 < |cols| ==> Column(cols[i + 1], t[i + 1], HeadAt(cols, i + 2), Nth(ncol, 0), p))
  }

  /** The column after i, if any. */
  function Following(cols: seq<seq<Subtree>>, i: nat): seq<Subtree> {
    if i + 1 < |cols| then cols[i + 1] else []
  }

  /** Split the nodes of column i at p. */
  method SplitColumn(cur: Subtree, p: Oid, ghost cols: seq<seq<Subtree>>, ghost t: Tree, ghost i: nat)
    returns (nw: Subtree?, ghost ncol: seq<Subtree>)
    requires |cols| == |t| && i < |cols| && cur == HeadAt(cols, i) && Disjoint(cols[i], Following(cols, i))
    requires ColumnAt(cols, t, i) && ColumnAt(cols, t, i + 1)
    requires Lt(p, t[i].end)
    modifies cols[i], Following(cols, i)
    ensures nw != null && nw == Nth(ncol, 0) && forall k | 0 <= k < |ncol| :: fresh(ncol[k])
    ensures Halved(cols, t, i, p, ncol)
  {
    ghost var nxt := Following(cols, i);
    Trichotomy(p, t[i].end);
    nw, ncol := SplitNode(cur, p, cols[i], nxt);
    assert Column(cols[i], t[i].(end := p), nw, HeadAt(cols, i - 1), Before(t, i));
    assert Column(ncol, t[i].(start := p), HeadAt(cols, i + 1), cur, t[i].start);
  }

  lemma SplitColumnAt(cols: seq<seq<Subtree>>, t: Tree, i: nat, p: Oid, ncol: seq<Subtree>,
                      repr: set<Subtree>, j: nat)
    requires |cols| == |t| && i < |cols| && Covers(repr, cols) && j <= |cols|
    requires Halved(cols, t, i, p, ncol) && Others(cols, t, i, repr)
    ensures ColumnAt(Spliced(cols, i + 1, ncol), SplitAt(t, i, p), j)
  {
    hide Column;
    var cs, u := Spliced(cols, i + 1, ncol), SplitAt(t, i, p);
    if j < i {
      assert ColumnAt(cols, t, j);
      assert cs[j] == cols[j] && u[j] == t[j] && HeadAt(cs, j + 1) == HeadAt(cols, j + 1);
      assert HeadAt(cs, j - 1) == HeadAt(cols, j - 1) && Before(u, j) == Before(t, j);
    } else if j == i {
      assert cs[i] == cols[i] && cs[i + 1] == ncol && HeadAt(cs, i - 1) == HeadAt(cols, i - 1);
    } else if j == i + 1 {
      assert cs[j] == ncol && cs[i] == cols[i] && HeadAt(cs, i + 2) == HeadAt(cols, i + 1);
    } else {
      assert j > i + 2 ==> ColumnAt(cols, t, j - 1);
      assert cs[j] == cols[j - 1] && u[j] == t[j - 1] && HeadAt(cs, j + 1) == HeadAt(cols, j);
      assert j == i + 2 ==> cs[i + 1] == ncol && u[i + 1].start == p;
      assert j > i + 2 ==> HeadAt(cs, j - 1) == HeadAt(cols, j - 2) && Before(u, j) == Before(t, j - 1);
    }
  }

  /** Assembling the grid after the split of slice i at p. */
  lemma SplitRealises(cols: seq<seq<Subtree>>, t: Tree, i: nat, p: Oid, ncol: seq<Subtree>, repr: set<Subtree>)
    requires |cols| == |t| && i < |cols| && Separate(cols) && Covers(repr, cols)
    requires forall k | 0 <= k < |ncol| :: ncol[k] !in repr
    requires Halved(cols, t, i, p, ncol) && Others(cols, t, i, repr)
    ensures Realises(Spliced(cols, i + 1, ncol), SplitAt(t, i, p), repr + Nodes(ncol))
  {
    hide Column, ColumnAt, Others, Halved;
    var cs, u := Spliced(cols, i + 1, ncol), SplitAt(t, i, p);
    forall j | 0 <= j < |cs| ensures ColumnAt(cs, u, j) { SplitColumnAt(cols, t, i, p, ncol, repr, j); }
    assert forall j | 0 <= j < |cs| :: cs[j] == if j <= i then cols[j] else if j == i + 1 then ncol else cols[j - 1];
    forall j, k | 0 <= j < k < |cs| ensures Disjoint(cs[j], cs[k]) {
      if j != i + 1 && k != i + 1 {
        assert Disjoint(cols[if j <= i then j else j - 1], cols[if k <= i then k else k - 1]);
      }
    }
  }

  /** Split slice i at p in the nodes of the grid. */
  method SplitGrid(cur: Subtree, p: Oid, ghost cols: seq<seq<Subtree>>, ghost t: Tree, ghost i: nat,
                   ghost repr: set<Subtree>)
    returns (nw: Subtree?, ghost ncol: seq<Subtree>)
    requires Realises(cols, t, repr) && i < |cols| && cur == HeadAt(cols, i)
    requires Lt(p, t[i].end)
    modifies repr
    ensures nw != null && nw == Nth(ncol, 0) && forall k | 0 <= k < |ncol| :: fresh(ncol[k])
    ensures Realises(Spliced(cols, i + 1, ncol), SplitAt(t, i, p), repr + Nodes(ncol))
  {
    assert ColumnAt(cols, t, i) && ColumnAt(cols, t, i + 1);
    nw, ncol := SplitColumn(cur, p, cols, t, i);
    OthersApart(cols, i);
    forall j | 0 <= j < |cols| && j != i && j != i + 1 ensures ColumnAt(cols, t, j) {
      assert old(ColumnAt(cols, t, j));
    }
    SplitRealises(cols, t, i, p, ncol, repr);
  }

  lemma NoEmptyColumn(cols: seq<seq<Subtree>>, t: Tree, repr: set<Subtree>)
    requires Realises(cols, t, repr) && Solid(t)
    ensures forall i | 0 <= i < |cols| :: cols[i] != []
  {
    forall i | 0 <= i < |cols| ensures cols[i] != [] {
      assert ColumnAt(cols, t, i) && t[i].stack != [];
    }
  }

  // ----- changing one stack -----

  /** Column c may take the place of column i, carrying slice s. */
  ghost predicate Around(cols: seq<seq<Subtree>>, t: Tree, i: nat, c: seq<Subtree>, s: Slice)
    requires |cols| == |t| && i < |cols|
    reads c, if i > 0 then cols[i - 1] else [], Following(cols, i)
  {
    && s.start == t[i].start
    && Column(c, s, HeadAt(cols, i + 1), HeadAt(cols, i - 1), Before(t, i))
    && (i > 0 ==> Column(cols[i - 1], t[i - 1], Nth(c, 0), HeadAt(cols, i - 2), Before(t, i - 1)))
    && (i + 1 < |cols| ==> Column(cols[i + 1], t[i + 1], HeadAt(cols, i + 2), Nth(c, 0), t[i].start))
  }

  lemma ReplaceRealises(cols: seq<seq<Subtree>>, t: Tree, i: nat, c: seq<Subtree>, s: Slice,
                        was: set<Subtree>, repr: set<Subtree>)
    requires |cols| == |t| && i < |cols| && Covers(was, cols) && Covers(repr, cols) && Covers(repr, [c])
    requires Separate(cols) && Separate(cols[i := c]) && Around(cols, t, i, c, s) && Far(cols, t, i, was)
    ensures Realises(cols[i := c], t[i := s], repr)
  {
    hide Column;
    var cs, u := cols[i := c], t[i := s];
    assert [c][0] == c;
    forall j | 0 <= j < |cs| ensures ColumnAt(cs, u, j) {
      assert Before(u, j) == Before(t, j);
      if j < i - 1 || j > i + 1 {
        assert ColumnAt(cols, t, j);
        assert HeadAt(cs, j + 1) == HeadAt(cols, j + 1) && HeadAt(cs, j - 1) == HeadAt(cols, j - 1);
      }
    }
  }

  lemma {:induction false} SlotIs(s: seq<Reg>, r: Reg, k: nat)
    requires k <= |s| && forall j | 0 <= j < k :: Above(s[j], r)
    requires k < |s| ==> !Above(s[k], r)
    ensures Slot(s, r) == k
  {
    if k > 0 { SlotIs(s[1..], r, k - 1); }
  }

  /** Walk down a stack to where reg belongs. */
  method FindSlot(head: Subtree?, reg: Reg, ghost c: seq<Subtree>, ghost s: seq<Reg>)
    returns (prev: Subtree?, next: Subtree?)
    requires Chain(c) && head == Nth(c, 0) && |c| == |s| && Ordered(s)
    requires forall j | 0 <= j < |c| :: c[j].reg == s[j]
    ensures var k := Slot(s, reg);
            next == Nth(c, k) && prev == if k > 0 then c[k - 1] else null
  {
    prev, next := null, head;
    ghost var k := 0;
    while next != null && |next.reg.name| > |reg.name|
      invariant 0 <= k <= |c| && next == Nth(c, k) && prev == if k > 0 then c[k - 1] else null
      invariant forall j | 0 <= j < k :: Above(s[j], reg)
      decreases |c| - k
    {
      prev, next := next, next.children;
      k := k + 1;
    }
    while next != null && |next.reg.name| == |reg.name| && next.reg.priority < reg.priority
      invariant 0 <= k <= |c| && next == Nth(c, k) && prev == if k > 0 then c[k - 1] else null
      invariant forall j | 0 <= j < k :: Above(s[j], reg)
      invariant next != null ==> |next.reg.name| <= |reg.name|
      decreases |c| - k
    {
      prev, next := next, next.children;
      k := k + 1;
      assert k < |s| ==> Above(s[k - 1], s[k]);
    }
    SlotIs(s, reg, k);
  }

  lemma {:induction false} PlacedAt(s: seq<Reg>, r: Reg, k: nat)
    requires k == Slot(s, r)
    ensures Placed(s, r) == Spliced(s, k, r)
  {
  }

  /** The chain links of a stack with one more node in it. */
  lemma SplicedColumn(c: seq<Subtree>, k: nat, nw: Subtree, s: Slice, nx: Subtree?, pv: Subtree?, before: Oid)
    requires k <= |c| && |c| == |s.stack| && Distinct(c) && nw !in c
    requires k == Slot(s.stack, nw.reg)
    requires nw.children == Nth(c, k) && nw.start == s.start && nw.end == s.end && nw.next == nx && nw.prev == pv
    requires pv != null ==> nw.oidOff == Diff(before, s.start)
    requires forall j | 0 <= j < |c| ::
               && c[j].children == (if j == k - 1 then nw else Nth(c, j + 1))
               && c[j].reg == s.stack[j] && c[j].start == s.start && c[j].end == s.end
               && c[j].next == nx && c[j].prev == pv
               && (pv != null ==> c[j].oidOff == Diff(before, s.start))
    ensures Column(Spliced(c, k, nw), s.(stack := Placed(s.stack, nw.reg)), nx, pv, before)
  {
    hide Spliced, Placed, Slot;
    var d := Spliced(c, k, nw);
    PlacedAt(s.stack, nw.reg, k);
    assert Distinct(d);
    assert Chain(d) by {
      assert forall j | 0 <= j < |d| :: d[j].children == Nth(d, j + 1);
    }
  }

  /** The column before i, if any. */
  function Preceding(cols: seq<seq<Subtree>>, i: nat): seq<Subtree> {
    if 0 < i <= |cols| then cols[i - 1] else []
  }

  /** Relink the following stack, carrying slice s, to h. */
  method LinkFollowing(h: Subtree, head: Subtree?, ghost c: seq<Subtree>, ghost s: Slice,
                       ghost nx: Subtree?, ghost pv: Subtree?, ghost before: Oid)
    requires c != [] ==> Column(c, s, nx, pv, before)
    requires head == Nth(c, 0) && h !in c
    modifies Nodes(c)`prev, Nodes(c)`oidOff
    ensures c != [] ==> Column(c, s, nx, h, h.start)
  {
    ChangePrevAll(head, h, c);
    assert forall k | 0 <= k < |c| :: c[k].children == old(c[k].children) && c[k].oidOff == Diff(h.start, c[k].start);
  }

  /** Relink the preceding stack, carrying slice s, to h. */
  method LinkPreceding(h: Subtree, head: Subtree?, ghost c: seq<Subtree>, ghost s: Slice,
                       ghost nx: Subtree?, ghost pv: Subtree?, ghost before: Oid)
    requires c != [] ==> Column(c, s, nx, pv, before)
    requires head == Nth(c, 0) && h !in c
    modifies Nodes(c)`next, h`oidOff
    ensures c != [] ==> Column(c, s, h, pv, before) && h.oidOff == Diff(s.start, h.start)
    ensures c == [] ==> h.oidOff == old(h.oidOff)
  {
    ChangeNextAll(head, h, c);
    assert forall k | 0 <= k < |c| :: c[k].children == old(c[k].children);
  }

  /** The neighbours of stack i are linked to h as its head. */
  ghost predicate Flanked(cols: seq<seq<Subtree>>, t: Tree, i: nat, h: Subtree)
    requires |cols| == |t| && i < |cols|
    reads Preceding(cols, i), Following(cols, i)
  {
    && (i > 0 ==> Column(cols[i - 1], t[i - 1], h, HeadAt(cols, i - 2), Before(t, i - 1)))
    && (i + 1 < |cols| ==> Column(cols[i + 1], t[i + 1], HeadAt(cols, i + 2), h, t[i].start))
  }

  /** Relink both neighbouring stacks to h as the head of stack i. */
  method LinkNeighbours(h: Subtree, ghost cols: seq<seq<Subtree>>, ghost t: Tree, ghost i: nat)
    requires |cols| == |t| && i < |cols| && ColumnAt(cols, t, i - 1) && ColumnAt(cols, t, i + 1)
    requires Disjoint(Preceding(cols, i), Following(cols, i)) && h !in Preceding(cols, i) && h !in Following(cols, i)
    requires (i > 0 ==> cols[i - 1] != []) && (i + 1 < |cols| ==> cols[i + 1] != [])
    requires h.next == HeadAt(cols, i + 1) && h.prev == HeadAt(cols, i - 1) && h.start == t[i].start
    modifies h`oidOff, Nodes(Following(cols, i))`prev, Nodes(Following(cols, i))`oidOff, Nodes(Preceding(cols, i))`next
    ensures Flanked(cols, t, i, h)
    ensures h.prev != null ==> h.oidOff == Diff(Before(t, i), t[i].start)
  {
    hide Column;
    ghost var nx, pv := Following(cols, i), Preceding(cols, i);
    ghost var none := Slice([], [], []);
    LinkFollowing(h, h.next, nx, if i + 1 < |cols| then t[i + 1] else none,
                  HeadAt(cols, i + 2), HeadAt(cols, i), Before(t, i + 1));
    LinkPreceding(h, h.prev, pv, if i > 0 then t[i - 1] else none,
                  HeadAt(cols, i), HeadAt(cols, i - 2), Before(t, i - 1));
  }

  /** Stack i shares no nodes with its neighbours, nor they with each other. */
  ghost predicate Unshared(cols: seq<seq<Subtree>>, i: nat)
    requires i < |cols|
  {
    && Disjoint(cols[i], Following(cols, i)) && Disjoint(cols[i], Preceding(cols, i))
    && Disjoint(Preceding(cols, i), Following(cols, i))
    && cols[i] != [] && (i > 0 ==> cols[i - 1] != []) && (i + 1 < |cols| ==> cols[i + 1] != [])
  }

  /** Stack i and its neighbours are in order and share no nodes. */
  ghost predicate Locale(cols: seq<seq<Subtree>>, t: Tree, i: nat)
    requires |cols| == |t| && i < |cols|
    reads cols[i], if i > 0 then cols[i - 1] else [], if i + 1 < |cols| then cols[i + 1] else []
  {
    && ColumnAt(cols, t, i) && ColumnAt(cols, t, i - 1) && ColumnAt(cols, t, i + 1)
    && Unshared(cols, i)
  }

  /** Point nw at the following stack, carrying slice s; its offsets, taken
      from the same start, do not change. */
  method PointNext(nw: Subtree, head: Subtree?, ghost c: seq<Subtree>, ghost s: Slice,
                   ghost nx: Subtree?, ghost pv: Subtree?, ghost before: Oid)
    requires c != [] ==> Column(c, s, nx, pv, before) && before == nw.start
    requires head == Nth(c, 0) && nw !in c
    modifies nw`next, Nodes(c)`oidOff
    ensures nw.next == head && (c != [] ==> Column(c, s, nx, pv, before))
  {
    nw.ChangeNext(head);
    assert forall k | 0 <= k < |c| :: c[k].children == old(c[k].children);
  }

  lemma PrecedingStart(cols: seq<seq<Subtree>>, t: Tree, i: nat)
    requires |cols| == |t| && i < |cols| && Locale(cols, t, i)
    ensures i > 0 ==> HeadAt(cols, i - 1) != null && HeadAt(cols, i - 1).start == Before(t, i)
  {
  }

  /** Give nw its place in the links of stack i, leaving the stack to be
      linked to it. */
  method Attach(nw: Subtree, children: Subtree?, prev: Subtree?, next: Subtree?,
                ghost cols: seq<seq<Subtree>>, ghost t: Tree, ghost i: nat)
    requires |cols| == |t| && i < |cols| && Locale(cols, t, i)
    requires prev == HeadAt(cols, i - 1) && next == HeadAt(cols, i + 1)
    requires nw !in cols[i] && nw !in Following(cols, i) && nw !in Preceding(cols, i)
    requires nw.start == t[i].start
    modifies nw`children, nw`next, nw`prev, nw`oidOff, Nodes(Following(cols, i))`oidOff
    ensures Locale(cols, t, i)
    ensures nw.children == children && nw.prev == prev && nw.next == next
    ensures prev != null ==> nw.oidOff == Diff(Before(t, i), t[i].start)
  {
    hide Column;
    PrecedingStart(cols, t, i);
    nw.children := children;
    nw.ChangePrev(prev);
    PointNext(nw, next, Following(cols, i), if i + 1 < |cols| then t[i + 1] else Slice([], [], []),
              HeadAt(cols, i + 2), HeadAt(cols, i), Before(t, i + 1));
  }

  lemma HeadedColumn(c: seq<Subtree>, nw: Subtree, s: Slice, nx: Subtree?, pv: Subtree?, before: Oid)
    requires Column(c, s, nx, pv, before) && nw !in c && 0 == Slot(s.stack, nw.reg)
    requires nw.children == Nth(c, 0) && nw.start == s.start && nw.end == s.end && nw.next == nx && nw.prev == pv
    requires pv != null ==> nw.oidOff == Diff(before, s.start)
    ensures Column(Spliced(c, 0, nw), s.(stack := Placed(s.stack, nw.reg)), nx, pv, before)
  {
    hide Spliced, Placed, Slot;
    SplicedColumn(c, 0, nw, s, nx, pv, before);
  }

  /** Insert nw at the head of stack i. */
  method LinkAsHead(nw: Subtree, next: Subtree, ghost cols: seq<seq<Subtree>>, ghost t: Tree, ghost i: nat)
    requires |cols| == |t| && i < |cols| && Locale(cols, t, i) && next == HeadAt(cols, i)
    requires nw !in cols[i] && nw !in Following(cols, i) && nw !in Preceding(cols, i)
    requires nw.start == t[i].start && nw.end == t[i].end && Slot(t[i].stack, nw.reg) == 0
    modifies nw`children, nw`next, nw`prev, nw`oidOff
    modifies Nodes(Following(cols, i))`prev, Nodes(Following(cols, i))`oidOff, Nodes(Preceding(cols, i))`next
    ensures Around(cols, t, i, Spliced(cols[i], 0, nw), t[i].(stack := Placed(t[i].stack, nw.reg)))
  {
    assert next.prev == HeadAt(cols, i - 1) && next.next == HeadAt(cols, i + 1);
    hide Spliced, Placed, Slot, Column, Around, Flanked;
    Attach(nw, next, next.prev, next.next, cols, t, i);
    LinkNeighbours(nw, cols, t, i);
    HeadLinked(nw, cols, t, i);
  }

  /** With the neighbours linked to it, nw heads stack i. */
  lemma HeadLinked(nw: Subtree, cols: seq<seq<Subtree>>, t: Tree, i: nat)
    requires |cols| == |t| && i < |cols| && cols[i] != [] && nw !in cols[i] && Flanked(cols, t, i, nw)
    requires Column(cols[i], t[i], HeadAt(cols, i + 1), HeadAt(cols, i - 1), Before(t, i))
    requires Slot(t[i].stack, nw.reg) == 0 && nw.children == HeadAt(cols, i) && nw.start == t[i].start && nw.end == t[i].end
    requires nw.next == HeadAt(cols, i + 1) && nw.prev == HeadAt(cols, i - 1)
    requires nw.prev != null ==> nw.oidOff == Diff(Before(t, i), t[i].start)
    ensures Around(cols, t, i, Spliced(cols[i], 0, nw), t[i].(stack := Placed(t[i].stack, nw.reg)))
  {
    hide Placed, Slot, Column;
    HeadedColumn(cols[i], nw, t[i], HeadAt(cols, i + 1), HeadAt(cols, i - 1), Before(t, i));
  }

  lemma PlaceBelow(cols: seq<seq<Subtree>>, t: Tree, i: nat, k: nat, nw: Subtree)
    requires |cols| == |t| && i < |cols| && Locale(cols, t, i) && 0 < k <= |cols[i]|
    ensures var prev := cols[i][k - 1];
            && prev.prev == HeadAt(cols, i - 1) && prev.next == HeadAt(cols, i + 1)
            && prev !in Preceding(cols, i) && prev !in Following(cols, i)
    ensures Nth(Spliced(cols[i], k, nw), 0) == HeadAt(cols, i)
  {
    assert cols[i][k - 1] in cols[i];
  }

  /** Put a linked node below prev in the children of a stack. */
  method LinkBelow(nw: Subtree, prev: Subtree, ghost c: seq<Subtree>, ghost k: nat, ghost s: Slice,
                   ghost nx: Subtree?, ghost pv: Subtree?, ghost before: Oid)
    requires Column(c, s, nx, pv, before) && 0 < k <= |c| && prev == c[k - 1] && nw !in c && k == Slot(s.stack, nw.reg)
    requires nw.children == Nth(c, k) && nw.start == s.start && nw.end == s.end && nw.next == nx && nw.prev == pv
    requires pv != null ==> nw.oidOff == Diff(before, s.start)
    modifies prev`children
    ensures Column(Spliced(c, k, nw), s.(stack := Placed(s.stack, nw.reg)), nx, pv, before)
  {
    hide Spliced, Placed, Slot;
    prev.children := nw;
    SplicedColumn(c, k, nw, s, nx, pv, before);
  }

  /** Insert nw below prev inside stack i. */
  method LinkInside(nw: Subtree, prev: Subtree, next: Subtree?, ghost cols: seq<seq<Subtree>>, ghost t: Tree,
                    ghost i: nat, ghost k: nat)
    requires |cols| == |t| && i < |cols| && Locale(cols, t, i)
    requires k == Slot(t[i].stack, nw.reg) && 0 < k <= |cols[i]|
    requires prev == cols[i][k - 1] && next == Nth(cols[i], k)
    requires nw !in cols[i] && nw !in Following(cols, i) && nw !in Preceding(cols, i)
    requires nw.start == t[i].start && nw.end == t[i].end
    modifies nw`children, nw`next, nw`prev, nw`oidOff, prev`children, Nodes(Following(cols, i))`oidOff
    ensures Around(cols, t, i, Spliced(cols[i], k, nw), t[i].(stack := Placed(t[i].stack, nw.reg)))
  {
    hide Spliced, Placed, Slot, Column, Disjoint;
    PlaceBelow(cols, t, i, k, nw);
    Attach(nw, next, prev.prev, prev.next, cols, t, i);
    assert Column(cols[i], t[i], HeadAt(cols, i + 1), HeadAt(cols, i - 1), Before(t, i));
    LinkBelow(nw, prev, cols[i], k, t[i], HeadAt(cols, i + 1), HeadAt(cols, i - 1), Before(t, i));
  }

  lemma {:induction false} WithoutIs(s: seq<Reg>, k: nat)
    requires k < |s| && Ordered(s)
    ensures Without(s, s[k]) == Cut(s, k)
  {
    if k == 0 {
      WithoutNone(s[1..], s[0]);
    } else {
      WithoutIs(s[1..], k - 1);
    }
  }

  lemma {:induction false} WithoutNone(s: seq<Reg>, r: Reg)
    requires r !in s
    ensures Without(s, r) == s
  {
    if s != [] { WithoutNone(s[1..], r); }
  }

  /** The chain links of a stack with node k taken out. */
  lemma CutColumn(c: seq<Subtree>, k: nat, s: Slice, nx: Subtree?, pv: Subtree?, before: Oid)
    requires k < |c| && |c| == |s.stack| && Distinct(c) && Ordered(s.stack)
    requires forall j | 0 <= j < |c| ::
               && c[j].children == Nth(c, if j == k - 1 then j + 2 else j + 1)
               && c[j].reg == s.stack[j] && c[j].start == s.start && c[j].end == s.end
               && c[j].next == nx && c[j].prev == pv
               && (pv != null ==> c[j].oidOff == Diff(before, s.start))
    ensures Column(Cut(c, k), s.(stack := Without(s.stack, s.stack[k])), nx, pv, before)
  {
    hide Cut, Without;
    WithoutIs(s.stack, k);
    var d := Cut(c, k);
    assert Distinct(d);
    assert Chain(d) by {
      assert forall j | 0 <= j < |d| :: d[j].children == Nth(d, j + 1);
    }
  }

  lemma BeheadedColumn(c: seq<Subtree>, s: Slice, nx: Subtree?, pv: Subtree?, before: Oid)
    requires Column(c, s, nx, pv, before) && c != [] && Ordered(s.stack)
    ensures Column(Cut(c, 0), s.(stack := Without(s.stack, s.stack[0])), nx, pv, before)
  {
    CutColumn(c, 0, s, nx, pv, before);
  }

  /** The second node of a stack, which is about to become its head. */
  lemma SecondNode(cols: seq<seq<Subtree>>, t: Tree, i: nat)
    requires |cols| == |t| && i < |cols| && Locale(cols, t, i) && |cols[i]| >= 2
    ensures var h := cols[i][1];
            && cols[i][0].children == h && cols[i][0].reg == t[i].stack[0] && |t[i].stack| == |cols[i]|
            && h.next == HeadAt(cols, i + 1) && h.prev == HeadAt(cols, i - 1) && h.start == t[i].start
            && (h.prev != null ==> h.oidOff == Diff(Before(t, i), t[i].start))
            && h !in Preceding(cols, i) && h !in Following(cols, i)
  {
    assert cols[i][1] in cols[i];
  }

  /** Link the neighbours to the second node; the stack itself stays in order. */
  method RelinkSecond(h: Subtree, ghost cols: seq<seq<Subtree>>, ghost t: Tree, ghost i: nat)
    requires |cols| == |t| && i < |cols| && Locale(cols, t, i) && |cols[i]| >= 2 && h == cols[i][1]
    requires h.next == HeadAt(cols, i + 1) && h.prev == HeadAt(cols, i - 1) && h.start == t[i].start
    requires h.prev != null ==> h.oidOff == Diff(Before(t, i), t[i].start)
    requires h !in Preceding(cols, i) && h !in Following(cols, i)
    modifies h`oidOff, Nodes(Following(cols, i))`prev, Nodes(Following(cols, i))`oidOff, Nodes(Preceding(cols, i))`next
    ensures Flanked(cols, t, i, h)
    ensures Column(cols[i], t[i], HeadAt(cols, i + 1), HeadAt(cols, i - 1), Before(t, i))
  {
    hide Flanked, Distinct;
    LinkNeighbours(h, cols, t, i);
    assert forall n | n in cols[i] :: n !in Preceding(cols, i) && n !in Following(cols, i);
    assert forall k | 0 <= k < |cols[i]| :: cols[i][k] in cols[i];
  }

  /** Take the head off a stack of at least two. */
  method UnlinkHead(sub: Subtree, ghost cols: seq<seq<Subtree>>, ghost t: Tree, ghost i: nat)
    requires |cols| == |t| && i < |cols| && Locale(cols, t, i)
    requires sub == cols[i][0] && |cols[i]| >= 2 && Ordered(t[i].stack)
    modifies Nodes(cols[i])`oidOff
    modifies Nodes(Following(cols, i))`prev, Nodes(Following(cols, i))`oidOff, Nodes(Preceding(cols, i))`next
    ensures Around(cols, t, i, Cut(cols[i], 0), t[i].(stack := Without(t[i].stack, sub.reg)))
  {
    hide Column, Without, Cut, Disjoint, Ordered;
    var h := sub.children;
    SecondNode(cols, t, i);
    RelinkSecond(h, cols, t, i);
    BeheadedColumn(cols[i], t[i], HeadAt(cols, i + 1), HeadAt(cols, i - 1), Before(t, i));
  }

  lemma InnerNode(cols: seq<seq<Subtree>>, t: Tree, i: nat, k: nat)
    requires |cols| == |t| && i < |cols| && Locale(cols, t, i) && 0 < k < |cols[i]|
    ensures Column(cols[i], t[i], HeadAt(cols, i + 1), HeadAt(cols, i - 1), Before(t, i))
    ensures |t[i].stack| == |cols[i]| && cols[i][k].reg == t[i].stack[k]
    ensures cols[i][k - 1] !in Preceding(cols, i) && cols[i][k - 1] !in Following(cols, i)
    ensures Nth(Cut(cols[i], k), 0) == HeadAt(cols, i)
  {
    assert cols[i][k - 1] in cols[i];
  }

  method UnlinkBelow(sub: Subtree, prev: Subtree, ghost c: seq<Subtree>, ghost k: nat, ghost s: Slice,
                     ghost nx: Subtree?, ghost pv: Subtree?, ghost before: Oid)
    requires Column(c, s, nx, pv, before) && 0 < k < |c| && sub == c[k] && prev == c[k - 1] && Ordered(s.stack)
    modifies prev`children
    ensures Column(Cut(c, k), s.(stack := Without(s.stack, sub.reg)), nx, pv, before)
  {
    hide Cut, Without, Ordered;
    prev.children := sub.children;
    CutColumn(c, k, s, nx, pv, before);
  }

  /** Take a node out of the inside of a stack. */
  method UnlinkInside(sub: Subtree, prev: Subtree, ghost cols: seq<seq<Subtree>>, ghost t: Tree, ghost i: nat,
                      ghost k: nat)
    requires |cols| == |t| && i < |cols| && Locale(cols, t, i)
    requires 0 < k < |cols[i]| && sub == cols[i][k] && prev == cols[i][k - 1] && Ordered(t[i].stack)
    modifies prev`children
    ensures Around(cols, t, i, Cut(cols[i], k), t[i].(stack := Without(t[i].stack, sub.reg)))
  {
    hide Cut, Without, Disjoint, Column, Ordered;
    InnerNode(cols, t, i, k);
    UnlinkBelow(sub, prev, cols[i], k, t[i], HeadAt(cols, i + 1), HeadAt(cols, i - 1), Before(t, i));
  }

  lemma LocaleAt(cols: seq<seq<Subtree>>, t: Tree, i: nat, repr: set<Subtree>)
    requires Realises(cols, t, repr) && Solid(t) && i < |cols|
    ensures Locale(cols, t, i)
  {
    NoEmptyColumn(cols, t, repr);
    assert ColumnAt(cols, t, i) && ColumnAt(cols, t, i - 1) && ColumnAt(cols, t, i + 1);
    assert i > 0 ==> Disjoint(cols[i - 1], cols[i]);
    assert i + 1 < |cols| ==> Disjoint(cols[i], cols[i + 1]);
  }

  /** Columns further away than the neighbours of i share no node with them. */
  lemma FarApart(cols: seq<seq<Subtree>>, i: nat)
    requires i < |cols| && Separate(cols)
    ensures forall j, k | 0 <= j < |cols| && (j < i - 1 || j > i + 1) && 0 <= k < |cols[j]| ::
              cols[j][k] !in cols[i] && cols[j][k] !in Preceding(cols, i) && cols[j][k] !in Following(cols, i)
  {
    forall j | 0 <= j < |cols| && (j < i - 1 || j > i + 1)
      ensures Disjoint(cols[j], cols[i]) && Disjoint(cols[j], Following(cols, i)) && Disjoint(cols[j], Preceding(cols, i))
    {
      assert j < i ==> Disjoint(cols[j], cols[i]);
      assert i + 1 < |cols| && j < i + 1 ==> Disjoint(cols[j], cols[i + 1]);
      assert i > 0 && j < i - 1 ==> Disjoint(cols[j], cols[i - 1]);
    }
  }

  /** Link nw into stack i at its slot. */
  method LinkAt(nw: Subtree, head: Subtree, prev: Subtree?, next: Subtree?,
                ghost cols: seq<seq<Subtree>>, ghost t: Tree, ghost i: nat, ghost k: nat)
    requires |cols| == |t| && i < |cols| && Locale(cols, t, i) && head == HeadAt(cols, i)
    requires k == Slot(t[i].stack, nw.reg) && k <= |cols[i]|
    requires next == Nth(cols[i], k) && prev == if k > 0 then cols[i][k - 1] else null
    requires nw !in cols[i] && nw !in Following(cols, i) && nw !in Preceding(cols, i)
    requires nw.start == t[i].start && nw.end == t[i].end
    modifies cols[i], Following(cols, i), Preceding(cols, i), nw`children, nw`next, nw`prev, nw`oidOff
    ensures Around(cols, t, i, Spliced(cols[i], k, nw), t[i].(stack := Placed(t[i].stack, nw.reg)))
  {
    hide Spliced, Placed, Around, Slot, Locale;
    if prev != null {
      LinkInside(nw, prev, next, cols, t, i, k);
    } else {
      LinkAsHead(nw, head, cols, t, i);
    }
  }

  /** The nodes outside stack i and its neighbours. */
  ghost function FarNodes(cols: seq<seq<Subtree>>, i: nat, repr: set<Subtree>): set<Subtree>
    requires i < |cols|
  {
    set n | n in repr && n !in cols[i] && n !in Preceding(cols, i) && n !in Following(cols, i)
  }

  /** The columns beyond the neighbours of i are in order. */
  ghost predicate Far(cols: seq<seq<Subtree>>, t: Tree, i: nat, repr: set<Subtree>)
    requires |cols| == |t| && i < |cols| && Separate(cols) && Covers(repr, cols)
    reads FarNodes(cols, i, repr)
  {
    FarApart(cols, i);
    forall j {:trigger ColumnAt(cols, t, j)} | 0 <= j < |cols| && (j < i - 1 || j > i + 1) :: ColumnAt(cols, t, j)
  }

  /** A grid seen from stack i: its surroundings and the rest. */
  lemma GridFacts(cols: seq<seq<Subtree>>, t: Tree, i: nat, repr: set<Subtree>)
    requires Realises(cols, t, repr) && Solid(t) && i < |cols|
    ensures |cols| == |t| && Locale(cols, t, i) && Separate(cols) && Covers(repr, cols) && Far(cols, t, i, repr)
    ensures forall n | n in cols[i] || n in Preceding(cols, i) || n in Following(cols, i) :: n in repr
    ensures Distinct(cols[i]) && cols[i] != []
    ensures forall n | n in cols[i] :: n !in Preceding(cols, i) && n !in Following(cols, i)
  {
    LocaleAt(cols, t, i, repr);
    assert ColumnAt(cols, t, i);
  }

  /** Link nw into stack i of the grid at its slot. */
  method LinkGrid(nw: Subtree, head: Subtree, prev: Subtree?, next: Subtree?,
                  ghost cols: seq<seq<Subtree>>, ghost t: Tree, ghost i: nat, ghost repr: set<Subtree>, ghost k: nat)
    requires Realises(cols, t, repr) && Solid(t) && i < |cols| && head == HeadAt(cols, i)
    requires k == Slot(t[i].stack, nw.reg) && k <= |cols[i]|
    requires next == Nth(cols[i], k) && prev == if k > 0 then cols[i][k - 1] else null
    requires nw !in repr && nw.start == t[i].start && nw.end == t[i].end
    modifies repr, nw`children, nw`next, nw`prev, nw`oidOff
    ensures Realises(cols[i := Spliced(cols[i], k, nw)], Insert(t, i, nw.reg), repr + {nw})
  {
    hide Column, ColumnAt, Locale, Spliced, Placed, Around, Slot, Far, Realises, Separate, Disjoint;
    GridFacts(cols, t, i, repr);
    ghost var far := FarNodes(cols, i, repr);
    LinkAt(nw, head, prev, next, cols, t, i, k);
    assert forall n | n in far :: unchanged(n);
    assert Far(cols, t, i, repr);
    SplicedSeparate(cols, i, k, nw, repr);
    ReplaceRealises(cols, t, i, Spliced(cols[i], k, nw), t[i].(stack := Placed(t[i].stack, nw.reg)),
                    repr, repr + {nw});
  }

  /** Merge nw into the stack whose slice it matches, unless its length and
      priority are already taken there. */
  method MergeGrid(nw: Subtree, head: Subtree, ghost cols: seq<seq<Subtree>>, ghost t: Tree, ghost i: nat,
                   ghost repr: set<Subtree>)
    returns (dup: bool, ghost c: seq<Subtree>)
    requires Realises(cols, t, repr) && Solid(t) && i < |cols| && head == HeadAt(cols, i) && Ordered(t[i].stack)
    requires nw !in repr && nw.start == t[i].start && nw.end == t[i].end
    modifies repr, nw`children, nw`next, nw`prev, nw`oidOff
    ensures dup <==> Clash(t[i].stack, nw.reg)
    ensures dup ==> forall n | n in repr :: unchanged(n)
    ensures !dup ==> Slot(t[i].stack, nw.reg) <= |cols[i]| && c == Spliced(cols[i], Slot(t[i].stack, nw.reg), nw)
    ensures !dup ==> Realises(cols[i := c], Insert(t, i, nw.reg), repr + {nw})
  {
    ghost var k := Slot(t[i].stack, nw.reg);
    assert ColumnAt(cols, t, i);
    var prev, next := FindSlot(head, nw.reg, cols[i], t[i].stack);
    if next != null && |next.reg.name| == |nw.reg.name| && next.reg.priority == nw.reg.priority {
      return true, [];
    }
    hide Spliced, Realises;
    dup, c := false, Spliced(cols[i], k, nw);
    LinkGrid(nw, head, prev, next, cols, t, i, repr, k);
  }

  lemma SplicedSeparate(cols: seq<seq<Subtree>>, i: nat, k: nat, nw: Subtree, repr: set<Subtree>)
    requires i < |cols| && k <= |cols[i]| && Separate(cols) && Covers(repr, cols) && nw !in repr
    ensures var c := Spliced(cols[i], k, nw); Separate(cols[i := c]) && Covers(repr + {nw}, [c])
  {
    var c := Spliced(cols[i], k, nw);
    hide Spliced;
    forall j | 0 <= j < |cols| && j != i ensures Disjoint(cols[j], c) && Disjoint(c, cols[j]) {
      assert Disjoint(cols[if j < i then j else i], cols[if j < i then i else j]);
    }
  }

  lemma CutSeparate(cols: seq<seq<Subtree>>, i: nat, k: nat, repr: set<Subtree>)
    requires i < |cols| && k < |cols[i]| && Separate(cols) && Covers(repr, cols)
    ensures var c := Cut(cols[i], k); Separate(cols[i := c]) && Covers(repr, [c])
  {
    var c := Cut(cols[i], k);
    hide Cut;
    forall j | 0 <= j < |cols| && j != i ensures Disjoint(cols[j], c) && Disjoint(c, cols[j]) {
      assert Disjoint(cols[if j < i then j else i], cols[if j < i then i else j]);
    }
  }

  /** Take node k out of stack i of the grid. */
  method UnlinkGrid(sub: Subtree, prev: Subtree?, ghost cols: seq<seq<Subtree>>, ghost t: Tree, ghost i: nat,
                    ghost k: nat, ghost repr: set<Subtree>)
    requires Realises(cols, t, repr) && Solid(t) && i < |cols| && k < |cols[i]| && |cols[i]| >= 2
    requires Ordered(t[i].stack) && sub == cols[i][k] && prev == if k > 0 then cols[i][k - 1] else null
    modifies repr
    ensures unchanged(sub`next) && unchanged(sub`children)
    ensures Realises(cols[i := Cut(cols[i], k)], Remove(t, i, sub.reg), repr)
  {
    hide Column, ColumnAt, Locale, Cut, Without, Around, Far, Realises, Separate, Disjoint;
    GridFacts(cols, t, i, repr);
    assert sub in cols[i] && sub in repr && (prev != null ==> prev in repr);
    ghost var far := FarNodes(cols, i, repr);
    if prev != null {
      UnlinkInside(sub, prev, cols, t, i, k);
    } else {
      UnlinkHead(sub, cols, t, i);
    }
    assert forall n | n in far :: unchanged(n);
    assert Far(cols, t, i, repr);
    CutSeparate(cols, i, k, repr);
    ReplaceRealises(cols, t, i, Cut(cols[i], k), t[i].(stack := Without(t[i].stack, sub.reg)), repr, repr);
  }

  /** Search a stack for a registration. */
  method FindIn(head: Subtree?, reg: Reg, ghost c: seq<Subtree>, ghost s: seq<Reg>)
    returns (child: Subtree?, prev: Subtree?, ghost k: nat)
    requires Chain(c) && head == Nth(c, 0) && |c| == |s| && forall j | 0 <= j < |c| :: c[j].reg == s[j]
    ensures child == null <==> reg !in s
    ensures child != null ==> k < |c| && child == c[k] && s[k] == reg && prev == if k > 0 then c[k - 1] else null
  {
    prev, child, k := null, head, 0;
    while child != null && !(child.reg.name == reg.name && child.reg.priority == reg.priority)
      invariant 0 <= k <= |c| && child == Nth(c, k) && prev == if k > 0 then c[k - 1] else null
      invariant forall j | 0 <= j < k :: s[j] != reg
      decreases |c| - k
    {
      prev, child := child, child.children;
      k := k + 1;
    }
  }

  /** Three linked nodes, one for each root, realise the initial tree. */
  lemma RootsRealise(n0: Subtree, n1: Subtree, n2: Subtree)
    requires n0.reg == Root(0) && n0.start == [0] && n0.end == [1] && n0.children == null
    requires n1.reg == Root(1) && n1.start == [1] && n1.end == [2] && n1.children == null
    requires n2.reg == Root(2) && n2.start == [2] && n2.end == [3] && n2.children == null
    requires n0.prev == null && n0.next == n1 && n1.prev == n0 && n1.next == n2 && n2.prev == n1 && n2.next == null
    requires n1.oidOff == Diff([0], [1]) && n2.oidOff == Diff([1], [2])
    ensures Realises([[n0], [n1], [n2]], INITIAL, {n0, n1, n2})
  {
    hide Common;
    var cols := [[n0], [n1], [n2]];
    assert HeadAt(cols, 0) == n0 && HeadAt(cols, 1) == n1 && HeadAt(cols, 2) == n2;
    assert Column([n0], INITIAL[0], n1, null, []);
    assert Column([n1], INITIAL[1], n2, n0, [0]);
    assert Column([n2], INITIAL[2], null, n1, [1]);
    assert ColumnAt(cols, INITIAL, 0) && ColumnAt(cols, INITIAL, 1) && ColumnAt(cols, INITIAL, 2);
  }

  /** Make and link the nodes of the three roots. */
  method MakeRoots() returns (n0: Subtree, n1: Subtree, n2: Subtree)
    ensures fresh(n0) && fresh(n1) && fresh(n2)
    ensures Realises([[n0], [n1], [n2]], INITIAL, {n0, n1, n2})
  {
    hide Realises, Lt, Bump;
    SmallOrder();
    n0 := new Subtree(Root(0));
    n1 := new Subtree(Root(1));
    n2 := new Subtree(Root(2));
    n0.ChangeNext(n1);
    n1.ChangePrev(n0);
    n1.ChangeNext(n2);
    n2.ChangePrev(n1);
    RootsRealise(n0, n1, n2);
  }

  // ----- the registry object -----

  const MAX_CACHE := 32

  datatype CacheEntry = CacheEntry(next: Subtree?, previous: Subtree?)

  /** What a lookup takes for the head of stack i: the head, except that of the
      first stack it knows only the node that the registry points at. */
  function Top(cols: seq<seq<Subtree>>, first: Subtree?, i: int): Subtree? {
    if i == 0 then first else HeadAt(cols, i)
  }

  /** A cache entry holds two neighbouring stack heads. */
  ghost predicate Adjacent(cols: seq<seq<Subtree>>, first: Subtree?, e: CacheEntry) {
    exists i {:trigger Top(cols, first, i)} :: 0 < i < |cols|
      && e.next == Top(cols, first, i) && e.previous == Top(cols, first, i - 1)
      && e.next != null && e.previous != null
  }

  /** What the linked structure stands for: its stacks, the tree they realise,
      the nodes in use, the registrations with their extents, and the place in
      the first stack of the node that the registry points at. */
  datatype Model = Model(cols: seq<seq<Subtree>>, t: Tree, repr: set<Subtree>, ext: map<Reg, Extent>, at: nat)

  /** The registry points at the node of the root {0}. */
  ghost predicate Pointed(first: Subtree?, g: Model) {
    && |g.cols| == |g.t| > 0 && g.at < |g.cols[0]| == |g.t[0].stack|
    && first == g.cols[0][g.at] && g.t[0].stack[g.at] == Root(0)
  }

  /** The model after a node was merged into stack i. */
  ghost function Merged(g: Model, i: nat, nw: Subtree, end: Oid): Model
    requires i < |g.cols| == |g.t| && Slot(g.t[i].stack, nw.reg) <= |g.cols[i]|
    reads nw
  {
    var k := Slot(g.t[i].stack, nw.reg);
    Model(g.cols[i := Spliced(g.cols[i], k, nw)], Insert(g.t, i, nw.reg), g.repr + {nw},
          g.ext[nw.reg := Extent(nw.reg.name, end)], if i == 0 && k <= g.at then g.at + 1 else g.at)
  }

  lemma MergedPointed(first: Subtree?, g: Model, i: nat, nw: Subtree, end: Oid)
    requires Pointed(first, g) && i < |g.cols| && Slot(g.t[i].stack, nw.reg) <= |g.cols[i]|
    ensures Pointed(first, Merged(g, i, nw, end))
  {
    hide Slot;
    PlacedAt(g.t[i].stack, nw.reg, Slot(g.t[i].stack, nw.reg));
  }

  lemma SplitPointed(first: Subtree?, g: Model, i: nat, p: Oid, ncol: seq<Subtree>, repr: set<Subtree>)
    requires Pointed(first, g) && i < |g.cols|
    ensures Pointed(first, Model(Spliced(g.cols, i + 1, ncol), SplitAt(g.t, i, p), repr, g.ext, g.at))
  {
  }

  lemma CutPointed(first: Subtree?, g: Model, i: nat, k: nat, r: Reg, ext: map<Reg, Extent>)
    requires Pointed(first, g) && i < |g.cols| && k < |g.cols[i]| == |g.t[i].stack| && g.t[i].stack[k] == r
    requires Ordered(g.t[i].stack) && (i == 0 ==> g.at < k)
    ensures Pointed(first, Model(g.cols[i := Cut(g.cols[i], k)], Remove(g.t, i, r), g.repr, ext, g.at))
  {
    WithoutIs(g.t[i].stack, k);
  }

  datatype Op = Add(reg: Reg) | Drop(reg: Reg)

  class Mib {
    var first: Subtree?
    var cacheSize: nat
    var cacheCount: nat
    var currentPos: nat
    const cache: array<CacheEntry>
    ghost var g: Model

    /** Live cache entries are adjacent pairs, and the ring fills in order. */
    ghost predicate CacheOk()
      reads this, cache
    {
      && cache.Length == MAX_CACHE && cacheSize <= MAX_CACHE
      && (cacheSize > 0 ==>
            && cacheCount <= cacheSize && currentPos < cacheSize
            && (cacheCount < cacheSize ==> currentPos == cacheCount)
            && forall c | 0 <= c < cacheCount :: Adjacent(g.cols, first, cache[c]))
    }

    ghost predicate Linked()
      reads this, g.repr
    {
      Pointed(first, g) && Realises(g.cols, g.t, g.repr) && Solid(g.t)
    }

    ghost function Entry(i: int): Subtree?
      reads this
    {
      Top(g.cols, first, i)
    }

    // ----- the lookup cache -----

    /** Store a pair in the next place of the ring. */
    method CacheAdd(next: Subtree, previous: Subtree)
      requires CacheOk() && cacheSize > 0 && Adjacent(g.cols, first, CacheEntry(next, previous))
      modifies this`cacheCount, this`currentPos, cache
      ensures CacheOk() && cache[..] == old(cache[..])[old(currentPos) := CacheEntry(next, previous)]
      ensures cacheCount == (if old(cacheCount) < cacheSize then old(cacheCount) + 1 else cacheSize)
      ensures currentPos == if old(currentPos) + 1 < cacheSize then old(currentPos) + 1 else 0
    {
      hide Adjacent;
      if cacheCount < cacheSize {
        cacheCount := cacheCount + 1;
      }
      cache[currentPos] := CacheEntry(next, previous);
      currentPos := currentPos + 1;
      if currentPos >= cacheSize {
        currentPos := 0;
      }
    }

    /** A cache slot holds the heads of stacks i - 1 and i, and x does not lie
        before the former. */
    ghost predicate Hit(slot: int, i: nat, x: Oid)
      requires cache.Length == MAX_CACHE
      reads this, cache, g.repr
    {
      && 0 <= slot < cacheCount && slot < MAX_CACHE && 0 < i < |g.cols|
      && cache[slot].next == Entry(i) && cache[slot].next != null
      && cache[slot].previous == Entry(i - 1) && cache[slot].previous in g.repr
      && Leq(cache[slot].previous.start, x)
    }

    /** A live entry of no use for x: it starts behind it. */
    ghost predicate Beyond(slot: int, x: Oid)
      reads this, cache, g.repr
    {
      && 0 <= slot < cache.Length && cache[slot].previous != null && cache[slot].previous in g.repr
      && Lt(x, cache[slot].previous.start)
    }

    /** The last live entry whose first node does not lie after name; cmp is
        left alone when there is none. */
    method CacheFind(name: Oid, cmp0: int) returns (slot: int, cmp: int, ghost at: nat)
      requires CacheOk() && cacheSize > 0 && Covers(g.repr, g.cols) && Pointed(first, g)
      ensures slot == -1 || Hit(slot, at, name)
      ensures cmp == if slot == -1 then cmp0 else Cmp(name, cache[slot].previous.start)
      ensures forall c | slot < c < cacheCount :: Beyond(c, name)
    {
      slot, cmp, at := -1, cmp0, 0;
      var i := 0;
      while i < cacheCount && i < cacheSize
        invariant slot == -1 || Hit(slot, at, name)
        invariant cmp == if slot == -1 then cmp0 else Cmp(name, cache[slot].previous.start)
        invariant 0 <= i <= cacheCount && forall c | slot < c < i :: Beyond(c, name)
      {
        assert Adjacent(g.cols, first, cache[i]);
        var c := Compare(name, cache[i].previous.start);
        Trichotomy(name, cache[i].previous.start);
        if c >= 0 {
          slot, cmp := i, c;
          at :| 0 < at < |g.cols| && cache[i].next == Top(g.cols, first, at)
                && cache[i].previous == Top(g.cols, first, at - 1);
        }
        i := i + 1;
      }
    }

    method InvalidateCache()
      requires cache.Length == MAX_CACHE && cacheSize <= MAX_CACHE
      modifies this`cacheCount, this`currentPos
      ensures CacheOk() && cacheCount == 0 && currentPos == 0
    {
      cacheCount, currentPos := 0, 0;
    }

    // ----- lookup -----

    lemma EntryFacts(i: int)
      requires Linked() && 0 <= i < |g.cols|
      ensures |g.cols| == |g.t| && Entry(i) != null && Entry(i) in g.repr
      ensures Entry(i).start == g.t[i].start && Entry(i).end == g.t[i].end && Entry(i).next == Entry(i + 1)
      ensures i > 0 ==> Entry(i).oidOff == Diff(g.t[i - 1].start, g.t[i].start)
      ensures g.t[i].stack != [] && Entry(i).reg == if i == 0 then Root(0) else g.t[i].stack[0]
    {
      NoEmptyColumn(g.cols, g.t, g.repr);
      assert ColumnAt(g.cols, g.t, i);
      assert i > 0 ==> ColumnAt(g.cols, g.t, i - 1);
    }

    /** The scan over stack heads from head i on, with the comparison skip. */
    method Walk(name: Oid, head: Subtree?, before: Subtree?, ghost i: nat)
      returns (myptr: Subtree?, previous: Subtree?)
      requires Linked()
      requires i <= |g.cols| && head == Entry(i)
      ensures var k := Scan(g.t, name, i); myptr == Entry(k) && previous == if k == i then before else Entry(k - 1)
    {
      hide Realises, Solid, Pointed;
      myptr, previous := head, before;
      var llOff := 0;
      ghost var k := i;
      Sizes();
      while myptr != null
        invariant i <= k <= |g.cols| && myptr == Entry(k) && previous == if k == i then before else Entry(k - 1)
        invariant forall j | i <= j < k :: Leq(g.t[j].start, name)
        invariant llOff != 0 ==> k > i && llOff == Diff(name, g.t[k - 1].start)
        decreases |g.cols| - k
      {
        EntryFacts(k);
        Trichotomy(name, g.t[k].start);
        if llOff != 0 && myptr.oidOff != 0 && myptr.oidOff > llOff {
          SkipSound(name, g.t[k - 1].start, g.t[k].start);
        } else {
          var c;
          c, llOff := CompareLl(name, myptr.start);
          if c < 0 {
            break;
          }
        }
        previous, myptr := myptr, myptr.next;
        k := k + 1;
      }
      if k < |g.cols| { EntryFacts(k); }
      ScanFrom(g.t, name, i, k);
    }

    lemma Sizes()
      requires Linked()
      ensures 0 < |g.cols| == |g.t| && Tiles(g.t) && Covers(g.repr, g.cols)
    {
    }

    lemma StartsBefore(slot: int, i: nat, x: Oid)
      requires Linked() && cache.Length == MAX_CACHE && Hit(slot, i, x)
      ensures |g.t| == |g.cols| && Scan(g.t, x, 0) == Scan(g.t, x, i)
    {
      EntryFacts(i - 1);
      TotalOrder();
      ScanOn(g.t, x, i);
    }

    /** Store a pair of neighbouring heads, over the entry it improves on if any. */
    method Remember(slot: int, myptr: Subtree, previous: Subtree, ghost k: nat)
      requires CacheOk() && cacheSize > 0 && (slot == -1 || 0 <= slot < cacheCount)
      requires 0 < k < |g.cols| && myptr == Entry(k) && previous == Entry(k - 1)
      modifies this`cacheCount, this`currentPos, cache
      ensures CacheOk() && cacheCount >= old(cacheCount)
      ensures cache[..] == old(cache[..])[if slot >= 0 then slot else old(currentPos) := CacheEntry(myptr, previous)]
    {
      assert Adjacent(g.cols, first, CacheEntry(myptr, previous));
      if slot >= 0 {
        cache[slot] := CacheEntry(myptr, previous);
      } else {
        CacheAdd(myptr, previous);
      }
    }

    /** The cached, comparison-skipping scan returns exactly what the plain
        linear scan returns, whatever the cache holds, from the first stack or
        from a stack that the caller names. */
    method FindPrev(name: Oid, subtree: Subtree?, ghost from: nat) returns (previous: Subtree?)
      requires Linked() && CacheOk() && if subtree == null then from == 0 else from < |g.cols| && subtree == Entry(from)
      modifies this`cacheCount, this`currentPos, cache
      ensures CacheOk() && from <= |g.t|
      ensures var k := Scan(g.t, name, from); previous == if k == from then null else Entry(k - 1)
    {
      hide Realises, Solid, Pointed;
      Sizes();
      var slot, cmp, myptr := -1, 1, subtree;
      previous := null;
      ghost var i := from;
      if subtree == null {
        slot, cmp, myptr, previous, i := Start(name);
      }
      myptr, previous := Walk(name, myptr, previous, i);
      if myptr != null && cacheSize > 0 && previous != null && cmp != 0 {
        Remember(slot, myptr, previous, Scan(g.t, name, i));
      }
    }

    /** Where to start walking: from the pair that the cache knows, or from the
        first stack. */
    method Start(name: Oid) returns (slot: int, cmp: int, myptr: Subtree?, previous: Subtree?, ghost i: nat)
      requires Linked() && CacheOk()
      ensures slot == -1 || 0 <= slot < cacheCount
      ensures cacheSize == 0 ==> slot == -1
      ensures i < |g.cols| == |g.t| && myptr == Entry(i) && previous == if i == 0 then null else Entry(i - 1)
      ensures Scan(g.t, name, 0) == Scan(g.t, name, i)
      ensures cmp == if slot == -1 then 1 else Cmp(name, if previous != null then previous.start else name)
    {
      hide Realises, Solid, Pointed;
      Sizes();
      slot, cmp, myptr, previous, i := -1, 1, null, null, 0;
      if cacheSize > 0 {
        slot, cmp, i := CacheFind(name, cmp);
        if slot >= 0 {
          myptr, previous := cache[slot].next, cache[slot].previous;
          StartsBefore(slot, i, name);
        }
      }
      if myptr == null {
        i, myptr := 0, first;
      }
    }

    /** The stack whose slice contains name, from the first or the named one on,
        if any. */
    method Find(name: Oid, subtree: Subtree?, ghost from: nat) returns (r: Subtree?)
      requires Linked() && CacheOk() && if subtree == null then from == 0 else from < |g.cols| && subtree == Entry(from)
      modifies this`cacheCount, this`currentPos, cache
      ensures CacheOk()
      ensures r == null <==> !exists i :: from <= i && At(g.t, i, name)
      ensures r != null ==> exists i: nat :: from <= i && At(g.t, i, name) && r == Entry(i)
    {
      hide Realises, Solid, Pointed, Tiles;
      Sizes();
      ScanFinds(g.t, name, from);
      r := FindPrev(name, subtree, from);
      ghost var k := Scan(g.t, name, from);
      if r != null {
        EntryFacts(k - 1);
        var c := Compare(name, r.end);
        Trichotomy(name, r.end);
        if c >= 0 {
          r := null;
        }
      } else if k > from {
        EntryFacts(k - 1);
      }
    }

    // ----- loading and unloading registrations -----

    /** The linked structure represents the registrations on their extents. */
    ghost predicate Sound()
      reads this, g.repr
    {
      Linked() && Settled(g.t, g.ext)
    }

    /** nw carries the rest of its registration's region from where the loaded
        part ends, or the whole region of one that is already there. */
    ghost predicate Loadable(nw: Subtree)
      reads this, nw
    {
      && Piece(g.ext, nw.reg, nw.start, nw.end)
      && nw.children == null
    }

    ghost predicate Matches(i: int, nw: Subtree)
      reads this, nw
    {
      0 <= i < |g.t| && g.t[i].start == nw.start && g.t[i].end == nw.end
    }

    /** Merge a node into the slice it matches. The registry keeps pointing at
        the same first node, even when the new one takes its place as head. */
    method Merge(nw: Subtree, head: Subtree, ghost i: nat) returns (dup: bool)
      requires Sound() && Loadable(nw) && nw !in g.repr && Matches(i, nw) && head == HeadAt(g.cols, i)
      modifies this`g, g.repr, nw`children, nw`next, nw`prev, nw`oidOff
      ensures dup <==> old(g.ext[nw.reg]) == Full(nw.reg)
      ensures dup ==> unchanged(this) && forall n | n in g.repr :: unchanged(n)
      ensures !dup ==> Sound() && g.repr == old(g.repr) + {nw} && g.t == Insert(old(g.t), i, nw.reg)
      ensures !dup ==> g.ext == old(g.ext)[nw.reg := Extent(nw.reg.name, nw.end)]
    {
      hide Settled, Realises, Clash, Slot, Insert, Full, Solid, Ordered, Piece, Pointed;
      Sizes();
      MergeStep(g.t, g.ext, i, nw.reg);
      ghost var c;
      dup, c := MergeGrid(nw, head, g.cols, g.t, i, g.repr);
      if !dup {
        MergedPointed(first, g, i, nw, g.t[i].end);
        g := Merged(g, i, nw, g.t[i].end);
      }
    }

    /** Split the stack of slice i at a point inside the slice. */
    method Split(cur: Subtree, p: Oid, ghost i: nat) returns (nw: Subtree)
      requires Sound() && i < |g.t| == |g.cols| && cur == HeadAt(g.cols, i)
      requires Lt(g.t[i].start, p) && Lt(p, g.t[i].end)
      modifies this`g, g.repr
      ensures Sound() && fresh(g.repr - old(g.repr)) && g.ext == old(g.ext)
      ensures g.t == SplitAt(old(g.t), i, p) && i + 1 < |g.cols| == |g.t| && nw == HeadAt(g.cols, i + 1)
      ensures cur == HeadAt(g.cols, i) && g.t[i] == old(g.t)[i].(end := p)
      ensures g.at == old(g.at) && (i > 0 ==> g.t[0] == old(g.t)[0])
    {
      hide Settled, Realises, Lt, SplitAt, Solid, Pointed;
      SplitStep(g.t, g.ext, i, p);
      ghost var ncol;
      var n;
      n, ncol := SplitGrid(cur, p, g.cols, g.t, i, g.repr);
      nw := n;
      SplitPointed(first, g, i, p, ncol, g.repr + Nodes(ncol));
      g := Model(Spliced(g.cols, i + 1, ncol), SplitAt(g.t, i, p), g.repr + Nodes(ncol), g.ext, g.at);
    }

    lemma HeadSlice(i: int)
      requires Linked() && 0 <= i < |g.cols|
      ensures |g.t| == |g.cols| && HeadAt(g.cols, i) != null && HeadAt(g.cols, i) in g.repr
      ensures HeadAt(g.cols, i).start == g.t[i].start && HeadAt(g.cols, i).end == g.t[i].end
    {
      NoEmptyColumn(g.cols, g.t, g.repr);
      assert ColumnAt(g.cols, g.t, i);
    }

    /** A node whose slice is there already, or one that is linked to nothing. */
    ghost predicate Fitted(nw: Subtree)
      reads this, nw
    {
      && (nw.next == null || exists i :: Matches(i, nw))
      && (nw.reg in g.ext && nw.reg.name != [] && g.ext[nw.reg] == Full(nw.reg) ==>
            nw.end == Bump(nw.reg.name) || exists i :: Matches(i, nw))
    }

    /** Is the registry's pointer to the first stack good enough to load nw: it
        is right, or nw starts behind the first slice? */
    ghost predicate Reachable(nw: Subtree)
      reads this, nw
    {
      g.at == 0 || (|g.t| > 0 && Leq(g.t[0].end, nw.start))
    }

    /** The slice that nw starts in, split so that it begins where nw does. */
    method Approach(nw: Subtree) returns (tree1: Subtree, ghost i: nat)
      requires Sound() && CacheOk() && cacheSize == 0 && Loadable(nw) && nw !in g.repr && Fitted(nw) && Reachable(nw)
      modifies this`g, this`cacheCount, this`currentPos, cache, g.repr
      ensures Sound() && CacheOk() && fresh(g.repr - old(g.repr)) && g.ext == old(g.ext) && Reachable(nw)
      ensures i < |g.t| == |g.cols| && tree1 == HeadAt(g.cols, i) && g.t[i].start == nw.start
      ensures g.ext[nw.reg] == Full(nw.reg) ==> g == old(g) && forall n | n in g.repr :: unchanged(n)
      ensures (exists j :: old(Matches(j, nw))) ==> g == old(g) && g.t[i].end == nw.end
      ensures Remaining(g.t, nw.start) == old(Remaining(g.t, nw.start))
      ensures g.ext[nw.reg] == Full(nw.reg) ==> Leq(g.t[i].end, nw.end)
    {
      hide Settled, Realises, Lt, Solid, SplitAt, Pointed, Adjacent;
      Sizes();
      tree1, i := FindSlice(nw);
      HeadSlice(i);
      PieceAt(g.t, g.ext, i, nw.reg, nw.start, nw.end);
      ApproachStep(g.t, g.ext, i, nw.start);
      if nw.start != tree1.start {
        tree1 := Split(tree1, nw.start, i);
        i := i + 1;
      }
    }

    /** The head of the slice that nw starts in. */
    method FindSlice(nw: Subtree) returns (r: Subtree, ghost i: nat)
      requires Sound() && CacheOk() && Loadable(nw) && Reachable(nw)
      modifies this`cacheCount, this`currentPos, cache
      ensures CacheOk() && i < |g.cols| && At(g.t, i, nw.start) && r == HeadAt(g.cols, i)
    {
      hide Settled, Realises, Lt, Leq, Solid, Pointed, Adjacent, Piece;
      PieceHasSlice(g.t, g.ext, nw.reg, nw.start, nw.end);
      var found := Find(nw.start, null, 0);
      i :| At(g.t, i, nw.start) && found == Entry(i);
      TopIsHead(nw, i);
      r := found;
    }

    lemma TopIsHead(nw: Subtree, i: nat)
      requires Linked() && Reachable(nw) && At(g.t, i, nw.start)
      ensures i < |g.cols| && Entry(i) == HeadAt(g.cols, i)
    {
      TotalOrder();
    }

    /** Load a subtree: merge it into the slice it matches, after splitting
        whichever of the two reaches further, and recursing on the rest. */
    method Load(nw: Subtree) returns (ok: bool)
      requires Sound() && CacheOk() && cacheSize == 0 && Loadable(nw) && nw !in g.repr && Fitted(nw) && Reachable(nw)
      modifies this`g, this`cacheCount, this`currentPos, cache, g.repr, nw
      decreases Remaining(g.t, nw.start), if exists i :: Matches(i, nw) then 0 else 1
      ensures ok <==> old(g.ext[nw.reg]) != Full(nw.reg)
      ensures ok ==> Sound() && CacheOk() && fresh(g.repr - old(g.repr) - {nw})
      ensures ok ==> g.ext == old(g.ext)[nw.reg := Extent(nw.reg.name, old(nw.end))]
      ensures ok && old(exists i :: Matches(i, nw)) ==> SameCuts(g.t, old(g.t))
      ensures !ok ==> g == old(g) && CacheOk() && forall n | n in g.repr :: unchanged(n)
    {
      hide Settled, Realises, Lt, Solid, SplitAt, Pointed, Adjacent;
      var tree1; ghost var i;
      tree1, i := Approach(nw);
      HeadSlice(i);
      Trichotomy(nw.end, tree1.end);
      var c := Compare(nw.end, tree1.end);
      if c > 0 {
        ok := LoadBeyond(nw, tree1, i);
      } else {
        ok := LoadWithin(nw, tree1, i, c);
      }
    }

    /** The case of a subtree that ends within, or with, its slice. */
    method LoadWithin(nw: Subtree, tree1: Subtree, ghost i: nat, c: int) returns (ok: bool)
      requires Sound() && CacheOk() && cacheSize == 0 && Loadable(nw) && nw !in g.repr
      requires i < |g.t| == |g.cols| && tree1 == HeadAt(g.cols, i) && g.t[i].start == nw.start
      requires if c < 0 then Lt(nw.end, g.t[i].end) else nw.end == g.t[i].end
      requires g.ext[nw.reg] == Full(nw.reg) ==> c >= 0
      modifies this`g, g.repr, nw`children, nw`next, nw`prev, nw`oidOff
      ensures ok <==> old(g.ext[nw.reg]) != Full(nw.reg)
      ensures ok ==> Sound() && CacheOk() && fresh(g.repr - old(g.repr) - {nw})
      ensures ok ==> g.ext == old(g.ext)[nw.reg := Extent(nw.reg.name, nw.end)]
      ensures ok && c >= 0 ==> SameCuts(g.t, old(g.t))
      ensures !ok ==> g == old(g) && CacheOk() && forall n | n in g.repr :: unchanged(n)
    {
      hide Settled, Realises, Lt, Solid, SplitAt, Pointed, Adjacent, Piece;
      StartsFirst(nw);
      if c < 0 {
        var rest := Split(tree1, nw.end, i);
      }
      var dup := Merge(nw, tree1, i);
      ok := !dup;
    }

    lemma StartsFirst(nw: Subtree)
      requires Loadable(nw)
      ensures Lt(nw.start, nw.end) && nw.reg in g.ext
    {
    }

    /** Cut a node that is not in the tree in two. */
    static method Carve(nw: Subtree, p: Oid) returns (new2: Subtree, ghost ncol: seq<Subtree>)
      requires nw.children == null && nw.next == null && !Lt(nw.end, p)
      modifies nw`end, nw`next
      ensures fresh(new2) && nw.end == p
      ensures new2.reg == nw.reg && new2.start == p && new2.end == old(nw.end)
      ensures new2.children == null && new2.next == null
    {
      var n: Subtree?;
      assert [nw][0] == nw;
      n, ncol := SplitNode(nw, p, [nw], []);
      new2 := n;
    }

    /** What is left to load starts behind the first slice. */
    lemma FirstEnds(u: Tree, i: nat)
      requires Linked() && SameCuts(g.t, u) && Tiles(u) && i < |u|
      ensures |g.t| > 0 && Leq(g.t[0].end, u[i].end)
    {
      TotalOrder();
    }

    /** The case of a subtree that reaches beyond its first slice. */
    method LoadBeyond(nw: Subtree, tree1: Subtree, ghost i: nat) returns (ok: bool)
      requires Sound() && CacheOk() && cacheSize == 0 && Loadable(nw) && nw !in g.repr && nw.next == null && Reachable(nw)
      requires i < |g.t| == |g.cols| && tree1 == HeadAt(g.cols, i) && g.t[i].start == nw.start
      requires tree1.end == g.t[i].end && Lt(tree1.end, nw.end)
      modifies this`g, this`cacheCount, this`currentPos, cache, g.repr, nw
      decreases Remaining(g.t, nw.start), 1, 0
      ensures ok <==> old(g.ext[nw.reg]) != Full(nw.reg)
      ensures ok ==> Sound() && CacheOk() && fresh(g.repr - old(g.repr) - {nw})
      ensures ok ==> g.ext == old(g.ext)[nw.reg := Extent(nw.reg.name, old(nw.end))]
      ensures !ok ==> g == old(g) && CacheOk() && forall n | n in g.repr :: unchanged(n)
    {
      hide Settled, Realises, Lt, Leq, Solid, Piece, SplitAt, Pointed, Adjacent, Full, Linked;
      Sizes();
      PieceRest(g.t, g.ext, i, nw.reg, nw.end);
      Trichotomy(tree1.end, nw.end);
      var new2; ghost var ncol;
      new2, ncol := Carve(nw, tree1.end);
      assert Matches(i, nw);
      ok := Load(nw);
      if !ok {
        nw.next := new2.next;
        return;
      }
      SameCutsRemaining(g.t, old(g.t), new2.start);
      FirstEnds(old(g.t), i);
      ok := Load(new2);
    }

    // ----- the public operations -----

    /** Between two operations every registration covers its whole region. */
    ghost predicate Stable()
      reads this, cache, g.repr
    {
      Sound() && CacheOk() && forall r | r in g.ext :: r.name != [] && g.ext[r] == Full(r)
    }

    /** A stable state in which nothing outranks the root at the very start. */
    ghost predicate Valid()
      reads this, cache, g.repr
    {
      Stable() && Firm(g.ext)
    }

    /** Then the registry points at the head of the first stack. */
    lemma FirmFirst()
      requires Linked() && Settled(g.t, g.ext) && Firm(g.ext)
      ensures g.at == 0 && forall i :: Entry(i) == HeadAt(g.cols, i)
    {
      StackIsLive(g.t, g.ext, 0);
      HeadIsRoot(g.t, g.ext);
      assert Fits(g.t[0], g.ext);
    }

    /** The live registrations. */
    ghost function Live(): set<Reg>
      reads this
    {
      g.ext.Keys
    }

    /** Is what a lookup of x finds the authoritative registration, if any? */
    ghost predicate Right(x: Oid)
      reads this, g.repr
    {
      forall i | At(g.t, i, x) :: Entry(i) != null && Entry(i) in g.repr && Authoritative(Live(), x, Entry(i).reg)
    }

    /** It is, except in the first slice when the registry's pointer to the
        first stack is out of date. */
    lemma RightUnlessStale(x: Oid)
      requires Stable()
      ensures Right(x) <==> (g.at == 0 || !At(g.t, 0, x))
    {
      hide Realises, Solid, Lt, Leq, Prefix;
      Sizes();
      SettledHolds(g.t, g.ext);
      forall i | At(g.t, i, x) ensures Authoritative(Live(), x, g.t[i].stack[0]) {
        HeadIsAuthoritative(g.t, Live(), i, x);
      }
      if At(g.t, 0, x) {
        EntryFacts(0);
        OneHead();
        if g.at != 0 && Right(x) {
          AuthoritativeUnique(Live(), x, g.t[0].stack[0], Root(0));
        }
      }
      forall i | At(g.t, i, x) && i != 0 ensures Entry(i) != null && Entry(i) in g.repr && Authoritative(Live(), x, Entry(i).reg) {
        assert Linked() && 0 <= i < |g.cols|;
        EntryFacts(i);
      }
    }

    lemma OneHead()
      requires Linked() && Settled(g.t, g.ext)
      ensures g.t[0].stack != [] && (g.at == 0 <==> g.t[0].stack[0] == Root(0))
    {
      assert Fits(g.t[0], g.ext);
    }

    /** The node that answers for x. */
    method Resolve(x: Oid) returns (r: Subtree?)
      requires Stable()
      modifies this`cacheCount, this`currentPos, cache
      ensures Stable() && (r != null ==> r in g.repr)
      ensures r == null ==> forall q | q in Live() :: !Prefix(q.name, x)
      ensures r != null ==> (Authoritative(Live(), x, r.reg) <==> Right(x))
      ensures r != null && !Right(x) ==> r == first
    {
      hide Settled, Realises, Solid, Lt, Leq, Prefix, Pointed, Authoritative;
      r := Find(x, null, 0);
      Sizes();
      SettledHolds(g.t, g.ext);
      RightUnlessStale(x);
      if r != null {
        ghost var i :| At(g.t, i, x) && r == Entry(i);
        EntryFacts(i);
        forall j | At(g.t, j, x) ensures j == i { AtUnique(g.t, i, j, x); }
      } else {
        NowhereIsUnregistered(g.t, Live(), x);
      }
    }

    lemma HeadReg(i: int)
      requires Linked() && 0 <= i < |g.cols|
      ensures |g.t| == |g.cols| && g.t[i].stack != [] && HeadAt(g.cols, i) != null
      ensures HeadAt(g.cols, i).reg == g.t[i].stack[0]
    {
      NoEmptyColumn(g.cols, g.t, g.repr);
      assert ColumnAt(g.cols, g.t, i);
    }

    /** May the registry be changed at this name: its pointer to the first stack
        is right, or the name lies behind the first slice? */
    ghost predicate Sure(name: Oid)
      reads this
    {
      g.at == 0 || (|g.t| > 0 && Leq(g.t[0].end, name))
    }

    /** Register a name at a priority: the live set grows by exactly that
        registration, or nothing changes when it is there already. All lookups
        stay right if and only if the registration is anchored; for one that is
        not, the registry keeps pointing at the root's node, which is then the
        second of the first stack. */
    method Register(reg: Reg) returns (ok: bool)
      requires Stable() && Sure(reg.name) && reg.name != [] && reg.name[0] < 3
      modifies this, cache, g.repr
      ensures Stable() && cacheSize == old(cacheSize)
      ensures g.at == 0 <==> old(g.at) == 0 && Anchored(reg)
      ensures (forall x :: Right(x)) <==> g.at == 0
      ensures !Anchored(reg) ==>
                && |g.cols| > 0 && |g.cols[0]| > 1 && first == g.cols[0][1] && first in g.repr && first.reg == Root(0)
                && g.cols[0][0] in g.repr && g.cols[0][0].reg == reg
      ensures ok <==> reg !in old(Live())
      ensures ok ==> Live() == old(Live()) + {reg}
      ensures fresh(g.repr - old(g.repr))
      ensures !ok ==> g == old(g) && forall n | n in g.repr :: unchanged(n)
    {
      hide Settled, Realises, Solid, Lt, Leq, Piece, Bump, Right, Pointed, Firm;
      ghost var live := g.ext;
      FirmIff();
      AnchoredBehind(reg);
      ok := LoadNew(reg);
      InvalidateCache();
      FirmIff();
      StillAnchored(live, reg);
      RightEverywhere();
      if !Anchored(reg) { Registered(reg); }
    }

    lemma RightEverywhere()
      requires Stable()
      ensures (forall x :: Right(x)) <==> g.at == 0
    {
      hide Realises, Solid, Right, Lt, Leq;
      forall x { RightUnlessStale(x); }
      StartsAtZero();
      assert Right([0]) <==> g.at == 0;
    }

    /** Make a node for a registration and load it, past the cache. */
    method LoadNew(reg: Reg) returns (ok: bool)
      requires Stable() && Sure(reg.name) && reg.name != [] && reg.name[0] < 3
      modifies this, cache, g.repr
      ensures Sound() && cache.Length == MAX_CACHE && cacheSize == old(cacheSize) <= MAX_CACHE
      ensures ok <==> reg !in old(g.ext)
      ensures ok ==> g.ext == old(g.ext)[reg := Full(reg)]
      ensures fresh(g.repr - old(g.repr))
      ensures !ok ==> g == old(g) && forall n | n in g.repr :: unchanged(n)
    {
      hide Settled, Realises, Solid, Lt, Leq, Piece, Bump, Right;
      var nw := new Subtree(reg);
      var size := cacheSize;
      cacheSize := 0;
      AnnounceStep(g.t, g.ext, reg);
      if reg !in g.ext {
        g := g.(ext := g.ext[reg := Extent(reg.name, reg.name)]);
      }
      ok := Load(nw);
      cacheSize := size;
    }

    /** The pointer to the first stack is right exactly while all registrations
        are anchored. */
    lemma FirmIff()
      requires Sound() && forall r | r in g.ext :: r.name != [] && g.ext[r] == Full(r)
      ensures Firm(g.ext) <==> g.at == 0
      ensures g.at == 0 ==> forall i :: Entry(i) == HeadAt(g.cols, i)
    {
      hide Realises, Solid, Tiles, Represents, Rooted;
      if Firm(g.ext) {
        FirmFirst();
      } else {
        var r :| r in g.ext && !Anchored(r);
        Outranked(r);
      }
    }

    lemma Outranked(r: Reg)
      requires Sound() && r in g.ext && !Anchored(r) && g.ext[r] == Full(r)
      ensures g.at != 0
    {
      hide Realises;
      StartsAtZero();
      Region([0], [0]);
      StackAt(g.t, g.ext, 0, [0], r);
      assert Fits(g.t[0], g.ext);
    }

    /** What lies behind the first slice is anchored. */
    lemma AnchoredBehind(reg: Reg)
      requires Linked() && Sure(reg.name)
      ensures g.at == 0 || Anchored(reg)
    {
      StartsAtZero();
      TotalOrder();
    }

    /** The registrations other than reg are anchored after its registration
        exactly if they were before. */
    lemma StillAnchored(live: map<Reg, Extent>, reg: Reg)
      requires reg in g.ext && g.ext.Keys == live.Keys + {reg}
      ensures Firm(live) ==> Firm(g.ext - {reg})
      ensures Firm(g.ext) <==> (Firm(live) && Anchored(reg))
    {
      assert forall q | q in g.ext - {reg} :: q in live;
      assert forall q | q in live :: q in g.ext;
    }

    /** What the registration of reg means for the first stack and for lookups,
        if all others are anchored. */
    lemma Registered(reg: Reg)
      requires Stable() && reg in g.ext && Firm(g.ext - {reg})
      ensures Firm(g.ext) <==> Anchored(reg)
      ensures (forall x :: Right(x)) <==> Anchored(reg)
      ensures !Anchored(reg) ==>
                && |g.cols| > 0 && |g.cols[0]| > 1 && first == g.cols[0][1] && first in g.repr && first.reg == Root(0)
                && g.cols[0][0] in g.repr && g.cols[0][0].reg == reg
    {
      hide Realises, Solid, Right, Lt, Leq;
      EntryFacts(0);
      HeadSlice(0);
      HeadReg(0);
      forall x { RightUnlessStale(x); }
      if Anchored(reg) {
        assert forall q | q in g.ext :: q in g.ext - {reg} || q == reg;
        FirmFirst();
      } else {
        assert reg in g.ext && !Anchored(reg);
        StaleStack(reg);
        assert At(g.t, 0, [0]) by { StartsAtZero(); }
        assert !Right([0]);
      }
    }

    lemma StartsAtZero()
      requires Linked()
      ensures |g.t| > 0 && At(g.t, 0, [0])
    {
    }

    /** A registration that is not anchored stands right above the root. */
    lemma StaleStack(reg: Reg)
      requires Stable() && reg in g.ext && Firm(g.ext - {reg}) && !Anchored(reg)
      ensures g.at == 1 && g.t[0].stack[0] == reg
    {
      StartsAtZero();
      Region([0], [0]);
      StackAt(g.t, g.ext, 0, [0], reg);
      SecondIsRoot(g.t, g.ext, reg);
      assert Fits(g.t[0], g.ext);
    }

    /** Take a registration off the slice at which what is left of it begins. */
    method Unload(sub: Subtree, prev: Subtree?, ghost i: nat, ghost k: nat)
      requires Sound() && (i == 0 ==> Firm(g.ext)) && cacheSize == 0 && CacheOk() && i < |g.t| == |g.cols| && k < |g.cols[i]|
      requires sub == g.cols[i][k] && prev == (if k > 0 then g.cols[i][k - 1] else null)
      requires sub.reg in g.t[i].stack && sub.reg !in ROOTS && sub.reg in g.ext && g.ext[sub.reg].lo == g.t[i].start
      requires |g.cols[i]| == |g.t[i].stack| && g.t[i].stack[k] == sub.reg
      modifies this`g, this`cacheCount, this`currentPos, g.repr
      ensures Sound() && g.at == old(g.at) && CacheOk() && g.repr == old(g.repr) && unchanged(sub`next)
      ensures g.t == Remove(old(g.t), i, sub.reg) && |g.cols| == |g.t|
      ensures g.ext == old(g.ext)[sub.reg := Extent(old(g.t)[i].end, old(g.ext)[sub.reg].hi)]
      ensures forall j | 0 <= j < |g.t| && j != i :: HeadAt(g.cols, j) == HeadAt(old(g.cols), j)
    {
      hide Settled, Realises, Solid, Lt, Leq, Ordered, Pointed;
      if i == 0 { FirmFirst(); }
      RemoveStep(g.t, g.ext, i, sub.reg);
      UnlinkGrid(sub, prev, g.cols, g.t, i, k, g.repr);
      ghost var ext := g.ext[sub.reg := Extent(g.t[i].end, g.ext[sub.reg].hi)];
      CutPointed(first, g, i, k, sub.reg, ext);
      g := Model(g.cols[i := Cut(g.cols[i], k)], Remove(g.t, i, sub.reg), g.repr, ext, g.at);
      InvalidateCache();
    }

    /** Search stack i for a registration. */
    method FindAt(head: Subtree, reg: Reg, ghost i: nat) returns (child: Subtree?, prev: Subtree?, ghost k: nat)
      requires Linked() && i < |g.cols| && head == Entry(i)
      ensures |g.t| == |g.cols| && head.next == HeadAt(g.cols, i + 1)
      ensures Below(i) <= |g.t[i].stack| && (child == null <==> reg !in g.t[i].stack[Below(i)..])
      ensures child != null ==> k >= Below(i)
      ensures child != null && (i == 0 ==> g.at == 0) ==>
                && k < |g.cols[i]| == |g.t[i].stack| && child == g.cols[i][k] && g.t[i].stack[k] == reg
                && prev == (if k > 0 then g.cols[i][k - 1] else null)
                && child.reg == reg && child.next == HeadAt(g.cols, i + 1)
    {
      assert ColumnAt(g.cols, g.t, i);
      ghost var o := Below(i);
      child, prev, k := FindIn(head, reg, g.cols[i][o..], g.t[i].stack[o..]);
      k := k + o;
    }

    /** How many nodes of stack i a search from its entry does not see. */
    ghost function Below(i: nat): nat
      reads this
    {
      if i == 0 then g.at else 0
    }

    /** Take a registration off every slice from the one headed by list on,
        stopping at the first slice that lacks it. */
    method Sweep(head: Subtree?, reg: Reg, ghost from: nat)
      requires Sound() && from > 0 && cacheSize == 0 && CacheOk() && from <= |g.t| == |g.cols| && head == HeadAt(g.cols, from)
      requires reg in g.ext && reg !in ROOTS && g.ext[reg].lo == Frontier(g.t, from)
      modifies this`g, this`cacheCount, this`currentPos, g.repr
      ensures Sound() && g.at == old(g.at) && CacheOk() && g.ext == old(g.ext) - {reg} && g.repr == old(g.repr)
    {
      hide Settled, Realises, Lt, Leq, Ordered, Tiles;
      var list := head;
      ghost var k: nat := from;
      while list != null
        invariant Sound() && g.at == old(g.at) && CacheOk() && 0 < k <= |g.t| == |g.cols| && list == HeadAt(g.cols, k) && g.repr == old(g.repr)
        invariant reg in g.ext && g.ext[reg].lo == Frontier(g.t, k) && g.ext - {reg} == old(g.ext) - {reg}
        decreases |g.t| - k
      {
        var next := list.next;
        var child, prev;
        ghost var j;
        child, prev, j := FindAt(list, reg, k);
        if child == null {
          break;
        }
        FrontierStep(g.t, k, reg);
        Unload(child, prev, k, j);
        k := k + 1;
        list := next;
      }
      if k < |g.t| { HeadSlice(k); }
      GoneStep(g.t, g.ext, k, reg);
      g := g.(ext := g.ext - {reg});
    }

    /** Unregister a name at a priority: the live set loses exactly that
        registration. One that is not anchored is live but cannot be
        unregistered: it is not found. A failed call leaves lookup uncached from
        then on. */
    method Unregister(reg: Reg) returns (ok: bool)
      requires Stable() && (Sure(reg.name) || !Anchored(reg)) && reg !in ROOTS
      modifies this, cache, g.repr
      ensures Stable() && g.at == old(g.at) && cacheSize == if ok then old(cacheSize) else 0
      ensures ok <==> reg in old(Live()) && Anchored(reg)
      ensures ok ==> Live() == old(Live()) - {reg}
      ensures g.repr == old(g.repr)
      ensures !ok ==> g == old(g) && forall n | n in g.repr :: unchanged(n)
    {
      hide Settled, Realises, Solid, Lt, Leq, Ordered, Bump, Tiles, Adjacent, Nth, Pointed, Firm, Full;
      var size := cacheSize;
      cacheSize := 0;
      var child, prev;
      ghost var i, k;
      child, prev, i, k := Locate(reg);
      if child == null {
        return false;
      }
      Withdraw(child, prev, i, k);
      InvalidateCache();
      cacheSize := size;
      ok := true;
    }

    /** The node of a registration on the slice of its own name, if it is live
        and anchored. */
    method Locate(reg: Reg) returns (child: Subtree?, prev: Subtree?, ghost i: nat, ghost k: nat)
      requires Stable() && (Sure(reg.name) || !Anchored(reg)) && cacheSize == 0
      modifies this`cacheCount, this`currentPos, cache
      ensures CacheOk() && |g.t| == |g.cols|
      ensures child == null <==> !(reg in Live() && Anchored(reg))
      ensures child != null ==>
                && i < |g.t| && k < |g.cols[i]| == |g.t[i].stack| && child == g.cols[i][k] && g.t[i].stack[k] == reg
                && prev == (if k > 0 then g.cols[i][k - 1] else null) && (i == 0 ==> Firm(g.ext))
                && child.reg == reg && child.next == HeadAt(g.cols, i + 1) && g.ext[reg].lo == g.t[i].start
    {
      hide Settled, Realises, Solid, Lt, Leq, Ordered, Bump, Tiles, Adjacent, Nth, Pointed, Firm;
      i, k := 0, 0;
      FirmIff();
      Sizes();
      var list := Find(reg.name, first, 0);
      if list == null {
        Unnamed(reg);
        return null, null, i, k;
      }
      i :| At(g.t, i, reg.name) && list == Entry(i);
      child, prev, k := FindAt(list, reg, i);
      Named(reg, i);
      SeenFromEntry(reg, i);
    }

    /** A search from the entry of the slice of its name sees a registration
        exactly if it is live and anchored. */
    lemma SeenFromEntry(reg: Reg, i: nat)
      requires Stable() && (Sure(reg.name) || !Anchored(reg)) && At(g.t, i, reg.name) && Below(i) <= |g.t[i].stack|
      ensures reg in g.t[i].stack[Below(i)..] <==> reg in g.ext && Anchored(reg)
      ensures i == 0 && Anchored(reg) ==> g.at == 0
    {
      hide Realises;
      Named(reg, i);
      assert Fits(g.t[i], g.ext);
      FirmIff();
      TotalOrder();
    }

    /** Take a registration off its first slice and all that follow. */
    method Withdraw(child: Subtree, prev: Subtree?, ghost i: nat, ghost k: nat)
      requires Sound() && (i == 0 ==> Firm(g.ext)) && cacheSize == 0 && CacheOk() && i < |g.t| == |g.cols| && k < |g.cols[i]|
      requires child == g.cols[i][k] && prev == (if k > 0 then g.cols[i][k - 1] else null)
      requires child.reg in g.t[i].stack && child.reg !in ROOTS
      requires child.reg in g.ext && g.ext[child.reg].lo == g.t[i].start
      requires |g.cols[i]| == |g.t[i].stack| && g.t[i].stack[k] == child.reg && child.next == HeadAt(g.cols, i + 1)
      modifies this`g, this`cacheCount, this`currentPos, g.repr
      ensures Sound() && g.at == old(g.at) && CacheOk() && g.ext == old(g.ext) - {child.reg} && g.repr == old(g.repr)
    {
      hide Settled, Realises, Lt, Leq, Ordered, Tiles;
      FrontierStep(g.t, i, child.reg);
      Unload(child, prev, i, k);
      Sweep(child.next, child.reg, i + 1);
    }

    lemma Unnamed(reg: Reg)
      requires Linked() && Settled(g.t, g.ext) && !exists i :: At(g.t, i, reg.name)
      requires forall r | r in g.ext :: r.name != [] && g.ext[r] == Full(r)
      ensures reg !in g.ext
    {
      AtExists(g.t, reg.name);
    }

    lemma Named(reg: Reg, i: int)
      requires Linked() && Settled(g.t, g.ext) && At(g.t, i, reg.name)
      requires forall r | r in g.ext :: r.name != [] && g.ext[r] == Full(r)
      ensures reg in g.ext <==> reg in g.t[i].stack
      ensures reg in g.ext ==> g.t[i].start == reg.name
      ensures Frontier(g.t, i + 1) == g.t[i].end
    {
      AtExists(g.t, reg.name);
      LiveAtName(g.t, g.ext, i, reg);
      FrontierStep(g.t, i, reg);
    }

    /** One operation. */
    method Do(op: Op) returns (ok: bool)
      requires Stable()
      requires match op case Add(r) => Sure(r.name) && r.name != [] && r.name[0] < 3
                        case Drop(r) => (Sure(r.name) || !Anchored(r)) && r !in ROOTS
      modifies this, cache, g.repr
      ensures Stable() && fresh(g.repr - old(g.repr))
      ensures g.at != 0 <==> old(g.at) != 0 || (op.Add? && !Anchored(op.reg))
      ensures Live() == match op case Add(r) => old(Live()) + {r}
                                 case Drop(r) => if Anchored(r) then old(Live()) - {r} else old(Live())
    {
      hide Settled, Realises, Solid, Pointed, Firm, Right;
      ghost var live := Live();
      match op {
        case Add(r) =>
          ok := Register(r);
          assert Live() == live + {r};
        case Drop(r) =>
          ok := Unregister(r);
          assert Live() == if Anchored(r) then live - {r} else live;
      }
    }

    /** Names below the other roots lie behind the first slice. */
    lemma BehindZero()
      requires Sound()
      ensures forall x: Oid | x != [] && x[0] > 0 :: Sure(x) && !At(g.t, 0, x)
    {
      hide Realises, Tiles;
      EndsByOne();
      forall x: Oid | x != [] && x[0] > 0 ensures Sure(x) && !At(g.t, 0, x) {
        assert x == [x[0]] + x[1..] && [1] == [1] + [];
        Cons(1, [], x[0], x[1..]);
        TotalOrder();
      }
    }

    lemma EndsByOne()
      requires Sound()
      ensures |g.t| > 0 && Leq(g.t[0].end, [1])
    {
      hide Realises;
      StartsAtZero();
      Region([0], [0]);
      SmallOrder();
      assert Root(0) in ROOTS;
      StackAt(g.t, g.ext, 0, [0], Root(0));
      assert Fits(g.t[0], g.ext);
    }

    /** The tree after setup, with its three roots registered. */
    constructor (size: nat)
      requires size <= MAX_CACHE
      ensures Valid() && fresh(g.repr) && fresh(cache)
      ensures Live() == ROOTS && cacheSize == size
    {
      hide Settled, Solid, Realises;
      cache := new CacheEntry[MAX_CACHE](i => CacheEntry(null, null));
      cacheSize, cacheCount, currentPos := size, 0, 0;
      var n0, n1, n2 := MakeRoots();
      first := n0;
      g := Model([[n0], [n1], [n2]], INITIAL, {n0, n1, n2}, Whole(ROOTS), 0);
      new;
      InitialSettled();
    }
  }

  // ----- whole runs -----

  /** A run that may follow, if the registry's pointer to the first stack is
      (stale) out of date: once it is, nothing below {0} is touched any more,
      except that an attempt may be made to take back what put it out of date. */
  predicate Allowed(ops: seq<Op>, stale: bool)
    decreases |ops|
  {
    if ops == [] then true
    else
      match ops[0]
      case Add(r) =>
        && r.name != [] && r.name[0] < 3 && (stale ==> r.name[0] > 0)
        && Allowed(ops[1..], stale || !Anchored(r))
      case Drop(r) =>
        && r !in ROOTS && (stale ==> !Anchored(r) || (r.name != [] && r.name[0] > 0))
        && Allowed(ops[1..], stale)
  }

  /** Does the run put the pointer to the first stack out of date? */
  predicate Spoils(ops: seq<Op>) { exists k :: 0 <= k < |ops| && ops[k].Add? && !Anchored(ops[k].reg) }

  /** The plain set of registrations after a sequence of operations: what is not
      anchored stays. */
  function After(live: set<Reg>, ops: seq<Op>): set<Reg>
    decreases |ops|
  {
    if ops == [] then live
    else
      match ops[0]
      case Add(r) => After(live + {r}, ops[1..])
      case Drop(r) => After(if Anchored(r) then live - {r} else live, ops[1..])
  }

  /** Any run of operations, followed by a lookup: the answer is the one that the
      plain set of registrations gives, for all names if every registration was
      anchored, and otherwise for exactly those behind the first slice. */
  method Replay(m: Mib, ops: seq<Op>, x: Oid) returns (r: Subtree?)
    requires m.Valid() && Allowed(ops, false)
    modifies m, m.cache, m.g.repr
    ensures m.Stable() && m.Live() == After(old(m.Live()), ops)
    ensures r == null ==> forall q | q in m.Live() :: !Prefix(q.name, x)
    ensures r != null ==> (Authoritative(m.Live(), x, r.reg) <==> !Spoils(ops) || !At(m.g.t, 0, x))
    ensures x != [] && x[0] > 0 && r != null ==> Authoritative(m.Live(), x, r.reg)
  {
    hide Settled, Realises, Authoritative, Prefix, Solid, Pointed, Firm;
    var i := 0;
    m.FirmIff();
    while i < |ops|
      invariant 0 <= i <= |ops| && m.Stable() && fresh(m.g.repr - old(m.g.repr))
      invariant After(m.Live(), ops[i..]) == After(old(m.Live()), ops)
      invariant Allowed(ops[i..], m.g.at != 0) && (m.g.at != 0 <==> Spoils(ops[..i]))
    {
      assert ops[i] in ops && ops[i..][0] == ops[i] && ops[i..][1..] == ops[i + 1..];
      SpoilsNext(ops, i);
      m.BehindZero();
      var ok := m.Do(ops[i]);
      i := i + 1;
    }
    assert ops[..i] == ops;
    r := m.Resolve(x);
    m.RightUnlessStale(x);
    m.BehindZero();
  }

  lemma SpoilsNext(ops: seq<Op>, i: nat)
    requires i < |ops|
    ensures Spoils(ops[..i + 1]) <==> Spoils(ops[..i]) || (ops[i].Add? && !Anchored(ops[i].reg))
  {
    assert ops[..i + 1] == ops[..i] + [ops[i]];
    if Spoils(ops[..i]) {
      var k :| 0 <= k < i && ops[..i][k].Add? && !Anchored(ops[..i][k].reg);
      assert ops[..i + 1][k] == ops[k];
    }
    if ops[i].Add? && !Anchored(ops[i].reg) { assert ops[..i + 1][i] == ops[i]; }
    if Spoils(ops[..i + 1]) {
      var k :| 0 <= k < i + 1 && ops[..i + 1][k].Add? && !Anchored(ops[..i + 1][k].reg);
      assert k < i ==> ops[..i][k] == ops[k];
    }
  }

  /** What happens otherwise: after setup, {0} is registered at a priority below
      the default. It is authoritative for {0}, but a lookup still answers the
      root's registration, and it cannot be unregistered. */
  method StaleFirst(size: nat) returns (m: Mib, r: Subtree?, gone: bool)
    requires size <= MAX_CACHE
    ensures m.Stable() && m.Live() == ROOTS + {Reg([0], DEFAULT_PRIORITY - 1)}
    ensures Authoritative(m.Live(), [0], Reg([0], DEFAULT_PRIORITY - 1))
    ensures r != null && r.reg == Root(0) && !gone
  {
    hide Settled, Realises, Authoritative, Prefix, Pointed, Solid, Firm;
    var reg := Reg([0], DEFAULT_PRIORITY - 1);
    m := new Mib(size);
    m.FirmIff();
    var ok := m.Register(reg);
    Outranks();
    m.RightUnlessStale([0]);
    m.StartsAtZero();
    r := m.Resolve([0]);
    gone := m.Unregister(reg);
  }
}
