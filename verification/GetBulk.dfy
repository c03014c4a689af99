/** GETBULK: how many repetitions fit, the column by column layout in which
    they are gathered, and the row by row layout in which they are sent. */
module GetBulk {
  import opened Oids
  import Search = GetNext

  type VarType = Search.VarType

  const INT_MAX := 0x7fff_ffff
  const POINTER_SIZE := 8

  // ----- how many repetitions -----

  /** a / r and what makes it the quotient. */
  function Quotient(a: nat, r: nat): (q: nat)
    requires r > 0
    ensures q * r <= a < (q + 1) * r
  {
    assert a == a / r * r + a % r;
    assert (a / r + 1) * r == a / r * r + r;
    a / r
  }

  /** The number of cells of a grid. */
  function Area(rows: nat, columns: nat): nat { rows * columns }

  lemma Times(a: nat, b: nat, r: nat)
    requires a <= b
    ensures a * r <= b * r
  {
  }

  /** May so many answers be given? No more than configured, than the vector for
      them can hold, and than roughly fit into a message. */
  predicate Within(answers: nat, configured: int, avgVarbind: int, msgMaxSize: nat) {
    && answers <= INT_MAX / POINTER_SIZE
    && (configured >= 0 ==> answers <= if configured == 0 then 100 else configured)
    && answers * (if avgVarbind <= 0 then 15 else avgVarbind) <= msgMaxSize
  }

  lemma Fits(answers: nat, size: nat, avg: nat)
    requires avg > 0
    ensures answers * avg <= size <==> answers <= size / avg
  {
    var q := Quotient(size, avg);
    if answers <= q { Times(answers, q, avg); } else { Times(q + 1, answers, avg); }
  }

  /** The session's limit on the number of answers: the most there may be. */
  method MaxAnswers(configured: int, avgVarbind: int, msgMaxSize: nat) returns (limit: nat)
    ensures forall k: nat :: Within(k, configured, avgVarbind, msgMaxSize) <==> k <= limit
  {
    limit := if configured == 0 then 100
             else if configured < 0 || configured > INT_MAX / POINTER_SIZE then INT_MAX / POINTER_SIZE
             else configured;
    var avg := if avgVarbind <= 0 then 15 else avgVarbind;
    var fit := msgMaxSize / avg;
    if limit > fit {
      limit := fit;
    }
    forall k: nat { Fits(k, msgMaxSize, avg); }
  }

  /** Split the varbinds into n that are asked for once and r that repeat, and
      limit the repetitions so that all responses fit. They are cut down only
      to the configured number, or to the most that fit. */
  method Clamp(count: nat, errstat: int, errindex: int,
               maxRepeats: int, maxAnswers: int, avgVarbind: int, msgMaxSize: nat)
    returns (n: nat, r: nat, repeats: nat, maxresponses: nat)
    ensures n + r == count && n == if errstat < 0 then 0 else if errstat < count then errstat else count
    ensures repeats <= if errindex < 0 then 0 else errindex
    ensures repeats * r <= maxresponses <= INT_MAX / POINTER_SIZE || r == 0
    ensures r > 0 ==> forall k: nat :: Within(k, maxAnswers, avgVarbind, msgMaxSize) <==> k <= maxresponses
    ensures r > 0 && maxRepeats > 0 ==> repeats <= maxRepeats
    ensures r > 0 && repeats < errindex ==>
              (maxRepeats > 0 && repeats == maxRepeats) || (repeats + 1) * r > maxresponses
    ensures r == 0 ==> repeats == if errindex < 0 then 0 else errindex
  {
    var stat, index := if errstat < 0 then 0 else errstat, if errindex < 0 then 0 else errindex;
    n := if stat < count then stat else count;
    r := count - n;
    repeats, maxresponses := index, 0;
    if r > 0 {
      maxresponses := MaxAnswers(maxAnswers, avgVarbind, msgMaxSize);
      var most := Quotient(maxresponses, r);
      var maxbulk := if maxRepeats <= 0 || maxRepeats > most then most else maxRepeats;
      if repeats > maxbulk {
        repeats := maxbulk;
      }
      Times(repeats, most, r);
      assert Within(maxresponses, maxAnswers, avgVarbind, msgMaxSize);
    }
  }

  // ----- the varbind list -----

  datatype Entry = Entry(name: Oid, typ: VarType)

  const BLANK := Entry([], Search.Null)

  class Varbind {
    var entry: Entry
    var next: Varbind?

    constructor (entry: Entry)
      ensures this.entry == entry && next == null
    {
      this.entry, next := entry, null;
    }
  }

  function First(s: seq<Varbind>, after: Varbind?): Varbind? {
    if s == [] then after else s[0]
  }

  /** The varbinds of s follow each other, and the last is followed by after. */
  ghost predicate Links(s: seq<Varbind>, after: Varbind?)
    reads s
  {
    forall k {:trigger s[k].next} | 0 <= k < |s| :: s[k].next == if k + 1 < |s| then s[k + 1] else after
  }

  ghost predicate Distinct(s: seq<Varbind>) {
    forall j, k | 0 <= j < k < |s| :: s[j] != s[k]
  }

  ghost function Nodes(s: seq<Varbind>): set<Varbind> { set x | x in s }

  lemma LinksJoin(a: seq<Varbind>, b: seq<Varbind>, after: Varbind?)
    ensures Links(a, First(b, after)) && Links(b, after) <==> Links(a + b, after)
  {
    var s := a + b;
    if Links(a, First(b, after)) && Links(b, after) {
      forall k {:trigger s[k].next} | 0 <= k < |s|
        ensures s[k].next == if k + 1 < |s| then s[k + 1] else after
      {
        assert k < |a| ==> s[k] == a[k];
        assert k >= |a| ==> s[k] == b[k - |a|];
      }
    }
    if Links(s, after) {
      assert forall k | 0 <= k < |a| :: a[k] == s[k];
      assert forall k | 0 <= k < |b| :: b[k] == s[|a| + k];
    }
  }

  /** Repeat one varbind: link in as many new ones as asked for after it, and
      note them all in the cache from index bulkcount on. */
  method Repeat(varbind: Varbind, repeats: nat, vbsave: Varbind?, cache: array<Varbind?>, bulkcount: nat)
    returns (ghost block: seq<Varbind>)
    requires repeats > 0 && bulkcount + repeats <= cache.Length
    modifies varbind`next, cache
    ensures |block| == repeats && block[0] == varbind && Distinct(block) && Links(block, vbsave)
    ensures Block(block, varbind, repeats) && forall k | 0 < k < repeats :: fresh(block[k])
    ensures cache[..bulkcount + repeats] == old(cache[..bulkcount]) + block
  {
    hide Chain, Links, Distinct;
    var vbptr, i := varbind, 1;
    cache[bulkcount] := vbptr;
    ghost var front: seq<Varbind> := [];
    block := [vbptr];
    Begin(vbptr);
    while i < repeats
      invariant 1 <= i == |block| <= repeats && block[0] == varbind && block == front + [vbptr]
      invariant Chain(front, vbptr) && vbptr !in front && vbptr == block[i - 1]
      invariant forall k {:trigger block[k]} | 0 < k < i :: fresh(block[k]) && block[k].entry == BLANK
      invariant cache[..bulkcount + i] == old(cache[..bulkcount]) + block
    {
      var extra := new Varbind(BLANK);
      assert extra !in block;
      vbptr.next := extra;
      Extend(front, vbptr, extra);
      front := block;
      vbptr := extra;
      block := block + [vbptr];
      cache[bulkcount + i] := vbptr;
      i := i + 1;
    }
    vbptr.next := vbsave;
    Close(front, vbptr, vbsave);
  }

  /** A chain up to, and not counting the link of, its last node. */
  ghost predicate Chain(front: seq<Varbind>, last: Varbind)
    reads front
  {
    Links(front, last) && Distinct(front + [last]) && last !in front
  }

  lemma Begin(v: Varbind)
    ensures Chain([], v)
  {
  }

  lemma Close(front: seq<Varbind>, last: Varbind, after: Varbind?)
    requires Chain(front, last) && last.next == after
    ensures Links(front + [last], after) && Distinct(front + [last])
  {
  }

  /** One more node at the end of a chain. */
  lemma Extend(front: seq<Varbind>, last: Varbind, extra: Varbind)
    requires Chain(front, last) && last.next == extra && extra !in front + [last]
    ensures Chain(front + [last], extra)
  {
  }

  /** Columns one after the other. */
  ghost function Flatten(cols: seq<seq<Varbind>>): seq<Varbind> {
    if cols == [] then [] else Flatten(cols[..|cols| - 1]) + cols[|cols| - 1]
  }

  /** A repeated varbind with the new ones that follow it. */
  ghost predicate Block(block: seq<Varbind>, first: Varbind, repeats: nat)
    reads Nodes(block)`entry
  {
    && |block| == repeats && repeats > 0 && block[0] == first
    && forall k | 0 < k < repeats :: block[k].entry == BLANK
  }

  ghost predicate AllBlocks(blocks: seq<seq<Varbind>>, firsts: seq<Varbind>, repeats: nat)
    reads set i, v | 0 <= i < |blocks| && v in blocks[i] :: v`entry
  {
    |blocks| == |firsts| && forall i {:trigger blocks[i]} | 0 <= i < |blocks| :: Block(blocks[i], firsts[i], repeats)
  }

  ghost predicate Apart(a: seq<Varbind>, b: seq<Varbind>) {
    forall v | v in a :: v !in b
  }

  lemma DistinctConcat(a: seq<Varbind>, b: seq<Varbind>)
    ensures Distinct(a + b) <==> Distinct(a) && Distinct(b) && Apart(a, b)
  {
    var s := a + b;
    assert (forall k | 0 <= k < |a| :: s[k] == a[k]) && forall k | 0 <= k < |b| :: s[|a| + k] == b[k];
    if Distinct(s) {
      forall v | v in a ensures v !in b {
        var k :| 0 <= k < |a| && a[k] == v;
        assert s[k] == v;
      }
    } else {
      var j, k :| 0 <= j < k < |s| && s[j] == s[k];
      assert k < |a| ==> a[j] == a[k];
      assert j >= |a| ==> b[j - |a|] == b[k - |a|];
      assert j < |a| <= k ==> a[j] in a && b[k - |a|] in b;
    }
  }

  lemma DistinctKeep(a: seq<Varbind>, v: Varbind, b: seq<Varbind>)
    ensures a + ([v] + b) == a + [v] + b
    ensures Distinct(a + [v] + b) <==> v !in a && v !in b && Distinct(a + b)
  {
    DistinctConcat(a, b);
    DistinctConcat(a + [v], b);
    DistinctConcat(a, [v]);
  }

  lemma DistinctBlock(a: seq<Varbind>, block: seq<Varbind>, b: seq<Varbind>)
    requires block != [] && Distinct(a + [block[0]] + b) && Distinct(block)
    requires forall k | 0 < k < |block| :: block[k] !in a && block[k] !in b
    ensures Distinct(a + block + b)
  {
    hide Distinct;
    DistinctKeep(a, block[0], b);
    DistinctConcat(a, b);
    DistinctConcat(a + block, b);
    DistinctConcat(a, block);
  }

  lemma Room(i: nat, repeats: nat, r: nat)
    requires i < r
    ensures Area(i, repeats) + repeats == Area(i + 1, repeats) <= Area(r, repeats)
  {
    Times(i + 1, r, repeats);
  }

  lemma BlocksNone(repeats: nat)
    ensures AllBlocks([], [], repeats)
  {
  }

  lemma BlocksMore(blocks: seq<seq<Varbind>>, firsts: seq<Varbind>, repeats: nat, block: seq<Varbind>, first: Varbind)
    requires AllBlocks(blocks, firsts, repeats) && Block(block, first, repeats)
    ensures AllBlocks(blocks + [block], firsts + [first], repeats)
  {
  }

  /** What has been laid out when the first k varbinds have been dealt with. */
  ghost predicate Laid(all: seq<Varbind>, n: nat, repeats: nat, k: nat, left: nat, done: seq<Varbind>,
                       firsts: seq<Varbind>, blocks: seq<seq<Varbind>>)
  {
    n <= |all| && k <= |all| && |blocks| == |firsts| &&
    if k <= n then left == n - k && firsts == [] && done == all[..k]
    else left == 0 && done == all[..n] + Flatten(blocks) && firsts == if repeats == 0 then [] else all[n..k]
  }

  lemma LaidNone(all: seq<Varbind>, n: nat, repeats: nat)
    requires n <= |all|
    ensures Laid(all, n, repeats, 0, n, [], [], [])
  {
  }

  lemma LaidOn(all: seq<Varbind>, n: nat, repeats: nat, k: nat, left: nat, done: seq<Varbind>,
               firsts: seq<Varbind>, blocks: seq<seq<Varbind>>)
    requires Laid(all, n, repeats, k, left, done, firsts, blocks)
    ensures |blocks| == if repeats == 0 || k <= n then 0 else k - n
    ensures left > 0 <==> k < n
    ensures left > 0 ==> Laid(all, n, repeats, k + 1, left - 1, done + [all[k]], firsts, blocks)
    ensures left == 0 && repeats == 0 && k < |all| ==> Laid(all, n, repeats, k + 1, left, done, firsts, blocks)
    ensures k == |all| ==> done == all[..n] + Flatten(blocks) && firsts == if repeats == 0 then [] else all[n..]
  {
    if left > 0 {
      assert all[..k + 1] == all[..k] + [all[k]];
    } else {
      assert k == n ==> all[..n] + Flatten(blocks) == all[..k];
    }
    assert all[n..|all|] == all[n..];
  }

  lemma LaidBlock(all: seq<Varbind>, n: nat, repeats: nat, k: nat, done: seq<Varbind>,
                  firsts: seq<Varbind>, blocks: seq<seq<Varbind>>, block: seq<Varbind>)
    requires Laid(all, n, repeats, k, 0, done, firsts, blocks) && n <= k < |all| && repeats > 0
    ensures Laid(all, n, repeats, k + 1, 0, done + block, firsts + [all[k]], blocks + [block])
  {
    hide Flatten;
    FlattenMore(blocks, block);
    if k == n {
      NoColumns();
      assert all[n..k + 1] == [all[k]];
      assert blocks == [];
      assert done + block == all[..n] + (Flatten(blocks) + block);
    } else {
      assert all[n..k + 1] == all[n..k] + [all[k]];
      assert done + block == all[..n] + (Flatten(blocks) + block);
    }
  }

  lemma FlattenMore(blocks: seq<seq<Varbind>>, block: seq<Varbind>)
    ensures Flatten(blocks + [block]) == Flatten(blocks) + block
  {
    assert (blocks + [block])[..|blocks|] == blocks;
  }

  // ----- from columns to rows -----

  /** A grid of r columns of as many cells each. */
  ghost predicate Grid(cols: seq<seq<Varbind>>, repeats: nat) {
    && repeats > 0 && cols != [] && (forall i {:trigger cols[i]} | 0 <= i < |cols| :: |cols[i]| == repeats)
    && forall i, j, i', j' {:trigger cols[i][j], cols[i'][j']} ::
         0 <= i < |cols| && 0 <= i' < |cols| && 0 <= j < repeats && 0 <= j' < repeats && cols[i][j] == cols[i'][j']
         ==> i == i' && j == j'
  }

  lemma {:induction false} FlattenAt(cols: seq<seq<Varbind>>, repeats: nat)
    requires forall i {:trigger cols[i]} | 0 <= i < |cols| :: |cols[i]| == repeats
    ensures |Flatten(cols)| == Area(|cols|, repeats)
    ensures forall i, j {:trigger cols[i][j]} | 0 <= i < |cols| && 0 <= j < repeats ::
              Area(i, repeats) + j < |Flatten(cols)| && Flatten(cols)[Area(i, repeats) + j] == cols[i][j]
  {
    hide Area;
    if cols == [] {
      assert Area(0, repeats) == 0 by { Nothing(repeats); }
    } else {
      var n := |cols| - 1;
      var front := cols[..n];
      assert forall i | 0 <= i < n :: front[i] == cols[i];
      FlattenAt(front, repeats);
      Room(n, repeats, n + 1);
      forall i, j {:trigger cols[i][j]} | 0 <= i < |cols| && 0 <= j < repeats
        ensures Area(i, repeats) + j < |Flatten(cols)| && Flatten(cols)[Area(i, repeats) + j] == cols[i][j]
      {
        if i < n {
          assert front[i][j] == cols[i][j];
        }
      }
    }
  }

  lemma Nothing(repeats: nat)
    ensures Area(0, repeats) == 0
  {
  }

  /** Distinct varbinds, laid out column by column, make a grid. */
  lemma GridFromList(cols: seq<seq<Varbind>>, repeats: nat)
    requires repeats > 0 && cols != [] && Distinct(Flatten(cols))
    requires forall i {:trigger cols[i]} | 0 <= i < |cols| :: |cols[i]| == repeats
    ensures Grid(cols, repeats)
  {
    hide Area, Flatten;
    FlattenAt(cols, repeats);
    forall i, j, i', j' {:trigger cols[i][j], cols[i'][j']}
      | 0 <= i < |cols| && 0 <= i' < |cols| && 0 <= j < repeats && 0 <= j' < repeats && cols[i][j] == cols[i'][j']
      ensures i == i' && j == j'
    {
      if i < i' { Room(i, repeats, i'); }
      if i' < i { Room(i', repeats, i); }
    }
  }

  function Row(cols: seq<seq<Varbind>>, j: nat): (row: seq<Varbind>)
    requires forall i {:trigger cols[i]} | 0 <= i < |cols| :: j < |cols[i]|
    ensures |row| == |cols| && forall i {:trigger row[i]} {:trigger cols[i]} | 0 <= i < |row| :: row[i] == cols[i][j]
  {
    seq(|cols|, i requires 0 <= i < |cols| => cols[i][j])
  }

  /** The first k rows one after the other. */
  ghost function Rows(cols: seq<seq<Varbind>>, k: nat): (rows: seq<Varbind>)
    requires forall i {:trigger cols[i]} | 0 <= i < |cols| :: k <= |cols[i]|
  {
    if k == 0 then [] else Rows(cols, k - 1) + Row(cols, k - 1)
  }

  /** The links of the row order, up to the last cell's. */
  ghost predicate Woven(cols: seq<seq<Varbind>>, repeats: nat)
    requires Grid(cols, repeats)
    reads set i, j | 0 <= i < |cols| && 0 <= j < repeats && j < |cols[i]| :: cols[i][j]`next
  {
    && (forall i, j {:trigger cols[i][j]} | 0 <= i < |cols| - 1 && 0 <= j < repeats :: cols[i][j].next == cols[i + 1][j])
    && forall j {:trigger cols[|cols| - 1][j]} | 0 <= j < repeats - 1 :: cols[|cols| - 1][j].next == cols[0][j + 1]
  }

  lemma {:induction false} RowsLinked(cols: seq<seq<Varbind>>, repeats: nat, k: nat)
    requires Grid(cols, repeats) && Woven(cols, repeats) && 0 < k <= repeats
    ensures Rows(cols, k) != [] && Rows(cols, k)[0] == cols[0][0]
    ensures Links(Rows(cols, k), cols[|cols| - 1][k - 1].next)
  {
    hide Links;
    var row := Row(cols, k - 1);
    RowLinked(cols, repeats, k - 1);
    if k == 1 {
      assert Rows(cols, 0) == [] && Rows(cols, 1) == row;
    } else {
      RowsLinked(cols, repeats, k - 1);
      assert cols[|cols| - 1][k - 2].next == cols[0][k - 1] == First(row, null);
      LinksJoin(Rows(cols, k - 1), row, cols[|cols| - 1][k - 1].next);
    }
  }

  lemma RowLinked(cols: seq<seq<Varbind>>, repeats: nat, j: nat)
    requires Grid(cols, repeats) && Woven(cols, repeats) && j < repeats
    ensures Links(Row(cols, j), cols[|cols| - 1][j].next)
  {
    var row := Row(cols, j);
    forall i {:trigger row[i].next} | 0 <= i < |row|
      ensures row[i].next == if i + 1 < |row| then row[i + 1] else cols[|cols| - 1][j].next
    {
      assert row[i] == cols[i][j];
      assert i + 1 < |row| ==> row[i + 1] == cols[i + 1][j];
    }
  }

  /** The rows hold every cell of the grid exactly once. */
  lemma {:induction false} RowsHold(cols: seq<seq<Varbind>>, repeats: nat, k: nat)
    requires Grid(cols, repeats) && k <= repeats
    ensures Distinct(Rows(cols, k))
    ensures forall i, j {:trigger cols[i][j]} | 0 <= i < |cols| && 0 <= j < repeats :: cols[i][j] in Rows(cols, k) <==> j < k
    ensures forall v | v in Rows(cols, k) :: exists i, j :: 0 <= i < |cols| && 0 <= j < k && v == cols[i][j]
  {
    hide Distinct, Rows;
    if k > 0 {
      RowsHold(cols, repeats, k - 1);
      RowsMore(cols, repeats, k);
      var row := Row(cols, k - 1);
      assert Distinct(row) by { RowDistinct(cols, repeats, k - 1); }
      assert forall v | v in row :: exists i :: 0 <= i < |cols| && v == cols[i][k - 1];
      DistinctConcat(Rows(cols, k - 1), row);
    } else {
      RowsNone(cols);
      DistinctNone();
    }
  }

  /** Row by row: cell j of column i stands at place j * r + i. */
  lemma {:induction false} RowsAt(cols: seq<seq<Varbind>>, repeats: nat, k: nat, i: nat, j: nat)
    requires Grid(cols, repeats) && j < k <= repeats && i < |cols|
    ensures |Rows(cols, k)| == Area(k, |cols|) && Area(j, |cols|) + i < |Rows(cols, k)|
    ensures Rows(cols, k)[Area(j, |cols|) + i] == cols[i][j]
    decreases k
  {
    hide Area, Rows;
    Nothing(|cols|);
    RowsNone(cols);
    RowsMore(cols, repeats, k);
    Room(k - 1, |cols|, k);
    if k > 1 {
      RowsAt(cols, repeats, k - 1, i, if j < k - 1 then j else 0);
    }
  }

  lemma RowsNone(cols: seq<seq<Varbind>>)
    ensures Rows(cols, 0) == []
  {
  }

  lemma RowsMore(cols: seq<seq<Varbind>>, repeats: nat, k: nat)
    requires Grid(cols, repeats) && 0 < k <= repeats
    ensures Rows(cols, k) == Rows(cols, k - 1) + Row(cols, k - 1)
  {
  }

  lemma DistinctNone()
    ensures Distinct([])
  {
  }

  lemma RowDistinct(cols: seq<seq<Varbind>>, repeats: nat, j: nat)
    requires Grid(cols, repeats) && j < repeats
    ensures Distinct(Row(cols, j))
  {
  }

  ghost predicate Cached(cache: array<Varbind?>, cols: seq<seq<Varbind>>, repeats: nat)
    requires Grid(cols, repeats)
    reads cache
  {
    forall i, j {:trigger cols[i][j]} | 0 <= i < |cols| && 0 <= j < repeats ::
      Area(i, repeats) + j < cache.Length && cache[Area(i, repeats) + j] == cols[i][j]
  }

  ghost function Cells(cols: seq<seq<Varbind>>): set<Varbind> {
    set i, v | 0 <= i < |cols| && v in cols[i] :: v
  }

  lemma InCells(cols: seq<seq<Varbind>>, repeats: nat)
    requires Grid(cols, repeats)
    ensures forall i, j {:trigger cols[i][j]} | 0 <= i < |cols| && 0 <= j < repeats :: cols[i][j] in Cells(cols)
  {
    forall i, j {:trigger cols[i][j]} | 0 <= i < |cols| && 0 <= j < repeats ensures cols[i][j] in Cells(cols) {
      assert cols[i][j] in cols[i];
    }
  }

  lemma CellAt(cache: array<Varbind?>, cols: seq<seq<Varbind>>, repeats: nat, i: nat, j: nat)
    requires Grid(cols, repeats) && Cached(cache, cols, repeats) && i < |cols| && j < repeats
    ensures Area(i, repeats) + j < cache.Length && cache[Area(i, repeats) + j] == cols[i][j]
    ensures cols[i][j] in cols[i]
  {
  }

  /** Link each cell of a column to its right neighbour. */
  method LinkColumn(cache: array<Varbind?>, i: nat, repeats: nat, ghost cols: seq<seq<Varbind>>)
    requires Grid(cols, repeats) && i < |cols| - 1 && Cached(cache, cols, repeats)
    modifies Nodes(cols[i])`next
    ensures forall j {:trigger cols[i][j]} | 0 <= j < repeats :: cols[i][j].next == cols[i + 1][j]
  {
    hide Area, Cached;
    var j := 0;
    while j < repeats
      invariant 0 <= j <= repeats
      invariant forall k {:trigger cols[i][k]} | 0 <= k < j :: cols[i][k].next == cols[i + 1][k]
    {
      CellAt(cache, cols, repeats, i, j);
      CellAt(cache, cols, repeats, i + 1, j);
      cache[Area(i, repeats) + j].next := cache[Area(i + 1, repeats) + j];
      j := j + 1;
    }
  }

  lemma Sized(cols: seq<seq<Varbind>>, repeats: nat)
    requires Grid(cols, repeats)
    ensures repeats > 0 && cols != [] && forall i {:trigger cols[i]} | 0 <= i < |cols| :: |cols[i]| == repeats
  {
  }

  /** A varbind stands in its column once. */
  lemma OneColumn(cols: seq<seq<Varbind>>, repeats: nat, i: nat, j: nat)
    requires Grid(cols, repeats) && i < |cols| && j < repeats
    ensures |cols[i]| == repeats
    ensures forall k {:trigger cols[i][k]} | 0 <= k < repeats && k != j :: cols[i][k] != cols[i][j]
  {
  }

  /** Link the last column to the first, one row further down. */
  method LinkLast(cache: array<Varbind?>, r: nat, repeats: nat, ghost cols: seq<seq<Varbind>>)
    requires Grid(cols, repeats) && r == |cols| && Cached(cache, cols, repeats)
    modifies Nodes(cols[r - 1])`next
    ensures forall j {:trigger cols[r - 1][j]} | 0 <= j < repeats - 1 :: cols[r - 1][j].next == cols[0][j + 1]
    ensures cols[r - 1][repeats - 1].next == old(cols[r - 1][repeats - 1].next)
  {
    hide Area, Cached, Grid;
    Sized(cols, repeats);
    var j := 0;
    while j < repeats - 1
      invariant 0 <= j <= repeats - 1
      invariant forall k {:trigger cols[r - 1][k]} | 0 <= k < j :: cols[r - 1][k].next == cols[0][k + 1]
      invariant cols[r - 1][repeats - 1].next == old(cols[r - 1][repeats - 1].next)
    {
      Nothing(repeats);
      CellAt(cache, cols, repeats, r - 1, j);
      CellAt(cache, cols, repeats, 0, j + 1);
      OneColumn(cols, repeats, r - 1, j);
      cache[Area(r - 1, repeats) + j].next := cache[j + 1];
      j := j + 1;
    }
  }

  /** Columns share no varbind. */
  lemma ColumnsApart(cols: seq<seq<Varbind>>, repeats: nat, i: nat)
    requires Grid(cols, repeats) && i < |cols|
    ensures forall v | v in cols[i] :: v in Cells(cols)
    ensures forall k, j {:trigger cols[k][j]} | 0 <= k < |cols| && k != i && 0 <= j < repeats :: cols[k][j] !in cols[i]
  {
  }

  /** Link each column to the next one, and the last one to the first, one row
      further down. */
  method Weave(cache: array<Varbind?>, r: nat, repeats: nat, ghost cols: seq<seq<Varbind>>)
    requires Grid(cols, repeats) && r == |cols| && Cached(cache, cols, repeats)
    modifies Cells(cols)`next
    ensures Woven(cols, repeats) && cols[r - 1][repeats - 1].next == old(cols[r - 1][repeats - 1].next)
  {
    hide Area, Cached, Cells;
    ghost var last := cols[r - 1][repeats - 1];
    var i := 0;
    while i < r - 1
      invariant 0 <= i <= r - 1
      invariant forall k, j {:trigger cols[k][j]} | 0 <= k < i && 0 <= j < repeats :: cols[k][j].next == cols[k + 1][j]
      invariant last.next == old(last.next)
    {
      ColumnsApart(cols, repeats, i);
      LinkColumn(cache, i, repeats, cols);
      i := i + 1;
    }
    ColumnsApart(cols, repeats, r - 1);
    LinkLast(cache, r, repeats, cols);
  }

  // ----- endOfMibView cells -----

  /** An entry without a name, or past the end, is given the name before it. */
  function Fix(e: Entry, before: Oid): Entry {
    if e.name == [] || e.typ == Search.EndOfMibView then Entry(before, Search.EndOfMibView) else e
  }

  /** One column with its endOfMibView cells named after the cell above, and the
      first after the varbind asked for. */
  ghost function FixedColumn(col: seq<Entry>, asked: Oid): (f: seq<Entry>)
    ensures |f| == |col|
  {
    if col == [] then []
    else
      var m := |col| - 1;
      var f := FixedColumn(col[..m], asked);
      f + [Fix(col[m], if m == 0 then asked else f[m - 1].name)]
  }

  lemma {:induction false} FixedAt(col: seq<Entry>, asked: Oid, j: nat)
    requires j < |col|
    ensures FixedColumn(col, asked)[j] == Fix(col[j], if j == 0 then asked else FixedColumn(col, asked)[j - 1].name)
    decreases |col|
  {
    if j < |col| - 1 {
      FixedAt(col[..|col| - 1], asked, j);
    }
  }

  /** An entry that marks the end of what there is to find. */
  predicate Ends(e: Entry) { e.name == [] || e.typ == Search.EndOfMibView }

  /** Entry j of a column is what the search found there, if that is an answer;
      else it is endOfMibView under the name of the last answer above it, or
      under the name asked for if there is none. */
  ghost predicate RightlyAt(found: seq<Entry>, asked: Oid, fixed: seq<Entry>, j: nat)
    requires j < |found| == |fixed|
  {
    if !Ends(found[j]) then fixed[j] == found[j]
    else fixed[j].typ == Search.EndOfMibView && LastName(found, asked, j, fixed[j].name)
  }

  /** The name of the last answer above entry j. */
  ghost predicate LastName(found: seq<Entry>, asked: Oid, j: nat, name: Oid)
    requires j <= |found|
  {
    || ((forall l | 0 <= l < j :: Ends(found[l])) && name == asked)
    || exists k: nat :: k < j && !Ends(found[k]) && found[k].name == name && forall l | k < l < j :: Ends(found[l])
  }

  ghost predicate Rightly(found: seq<Entry>, asked: Oid, fixed: seq<Entry>) {
    |fixed| == |found| && forall j | 0 <= j < |found| :: RightlyAt(found, asked, fixed, j)
  }

  /** Naming the ends of a column keeps every answer. */
  lemma {:induction false} FixedRightly(col: seq<Entry>, asked: Oid)
    ensures Rightly(col, asked, FixedColumn(col, asked))
  {
    forall j | 0 <= j < |col| ensures RightlyAt(col, asked, FixedColumn(col, asked), j) {
      FixedNamed(col, asked, j);
    }
  }

  lemma {:induction false} FixedNamed(col: seq<Entry>, asked: Oid, j: nat)
    requires j < |col|
    ensures RightlyAt(col, asked, FixedColumn(col, asked), j) && LastName(col, asked, j + 1, FixedColumn(col, asked)[j].name)
  {
    FixedAt(col, asked, j);
    if j > 0 {
      FixedNamed(col, asked, j - 1);
    }
  }

  /** The fixed columns are at endOfMibView for good exactly when the search gave
      each of them answers first and then only ends. */
  lemma LastingWhen(cols: seq<seq<Entry>>, asked: seq<Oid>, fixed: seq<seq<Entry>>, repeats: nat)
    requires |asked| >= |cols| == |fixed| && Table(cols, repeats) && Table(fixed, repeats)
    requires forall i {:trigger fixed[i]} | 0 <= i < |cols| :: fixed[i] == FixedColumn(cols[i], asked[i])
    ensures Lasting(fixed, repeats) <==>
            forall i, t, u {:trigger cols[i][t], cols[i][u]} | 0 <= i < |cols| && 0 <= t <= u < repeats ::
              Ends(cols[i][t]) ==> Ends(cols[i][u])
  {
    hide FixedColumn;
    forall i, t {:trigger cols[i][t]} {:trigger fixed[i][t]} | 0 <= i < |cols| && 0 <= t < repeats
      ensures fixed[i][t].typ == Search.EndOfMibView <==> Ends(cols[i][t])
    {
      FixedAt(cols[i], asked[i], t);
      assert fixed[i] == FixedColumn(cols[i], asked[i]);
    }
    if Lasting(fixed, repeats) {
      forall i, t, u {:trigger cols[i][t], cols[i][u]} | 0 <= i < |cols| && 0 <= t <= u < repeats && Ends(cols[i][t])
        ensures Ends(cols[i][u])
      {
        assert fixed[i][t].typ == Search.EndOfMibView;
        assert fixed[i][u].typ == Search.EndOfMibView;
      }
    } else {
      var i, t, u {:trigger fixed[i][t], fixed[i][u]} :| 0 <= i < |cols| && 0 <= t <= u < repeats
        && fixed[i][t].typ == Search.EndOfMibView && fixed[i][u].typ != Search.EndOfMibView;
      assert Ends(cols[i][t]) && !Ends(cols[i][u]);
    }
  }

  /** The first cell's name is the only trace of the name asked for: two names
      give the same column exactly when they are equal or the column does not
      begin with an endOfMibView. So a column that should be named after b is
      named rightly after a exactly then. */
  lemma {:induction false} FirstName(col: seq<Entry>, a: Oid, b: Oid)
    ensures FixedColumn(col, a) == FixedColumn(col, b) <==>
            a == b || col == [] || (col[0].name != [] && col[0].typ != Search.EndOfMibView)
  {
    if col != [] {
      var m := |col| - 1;
      FirstName(col[..m], a, b);
      FixedAt(col, a, 0);
      FixedAt(col, b, 0);
    }
  }

  /** Where the two names differ and the column is empty of answers, so do the
      responses. */
  lemma FirstNameMatters()
    ensures FixedColumn([Entry([], Search.Null)], [1, 3]) == [Entry([1, 3], Search.EndOfMibView)]
    ensures FixedColumn([Entry([], Search.Null)], [1, 4]) == [Entry([1, 4], Search.EndOfMibView)]
    ensures FixedColumn([Entry([], Search.Null)], [1, 3]) != FixedColumn([Entry([], Search.Null)], [1, 4])
  {
    FirstName([Entry([], Search.Null)], [1, 3], [1, 4]);
    FixedAt([Entry([], Search.Null)], [1, 3], 0);
    FixedAt([Entry([], Search.Null)], [1, 4], 0);
  }

  ghost function Column(col: seq<Varbind>): (e: seq<Entry>)
    reads Nodes(col)`entry
    ensures |e| == |col| && forall j {:trigger e[j]} {:trigger col[j]} | 0 <= j < |e| :: e[j] == col[j].entry
  {
    if col == [] then []
    else
      var m := |col| - 1;
      assert forall v | v in col[..m] :: v in col;
      Column(col[..m]) + [col[m].entry]
  }

  method FixColumn(cache: array<Varbind?>, i: nat, repeats: nat, asked: Oid, ghost cols: seq<seq<Varbind>>)
    requires Grid(cols, repeats) && Cached(cache, cols, repeats) && i < |cols|
    modifies Nodes(cols[i])`entry
    ensures Column(cols[i]) == FixedColumn(old(Column(cols[i])), asked)
    ensures Rightly(old(Column(cols[i])), asked, Column(cols[i]))
  {
    hide Rightly, Area, Cached, FixedColumn;
    var prev: Varbind? := null;
    var j := 0;
    ghost var col, was := cols[i], Column(cols[i]);
    while j < repeats
      invariant 0 <= j <= repeats && prev == if j == 0 then null else col[j - 1]
      invariant forall k {:trigger col[k]} | 0 <= k < repeats ::
                  col[k].entry == if k < j then FixedColumn(was, asked)[k] else was[k]
    {
      CellAt(cache, cols, repeats, i, j);
      FixedAt(was, asked, j);
      var curr := cache[Area(i, repeats) + j];
      if curr.entry.name == [] || curr.entry.typ == Search.EndOfMibView {
        curr.entry := Entry(if prev == null then asked else prev.entry.name, Search.EndOfMibView);
      }
      prev := curr;
      j := j + 1;
    }
    FixedRightly(was, asked);
  }

  /** Name the endOfMibView cells. The first row's take the names of the first
      varbinds of the request, the ones that repeat or not. */
  method FixNames(cache: array<Varbind?>, r: nat, repeats: nat, asked: seq<Oid>, ghost cols: seq<seq<Varbind>>)
    requires Grid(cols, repeats) && Cached(cache, cols, repeats) && r == |cols| <= |asked|
    modifies Cells(cols)`entry
    ensures forall i {:trigger cols[i]} | 0 <= i < r :: Column(cols[i]) == FixedColumn(old(Column(cols[i])), asked[i])
    ensures forall i {:trigger cols[i]} | 0 <= i < r :: Rightly(old(Column(cols[i])), asked[i], Column(cols[i]))
  {
    hide Rightly, Area, Cached, FixedColumn, Cells, Column;
    var i := 0;
    while i < r
      invariant 0 <= i <= r
      invariant forall k {:trigger cols[k]} | 0 <= k < i :: Column(cols[k]) == FixedColumn(old(Column(cols[k])), asked[k])
      invariant forall k {:trigger cols[k]} | 0 <= k < i :: Rightly(old(Column(cols[k])), asked[k], Column(cols[k]))
      invariant forall k {:trigger cols[k]} | i <= k < r :: Column(cols[k]) == old(Column(cols[k]))
    {
      ColumnsApart(cols, repeats, i);
      FixColumn(cache, i, repeats, asked[i], cols);
      i := i + 1;
    }
  }

  // ----- truncation -----

  /** What the truncation looks for in row t: endOfMibView in the first column
      and in every other one but the last. */
  predicate Dead(cells: seq<seq<Entry>>, t: nat)
    requires forall i {:trigger cells[i]} | 0 <= i < |cells| :: t < |cells[i]|
  {
    forall i {:trigger cells[i]} | 0 <= i < |cells| && (i == 0 || i < |cells| - 1) :: cells[i][t].typ == Search.EndOfMibView
  }

  ghost predicate Table(cells: seq<seq<Entry>>, repeats: nat) {
    cells != [] && repeats > 0 && forall i {:trigger cells[i]} | 0 <= i < |cells| :: |cells[i]| == repeats
  }

  /** The number of rows that are kept: up to and including the first dead one. */
  ghost predicate Kept(cells: seq<seq<Entry>>, repeats: nat, rows: nat)
    requires Table(cells, repeats)
  {
    && 0 < rows <= repeats
    && (forall t | 0 <= t < rows - 1 :: !Dead(cells, t))
    && (rows < repeats ==> Dead(cells, rows - 1))
  }

  /** Once past the end, always past the end. */
  ghost predicate Lasting(cells: seq<seq<Entry>>, repeats: nat)
    requires Table(cells, repeats)
  {
    forall i, t, u {:trigger cells[i][t], cells[i][u]} | 0 <= i < |cells| && 0 <= t <= u < repeats ::
      cells[i][t].typ == Search.EndOfMibView ==> cells[i][u].typ == Search.EndOfMibView
  }

  /** Is a real answer cut off? */
  ghost predicate Loses(cells: seq<seq<Entry>>, repeats: nat, rows: nat)
    requires Table(cells, repeats)
  {
    exists i, t {:trigger cells[i][t]} :: 0 <= i < |cells| && rows <= t < repeats && cells[i][t].typ != Search.EndOfMibView
  }

  /** The truncation should keep the first row full of endOfMibView and cut
      behind it. As the last column is not looked at, it loses real answers
      exactly when some row that it takes for full is followed by one with an
      answer in the last column (which is not also the first). */
  lemma TruncationLoses(cells: seq<seq<Entry>>, repeats: nat, rows: nat)
    requires Table(cells, repeats) && Kept(cells, repeats, rows) && Lasting(cells, repeats)
    ensures Loses(cells, repeats, rows) <==>
            |cells| > 1 && exists t {:trigger Dead(cells, t)} :: 0 <= t < repeats - 1 && Dead(cells, t)
                                                               && cells[|cells| - 1][t + 1].typ != Search.EndOfMibView
    ensures rows < repeats ==> cells[0][rows - 1].typ == Search.EndOfMibView
  {
    var last := |cells| - 1;
    if rows < repeats {
      assert forall i, t {:trigger cells[i][t]} | 0 <= i < |cells| && (i == 0 || i < last) && rows <= t < repeats ::
          cells[i][rows - 1].typ == Search.EndOfMibView && cells[i][t].typ == Search.EndOfMibView;
      if cells[last][rows].typ == Search.EndOfMibView {
        assert forall t {:trigger cells[last][t]} | rows <= t < repeats :: cells[last][t].typ == Search.EndOfMibView;
      } else {
        assert Dead(cells, rows - 1) && cells[last][rows - 1 + 1].typ != Search.EndOfMibView;
      }
    }
  }

  /** It does happen: two columns, the first exhausted, the second not. */
  lemma TruncationExample()
    ensures var gone: Entry, found: Entry := Entry([1], Search.EndOfMibView), Entry([2], Search.Value(7));
            var cells := [[gone, gone], [found, found]];
            Table(cells, 2) && Lasting(cells, 2) && Kept(cells, 2, 1) && Loses(cells, 2, 1)
  {
    var gone: Entry, found: Entry := Entry([1], Search.EndOfMibView), Entry([2], Search.Value(7));
    var cells := [[gone, gone], [found, found]];
    assert cells[0] == [gone, gone] && cells[1] == [found, found] && cells[1][1] == found;
  }

  /** The entries of a grid of varbinds. */
  ghost function Contents(cols: seq<seq<Varbind>>): (e: seq<seq<Entry>>)
    reads Cells(cols)`entry
    ensures |e| == |cols| && forall i {:trigger e[i]} {:trigger cols[i]} | 0 <= i < |e| :: |e[i]| == |cols[i]|
    ensures forall i, j {:trigger cols[i][j]} {:trigger e[i][j]} | 0 <= i < |e| && 0 <= j < |cols[i]| :: e[i][j] == cols[i][j].entry
  {
    if cols == [] then []
    else
      var m := |cols| - 1;
      assert forall v | v in Cells(cols[..m]) :: v in Cells(cols);
      assert forall v | v in cols[m] :: v in Cells(cols);
      assert cols == cols[..m] + [cols[m]];
      Contents(cols[..m]) + [Column(cols[m])]
  }

  lemma RowsEnd(cols: seq<seq<Varbind>>, repeats: nat, k: nat)
    requires Grid(cols, repeats) && 0 < k <= repeats
    ensures Rows(cols, k) != [] && Rows(cols, k)[|Rows(cols, k)| - 1] == cols[|cols| - 1][k - 1]
  {
  }

  /** The blocks laid out by CreateBulkCache are a cached grid. */
  lemma BlocksMakeGrid(cache: array<Varbind?>, cols: seq<seq<Varbind>>, firsts: seq<Varbind>, repeats: nat)
    requires repeats > 0 && cols != [] && AllBlocks(cols, firsts, repeats) && Distinct(Flatten(cols))
    requires Area(|cols|, repeats) <= cache.Length && cache[..Area(|cols|, repeats)] == Flatten(cols)
    ensures Grid(cols, repeats) && Cached(cache, cols, repeats)
  {
    hide Area, Flatten, Distinct;
    forall i {:trigger cols[i]} | 0 <= i < |cols| ensures |cols[i]| == repeats {
      assert Block(cols[i], firsts[i], repeats);
    }
    FlattenAt(cols, repeats);
    GridFromList(cols, repeats);
  }

  lemma NoColumns()
    ensures Flatten([]) == []
  {
  }

  lemma LastLink(s: seq<Varbind>, after: Varbind?)
    requires s != [] && Links(s, after)
    ensures s[|s| - 1].next == after
  {
  }

  /** The column order starts and ends with the grid's corners, and has all of
      its cells. */
  lemma FlattenEnds(cols: seq<seq<Varbind>>, repeats: nat)
    requires Grid(cols, repeats)
    ensures Flatten(cols) != [] && Flatten(cols)[0] == cols[0][0]
    ensures Flatten(cols)[|Flatten(cols)| - 1] == cols[|cols| - 1][repeats - 1]
    ensures forall i, j {:trigger cols[i][j]} | 0 <= i < |cols| && 0 <= j < repeats :: cols[i][j] in Flatten(cols)
  {
    hide Area;
    FlattenAt(cols, repeats);
    Nothing(repeats);
    assert cols[0][0] == Flatten(cols)[Area(0, repeats) + 0];
  }

  lemma KeptDistinct(front: seq<Varbind>, cols: seq<seq<Varbind>>, repeats: nat, rows: nat)
    requires Grid(cols, repeats) && rows <= repeats && Distinct(front + Rows(cols, repeats))
    ensures Distinct(front + Rows(cols, rows))
  {
    hide Distinct, Rows;
    RowsHold(cols, repeats, repeats);
    RowsHold(cols, repeats, rows);
    DistinctConcat(front, Rows(cols, repeats));
    DistinctConcat(front, Rows(cols, rows));
  }

  /** Ending a list at one of its varbinds. */
  lemma CutHere(s: seq<Varbind>, after: Varbind?)
    requires s != [] && Links(s, after) && Distinct(s)
    ensures var m := |s| - 1; Links(s[..m], s[m]) && s[m] !in s[..m]
  {
    var m := |s| - 1;
    assert s == s[..m] + [s[m]];
    LinksJoin(s[..m], [s[m]], after);
  }

  class Pdu {
    var variables: Varbind?

    ghost predicate Lists(s: seq<Varbind>)
      reads this, s
    {
      variables == First(s, null) && Links(s, null) && Distinct(s)
    }

    /** The list while its beginning has been dealt with and rest has not. */
    ghost predicate Halfway(done: seq<Varbind>, rest: seq<Varbind>)
      reads this, done, rest
    {
      && variables == First(done + rest, null)
      && Links(done, First(rest, null)) && Links(rest, null) && Distinct(done + rest)
    }

    lemma Pass(done: seq<Varbind>, rest: seq<Varbind>)
      requires Halfway(done, rest) && rest != []
      ensures Halfway(done + [rest[0]], rest[1..]) && rest[0].next == First(rest[1..], null)
    {
      LinksJoin([rest[0]], rest[1..], null);
      assert [rest[0]] + rest[1..] == rest;
      LinksJoin(done, [rest[0]], First(rest[1..], null));
      DistinctKeep(done, rest[0], rest[1..]);
    }

    method Expand(varbind: Varbind, repeats: nat, cache: array<Varbind?>, bulkcount: nat,
                  ghost done: seq<Varbind>, ghost rest: seq<Varbind>)
      returns (ghost block: seq<Varbind>)
      requires Halfway(done, rest) && rest != [] && varbind == rest[0]
      requires repeats > 0 && bulkcount + repeats <= cache.Length
      modifies varbind`next, cache
      ensures Halfway(done + block, rest[1..]) && Block(block, varbind, repeats)
      ensures forall v | v in block :: v == varbind || fresh(v)
      ensures cache[..bulkcount + repeats] == old(cache[..bulkcount]) + block
    {
      hide Links, Distinct, Block;
      Pass(done, rest);
      ghost var tail := rest[1..];
      DistinctKeep(done, varbind, tail);
      block := Repeat(varbind, repeats, varbind.next, cache, bulkcount);
      DistinctBlock(done, block, tail);
      LinksJoin(done, block, First(tail, null));
      assert (done + block + tail)[0] == (done + rest)[0];
    }

    method Drop(varbind: Varbind, prev: Varbind?, ghost done: seq<Varbind>, ghost rest: seq<Varbind>)
      requires Halfway(done, rest) && rest != [] && varbind == rest[0]
      requires prev == if done == [] then null else done[|done| - 1]
      modifies this`variables, varbind`next, Nodes(done)`next
      ensures Halfway(done, rest[1..])
    {
      Pass(done, rest);
      DistinctKeep(done, varbind, rest[1..]);
      if prev == null {
        variables := varbind.next;
      } else {
        prev.next := varbind.next;
      }
      varbind.next := null;
    }

    /** The bulk cache is being filled: k varbinds have been dealt with, of which
        left more than that stay as they are. */
    ghost predicate Filling(all: seq<Varbind>, n: nat, repeats: nat, cache: array<Varbind?>, k: nat, left: nat,
                            vbcount: nat, bulkcount: nat, done: seq<Varbind>, firsts: seq<Varbind>,
                            blocks: seq<seq<Varbind>>)
      reads this, all, done, cache, set i, v | 0 <= i < |blocks| && v in blocks[i] :: v`entry
    {
      && n <= |all| && cache.Length == n + Area(|all| - n, repeats)
      && k <= |all| && Halfway(done, all[k..])
      && Laid(all, n, repeats, k, left, done, firsts, blocks) && vbcount + left == n + |blocks|
      && bulkcount == Area(|blocks|, repeats) <= cache.Length && cache[..bulkcount] == Flatten(blocks)
      && AllBlocks(blocks, firsts, repeats)
    }

    /** A varbind that is asked for once stays as it is. */
    lemma KeepOne(all: seq<Varbind>, n: nat, repeats: nat, cache: array<Varbind?>, k: nat, left: nat,
                  vbcount: nat, bulkcount: nat, done: seq<Varbind>, firsts: seq<Varbind>, blocks: seq<seq<Varbind>>)
      requires Filling(all, n, repeats, cache, k, left, vbcount, bulkcount, done, firsts, blocks) && k < |all| && left > 0
      ensures Filling(all, n, repeats, cache, k + 1, left - 1, vbcount + 1, bulkcount, done + [all[k]], firsts, blocks)
    {
      hide Halfway, Laid, Flatten, AllBlocks, Area;
      Pass(done, all[k..]);
      assert all[k..][1..] == all[k + 1..];
      LaidOn(all, n, repeats, k, left, done, firsts, blocks);
    }

    /** A repeated varbind becomes a block. */
    method ExpandOne(varbind: Varbind, repeats: nat, cache: array<Varbind?>, bulkcount: nat,
                     ghost all: seq<Varbind>, ghost n: nat, ghost k: nat, ghost vbcount: nat, ghost done: seq<Varbind>,
                     ghost firsts: seq<Varbind>, ghost blocks: seq<seq<Varbind>>)
      returns (ghost block: seq<Varbind>)
      requires Filling(all, n, repeats, cache, k, 0, vbcount, bulkcount, done, firsts, blocks)
      requires k < |all| && varbind == all[k] && repeats > 0
      modifies varbind`next, cache
      ensures Filling(all, n, repeats, cache, k + 1, 0, vbcount + 1, bulkcount + repeats,
                      done + block, firsts + [varbind], blocks + [block])
      ensures forall v | v in block :: v == varbind || fresh(v)
    {
      hide Halfway, Flatten, AllBlocks, Area, Laid, Block;
      LaidOn(all, n, repeats, k, 0, done, firsts, blocks);
      Room(k - n, repeats, |all| - n);
      block := Expand(varbind, repeats, cache, bulkcount, done, all[k..]);
      assert all[k..][1..] == all[k + 1..];
      BlocksMore(blocks, firsts, repeats, block, varbind);
      FlattenMore(blocks, block);
      LaidBlock(all, n, repeats, k, done, firsts, blocks, block);
    }

    /** Without repetitions, a varbind that would be repeated is dropped. */
    method DropOne(varbind: Varbind, prev: Varbind?, ghost all: seq<Varbind>, ghost n: nat, ghost cache: array<Varbind?>,
                   ghost k: nat, ghost vbcount: nat, ghost bulkcount: nat, ghost done: seq<Varbind>,
                   ghost firsts: seq<Varbind>, ghost blocks: seq<seq<Varbind>>)
      requires Filling(all, n, 0, cache, k, 0, vbcount, bulkcount, done, firsts, blocks)
      requires k < |all| && varbind == all[k] && prev == if done == [] then null else done[|done| - 1]
      modifies this`variables, varbind`next, Nodes(done)`next
      ensures Filling(all, n, 0, cache, k + 1, 0, vbcount, bulkcount, done, firsts, blocks)
    {
      hide Halfway, Flatten, AllBlocks, Area, Laid;
      Drop(varbind, prev, done, all[k..]);
      assert all[k..][1..] == all[k + 1..];
      LaidOn(all, n, 0, k, 0, done, firsts, blocks);
    }

    /** Lay out room for the repetitions: the first n varbinds stay as they are,
        and each of the others becomes a block, noted in the cache block by
        block; without repetitions the others are dropped from the list. */
    method CreateBulkCache(n: nat, repeats: nat, cache: array<Varbind?>, ghost all: seq<Varbind>)
      returns (vbcount: nat, ghost list: seq<Varbind>, ghost blocks: seq<seq<Varbind>>)
      requires Lists(all) && n <= |all| && cache.Length == n + Area(|all| - n, repeats)
      modifies this`variables, Nodes(all)`next, cache
      ensures Lists(list) && list == all[..n] + Flatten(blocks) && forall v | v in list :: v in all || fresh(v)
      ensures vbcount == n + |blocks| && |blocks| == if repeats == 0 then 0 else |all| - n
      ensures AllBlocks(blocks, if repeats == 0 then [] else all[n..], repeats)
      ensures Area(|blocks|, repeats) <= cache.Length && cache[..Area(|blocks|, repeats)] == Flatten(blocks)
    {
      hide Links, Distinct, Flatten, Block, AllBlocks, Halfway, Area, Laid, Filling, Lists;
      var varbind, prev: Varbind?, left, bulkcount := variables, null, n, 0;
      ghost var k, done: seq<Varbind>, firsts: seq<Varbind> := 0, [], [];
      blocks, vbcount := [], 0;
      FillingStarts(all, n, repeats, cache);
      while varbind != null
        invariant Filling(all, n, repeats, cache, k, left, vbcount, bulkcount, done, firsts, blocks)
        invariant k <= |all| && varbind == First(all[k..], null)
        invariant forall v | v in done :: v in all || fresh(v)
        invariant repeats == 0 ==> prev == (if done == [] then null else done[|done| - 1]) && forall v | v in done :: v in all
        decreases |all| - k
      {
        NextOne(all, n, repeats, cache, k, left, vbcount, bulkcount, done, firsts, blocks);
        var vbsave := varbind.next;
        if left > 0 {
          KeepOne(all, n, repeats, cache, k, left, vbcount, bulkcount, done, firsts, blocks);
          left := left - 1;
          vbcount := vbcount + 1;
          prev := varbind;
          done := done + [varbind];
        } else if repeats > 0 {
          ghost var block := ExpandOne(varbind, repeats, cache, bulkcount, all, n, k, vbcount, done, firsts, blocks);
          bulkcount := bulkcount + repeats;
          vbcount := vbcount + 1;
          prev := varbind;
          done := done + block;
          firsts := firsts + [varbind];
          blocks := blocks + [block];
        } else {
          DropOne(varbind, prev, all, n, cache, k, vbcount, bulkcount, done, firsts, blocks);
        }
        k := k + 1;
        varbind := vbsave;
      }
      list := done;
      FillingEnds(all, n, repeats, cache, k, left, vbcount, bulkcount, done, firsts, blocks);
    }

    lemma FillingStarts(all: seq<Varbind>, n: nat, repeats: nat, cache: array<Varbind?>)
      requires Lists(all) && n <= |all| && cache.Length == n + Area(|all| - n, repeats)
      ensures Filling(all, n, repeats, cache, 0, n, 0, 0, [], [], []) && variables == First(all[0..], null)
    {
      hide Laid, AllBlocks;
      Start(all);
      BlocksNone(repeats);
      LaidNone(all, n, repeats);
    }

    lemma NextOne(all: seq<Varbind>, n: nat, repeats: nat, cache: array<Varbind?>, k: nat, left: nat,
                  vbcount: nat, bulkcount: nat, done: seq<Varbind>, firsts: seq<Varbind>, blocks: seq<seq<Varbind>>)
      requires Filling(all, n, repeats, cache, k, left, vbcount, bulkcount, done, firsts, blocks)
      requires k <= |all| && First(all[k..], null) != null
      ensures k < |all| && First(all[k..], null) == all[k] && all[k].next == First(all[k + 1..], null)
    {
      hide Laid, AllBlocks, Flatten, Area;
      Pass(done, all[k..]);
      assert all[k..][1..] == all[k + 1..];
    }

    lemma FillingEnds(all: seq<Varbind>, n: nat, repeats: nat, cache: array<Varbind?>, k: nat, left: nat,
                      vbcount: nat, bulkcount: nat, done: seq<Varbind>, firsts: seq<Varbind>, blocks: seq<seq<Varbind>>)
      requires Filling(all, n, repeats, cache, k, left, vbcount, bulkcount, done, firsts, blocks)
      requires k <= |all| && First(all[k..], null) == null
      ensures Lists(done) && done == all[..n] + Flatten(blocks)
      ensures vbcount == n + |blocks| && |blocks| == if repeats == 0 then 0 else |all| - n
      ensures AllBlocks(blocks, if repeats == 0 then [] else all[n..], repeats)
      ensures Area(|blocks|, repeats) <= cache.Length && cache[..Area(|blocks|, repeats)] == Flatten(blocks)
    {
      hide Laid, AllBlocks, Flatten, Area, Halfway, Lists;
      End(done, all[k..]);
      LaidOn(all, n, repeats, k, left, done, firsts, blocks);
    }

    lemma Start(all: seq<Varbind>)
      requires Lists(all)
      ensures Halfway([], all[0..]) && all[0..] == all && Flatten([]) == [] && (forall r :: Area(0, r) == 0)
    {
      assert [] + all == all;
    }

    lemma End(done: seq<Varbind>, rest: seq<Varbind>)
      requires Halfway(done, rest) && First(rest, null) == null
      ensures Lists(done) && rest == []
    {
      assert done + rest == done;
    }

    /** Find the first row that is endOfMibView in all the columns looked at, and
        end the list behind it. */
    method Truncate(cache: array<Varbind?>, r: nat, repeats: nat, ghost front: seq<Varbind>,
                    ghost cols: seq<seq<Varbind>>, ghost all: seq<Varbind>)
      returns (rows: nat)
      requires Grid(cols, repeats) && r == |cols| && Cached(cache, cols, repeats) && Woven(cols, repeats)
      requires all == front + Rows(cols, repeats) && Lists(all)
      modifies Cells(cols)`next
      ensures Kept(Contents(cols), repeats, rows) && Lists(front + Rows(cols, rows))
    {
      hide Area, Cached, Woven, Rows, Lists, Dead, Contents;
      rows := repeats;
      var i, dead, last: Varbind? := 0, false, null;
      ghost var e := Contents(cols);
      while i < repeats
        invariant 0 <= i <= repeats && !dead && Contents(cols) == e && Woven(cols, repeats) && Lists(all)
        invariant forall t | 0 <= t < i :: !Dead(e, t)
        modifies {}
      {
        dead, last := ExamineRow(cache, r, repeats, i, cols);
        if dead {
          break;
        }
        i := i + 1;
      }
      if dead {
        rows := i + 1;
        CutAt(front, cols, repeats, rows);
        last.next := null;
        Ended(front, cols, repeats, rows);
      }
    }

    /** The response of a GETBULK: name the endOfMibView cells, put the cells in
        row order, and drop what follows the first row that is all
        endOfMibView as far as the columns looked at go. */
    method Reorder(n: nat, vbcount: nat, repeats: nat, cache: array<Varbind?>, asked: seq<Oid>,
                   ghost front: seq<Varbind>, ghost cols: seq<seq<Varbind>>)
      returns (rows: nat)
      requires n <= vbcount <= |asked| && |cols| == vbcount - n && |front| == n
      requires Lists(front + Flatten(cols))
      requires cols != [] ==> Grid(cols, repeats) && Cached(cache, cols, repeats)
      modifies Cells(cols)
      ensures cols == [] ==> Lists(front) && rows == 0
      ensures cols != [] ==>
                && Table(Contents(cols), repeats) && Kept(Contents(cols), repeats, rows)
                && Lists(front + Rows(cols, rows))
                && forall i {:trigger cols[i]} | 0 <= i < |cols| ::
                     Column(cols[i]) == FixedColumn(old(Column(cols[i])), asked[i])
      ensures forall i {:trigger cols[i]} | 0 <= i < |cols| :: Rightly(old(Column(cols[i])), asked[i], Column(cols[i]))
    {
      hide Rightly, Area, Cached, Rows, Flatten, FixedColumn, Contents, Column, Kept, Cells;
      var r := vbcount - n;
      if r == 0 {
        rows := 0;
        assert front + Flatten(cols) == front by { NoColumns(); }
        return;
      }
      BeforeWeaving(front, cols, repeats);
      ghost var all := front + Rows(cols, repeats);
      FixNames(cache, r, repeats, asked, cols);
      Weave(cache, r, repeats, cols);
      AfterWeaving(front, cols, repeats);
      rows := Truncate(cache, r, repeats, front, cols, all);
      forall i {:trigger cols[i]} | 0 <= i < |cols| ensures Rightly(old(Column(cols[i])), asked[i], Column(cols[i])) {
        assert Column(cols[i]) == FixedColumn(old(Column(cols[i])), asked[i]);
        FixedRightly(old(Column(cols[i])), asked[i]);
      }
    }

    /** What the search does here: it fills in the varbinds on the list. */
    method Search(results: seq<Entry>, ghost list: seq<Varbind>)
      requires Lists(list) && |results| == |list|
      modifies Nodes(list)`entry
      ensures Lists(list) && forall k {:trigger list[k]} | 0 <= k < |list| :: list[k].entry == results[k]
    {
      var v, k := variables, 0;
      while v != null
        invariant 0 <= k <= |list| && v == (if k < |list| then list[k] else null) && Lists(list)
        invariant forall j {:trigger list[j]} | 0 <= j < k :: list[j].entry == results[j]
        decreases |list| - k
      {
        v.entry := results[k];
        v := v.next;
        k := k + 1;
      }
    }

    /** What the layout leaves is the grid that the reordering expects, behind the
        varbinds that are asked for once. */
    lemma Layout(n: nat, repeats: nat, cache: array<Varbind?>, all: seq<Varbind>, cols: seq<seq<Varbind>>, list: seq<Varbind>)
      requires Lists(list) && n <= |all| && list == all[..n] + Flatten(cols)
      requires |cols| == if repeats == 0 then 0 else |all| - n
      requires AllBlocks(cols, if repeats == 0 then [] else all[n..], repeats)
      requires Area(|cols|, repeats) <= cache.Length && cache[..Area(|cols|, repeats)] == Flatten(cols)
      ensures |list| == n + Area(|cols|, repeats)
      ensures cols != [] ==> Grid(cols, repeats) && Cached(cache, cols, repeats)
      ensures forall i {:trigger cols[i]} | 0 <= i < |cols| :: cols[i] != [] && cols[i][0] == all[n + i]
      ensures forall v | v in Cells(cols) :: v in list && v !in all[..n]
    {
      hide Area, Flatten, Distinct, Cached, Links;
      DistinctConcat(all[..n], Flatten(cols));
      if cols == [] {
        NoColumns();
        Nothing(repeats);
      } else {
        var firsts := all[n..];
        BlocksMakeGrid(cache, cols, firsts, repeats);
        FlattenAt(cols, repeats);
        forall i {:trigger cols[i]} | 0 <= i < |cols| ensures cols[i] != [] && cols[i][0] == all[n + i] {
          assert Block(cols[i], firsts[i], repeats) && firsts[i] == all[n + i];
        }
        FlattenEnds(cols, repeats);
      }
    }

    /** What was found for each column, and for the varbinds before them. */
    lemma FoundIn(n: nat, repeats: nat, results: seq<Entry>, all: seq<Varbind>, cols: seq<seq<Varbind>>, list: seq<Varbind>)
      requires n <= |all| && list == all[..n] + Flatten(cols) && |results| == |list| == n + Area(|cols|, repeats)
      requires forall k {:trigger list[k]} | 0 <= k < |list| :: list[k].entry == results[k]
      requires cols != [] ==> Grid(cols, repeats)
      ensures forall i {:trigger cols[i]} | 0 <= i < |cols| :: Column(cols[i]) == FoundFor(results, n, repeats, |cols|, i)
      ensures forall k {:trigger all[k]} | 0 <= k < n :: all[k].entry == results[k]
    {
      hide Area, Flatten, Grid;
      forall k {:trigger all[k]} | 0 <= k < n ensures all[k].entry == results[k] { assert list[k] == all[k]; }
      forall i {:trigger cols[i]} | 0 <= i < |cols| ensures Column(cols[i]) == FoundFor(results, n, repeats, |cols|, i) {
        FoundColumn(n, repeats, results, all, cols, list, i);
      }
    }

    lemma FoundColumn(n: nat, repeats: nat, results: seq<Entry>, all: seq<Varbind>, cols: seq<seq<Varbind>>,
                      list: seq<Varbind>, i: nat)
      requires n <= |all| && list == all[..n] + Flatten(cols) && |results| == |list| == n + Area(|cols|, repeats)
      requires forall k {:trigger list[k]} | 0 <= k < |list| :: list[k].entry == results[k]
      requires Grid(cols, repeats) && i < |cols|
      ensures Column(cols[i]) == FoundFor(results, n, repeats, |cols|, i)
    {
      hide Area, Flatten, Grid, Column, FoundFor;
      Sized(cols, repeats);
      var found, col := FoundFor(results, n, repeats, |cols|, i), Column(cols[i]);
      forall j | 0 <= j < repeats ensures col[j] == found[j] {
        OnList(all[..n], cols, repeats, i, j);
        assert |all[..n]| == n;
        CellFound(results, n, repeats, |cols|, i, j);
        assert col[j] == cols[i][j].entry == list[n + Area(i, repeats) + j].entry;
      }
    }

    lemma CellFound(results: seq<Entry>, n: nat, repeats: nat, r: nat, i: nat, j: nat)
      requires i < r && |results| == n + Area(r, repeats) && j < repeats
      ensures n + Area(i, repeats) + j < |results|
      ensures FoundFor(results, n, repeats, r, i)[j] == results[n + Area(i, repeats) + j]
    {
      hide Area;
      Room(i, repeats, r);
    }

    /** Cell j of column i on the list behind the first varbinds. */
    lemma OnList(front: seq<Varbind>, cols: seq<seq<Varbind>>, repeats: nat, i: nat, j: nat)
      requires Grid(cols, repeats) && i < |cols| && j < repeats
      ensures |cols[i]| == repeats
      ensures var k := |front| + Area(i, repeats) + j;
              k < |front + Flatten(cols)| && (front + Flatten(cols))[k] == cols[i][j]
    {
      hide Area, Flatten, Grid;
      Sized(cols, repeats);
      FlattenAt(cols, repeats);
      var v, k := cols[i][j], Area(i, repeats) + j;
      assert k < |Flatten(cols)| && Flatten(cols)[k] == v;
    }

    /** A whole GETBULK, whatever the search finds: the n varbinds that are asked
        for once, and then whole rows of what was found for the others, each
        varbind once, each answer as it was found and each end under the name of
        the last answer above it, up to the first row that passes the test for
        the end. */
    method GetBulk(n: nat, repeats: nat, cache: array<Varbind?>, asked: seq<Oid>, results: seq<Entry>, ghost all: seq<Varbind>)
      returns (rows: nat, ghost cols: seq<seq<Varbind>>)
      requires Lists(all) && n <= |all| == |asked| && cache.Length == n + Area(|all| - n, repeats)
      requires |results| == n + Area(if repeats == 0 then 0 else |all| - n, repeats)
      modifies this, all, cache
      ensures |cols| == if repeats == 0 then 0 else |all| - n
      ensures cols == [] ==> Lists(all[..n]) && rows == 0
      ensures cols != [] ==>
                && Grid(cols, repeats) && (forall i {:trigger cols[i]} | 0 <= i < |cols| :: cols[i][0] == all[n + i])
                && Table(Contents(cols), repeats) && Kept(Contents(cols), repeats, rows) && Lists(all[..n] + Rows(cols, rows))
                && forall i {:trigger cols[i]} | 0 <= i < |cols| ::
                     Column(cols[i]) == FixedColumn(FoundFor(results, n, repeats, |cols|, i), asked[i])
      ensures forall i {:trigger cols[i]} | 0 <= i < |cols| ::
                Rightly(FoundFor(results, n, repeats, |cols|, i), asked[i], Column(cols[i]))
      ensures forall k {:trigger all[k]} | 0 <= k < n :: all[k].entry == results[k]
    {
      hide Rightly, Area, Cached, Rows, Flatten, FixedColumn, Contents, Column, Kept, Cells, AllBlocks, Links, Distinct, Grid, Lists;
      ghost var list;
      var vbcount;
      vbcount, list, cols := CreateBulkCache(n, repeats, cache, all);
      Layout(n, repeats, cache, all, cols, list);
      Search(results, list);
      FoundIn(n, repeats, results, all, cols, list);
      rows := Reorder(n, vbcount, repeats, cache, asked, all[..n], cols);
    }

    /** In column order, the grid's first cell follows the front, and its last
        one ends the list. */
    lemma BeforeWeaving(front: seq<Varbind>, cols: seq<seq<Varbind>>, repeats: nat)
      requires Lists(front + Flatten(cols)) && Grid(cols, repeats)
      ensures Links(front, cols[0][0]) && variables == First(front, cols[0][0])
      ensures cols[|cols| - 1][repeats - 1].next == null
      ensures Distinct(front + Rows(cols, repeats)) && forall v | v in front :: v !in Cells(cols)
    {
      hide Distinct, Area, Links;
      var f := Flatten(cols);
      var last := cols[|cols| - 1][repeats - 1];
      FlattenEnds(cols, repeats);
      LinksJoin(front, f, null);
      assert last.next == null by { LastLink(f, null); }
      DistinctConcat(front, f);
      assert Distinct(Rows(cols, repeats)) && (forall v | v in Rows(cols, repeats) :: v in f) by {
        RowsHold(cols, repeats, repeats);
      }
      DistinctConcat(front, Rows(cols, repeats));
      assert forall v | v in Cells(cols) :: v in f by { assert forall v | v in Cells(cols) :: exists i, j :: 0 <= i < |cols| && 0 <= j < repeats && cols[i][j] == v; }
    }

    lemma AfterWeaving(front: seq<Varbind>, cols: seq<seq<Varbind>>, repeats: nat)
      requires Grid(cols, repeats) && Woven(cols, repeats)
      requires Links(front, cols[0][0]) && variables == First(front, cols[0][0])
      requires cols[|cols| - 1][repeats - 1].next == null && Distinct(front + Rows(cols, repeats))
      ensures Lists(front + Rows(cols, repeats))
    {
      RowsLinked(cols, repeats, repeats);
      LinksJoin(front, Rows(cols, repeats), null);
    }

    /** Keeping the list up to the end of row rows. */
    lemma CutAt(front: seq<Varbind>, cols: seq<seq<Varbind>>, repeats: nat, rows: nat)
      requires Grid(cols, repeats) && Woven(cols, repeats) && Lists(front + Rows(cols, repeats)) && 0 < rows <= repeats
      ensures cols[|cols| - 1][rows - 1] in Cells(cols)
      ensures var s := front + Rows(cols, rows);
              && variables == First(s, null) && Distinct(s) && s != [] && s[|s| - 1] == cols[|cols| - 1][rows - 1]
              && Links(s[..|s| - 1], s[|s| - 1]) && s[|s| - 1] !in s[..|s| - 1]
    {
      hide Links, Distinct, Rows, Woven, Apart;
      var a, k, last := Rows(cols, repeats), Rows(cols, rows), cols[|cols| - 1][rows - 1];
      assert last in Cells(cols) by { InCells(cols, repeats); }
      assert a != [] && k != [] && a[0] == k[0] && Links(k, last.next) by {
        RowsLinked(cols, repeats, repeats);
        RowsLinked(cols, repeats, rows);
      }
      assert k[|k| - 1] == last by { RowsEnd(cols, repeats, rows); }
      LinksJoin(front, a, null);
      LinksJoin(front, k, last.next);
      assert Distinct(front + k) by { KeptDistinct(front, cols, repeats, rows); }
      CutHere(front + k, last.next);
    }

    lemma Ended(front: seq<Varbind>, cols: seq<seq<Varbind>>, repeats: nat, rows: nat)
      requires Grid(cols, repeats) && 0 < rows <= repeats
      requires var s := front + Rows(cols, rows);
               && variables == First(s, null) && Distinct(s) && s != [] && s[|s| - 1].next == null
               && Links(s[..|s| - 1], s[|s| - 1])
      ensures Lists(front + Rows(cols, rows))
    {
      var s := front + Rows(cols, rows);
      var m := |s| - 1;
      assert s == s[..m] + [s[m]];
      LinksJoin(s[..m], [s[m]], null);
    }
  }

  /** What the search found for column i of r. */
  function FoundFor(results: seq<Entry>, n: nat, repeats: nat, r: nat, i: nat): (col: seq<Entry>)
    requires i < r && |results| == n + Area(r, repeats)
    ensures |col| == repeats
  {
    Room(i, repeats, r);
    results[n + Area(i, repeats)..n + Area(i, repeats) + repeats]
  }

  /** Look along row i through the links, up to the last column but one. */
  method ExamineRow(cache: array<Varbind?>, r: nat, repeats: nat, i: nat, ghost cols: seq<seq<Varbind>>)
    returns (dead: bool, last: Varbind)
    requires Grid(cols, repeats) && r == |cols| && Cached(cache, cols, repeats) && Woven(cols, repeats) && i < repeats
    ensures dead <==> Dead(Contents(cols), i)
    ensures dead ==> last == cols[r - 1][i]
  {
    hide Area, Cached, Cells;
    Nothing(repeats);
    CellAt(cache, cols, repeats, 0, i);
    last := cache[i];
    if last.entry.typ != Search.EndOfMibView {
      return false, last;
    }
    var j := 1;
    while j < r
      invariant 1 <= j <= r && last == cols[j - 1][i]
      invariant forall k {:trigger cols[k][i]} | 0 <= k < |cols| && (k == 0 || k < j - 1) ::
                  cols[k][i].entry.typ == Search.EndOfMibView
    {
      if last.entry.typ != Search.EndOfMibView {
        return false, last;
      }
      last := last.next;
      j := j + 1;
    }
    dead := true;
  }
}
