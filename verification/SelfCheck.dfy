/** `heap_tests` of kernel/main.c, which kmain runs right after `kheap_init`: its frees reach a block that
    `kfree` cannot free soundly, and what the tests have written into their blocks breaks the heap. */
module SelfCheck {
  import opened Words
  import opened Options
  import opened PageRuns
  import opened HeapState
  import opened HeapRuns
  import F = FreeSoundness

  // ----- runs in pieces -----

  lemma {:induction false} Then(h: Heap, ops: seq<HeapOp>, h1: Heap, more: seq<HeapOp>, h2: Heap)
    requires HeapOk(h, {}) && Run(h, ops) == Some(h1) && Run(h1, more) == Some(h2)
    ensures Run(h, ops + more) == Some(h2)
    decreases |ops|
  {
    hide HeapOk, Enabled, Step, Run;
    if ops == [] {
      F.RunNothing(h);
      assert ops + more == more;
    } else {
      FirstOp(h, ops);
      Then(Step(h, ops[0]), ops[1..], h1, more, h2);
      F.RunCons(h, ops[0], ops[1..] + more);
      assert [ops[0]] + (ops[1..] + more) == ops + more;
    }
  }

  lemma FirstOp(h: Heap, ops: seq<HeapOp>)
    requires HeapOk(h, {}) && Run(h, ops).Some? && ops != []
    ensures Enabled(h, ops[0]) && HeapOk(Step(h, ops[0]), {}) && Run(h, ops) == Run(Step(h, ops[0]), ops[1..])
  {
    StepOk(h, ops[0]);
    hide HeapOk, Step;
  }

  lemma Once(h: Heap, op: HeapOp)
    requires HeapOk(h, {}) && Enabled(h, op)
    ensures HeapOk(Step(h, op), {}) && Run(h, [op]) == Some(Step(h, op))
  {
    hide HeapOk, Enabled, Step;
    F.RunCons(h, op, []);
    assert [op] + [] == [op];
    F.RunNothing(Step(h, op));
  }

  // ----- heaps of one span, by their blocks and their list -----

  const SPAN := 16 * PAGE_SIZE

  ghost predicate Map(h: Heap, s: Span, starts: set<int>, list: seq<int>) {
    && HeapOk(h, {}) && h.spans == [s] && s.lo % PAGE_SIZE == 0 && s.hi == s.lo + SPAN
    && h.starts == starts && h.list == list
  }

  /** No block starts between a and e. */
  ghost predicate Adjacent(starts: set<int>, a: int, e: int) {
    a < e && forall x | x in starts :: x <= a || e <= x
  }

  /** A block ends where the next one starts, or with the span. */
  lemma MapEnd(h: Heap, s: Span, starts: set<int>, list: seq<int>, a: int, e: int)
    requires Map(h, s, starts, list) && a in starts && Adjacent(starts, a, e) && (e in starts || e == s.hi)
    ensures h.Has(a) && h.End(a) == e && s.lo <= a && e <= s.hi <= |h.mem| == USER_MEM_START
    ensures a in list <==> h.mem[a + FREE] == 1
    ensures a !in list ==> h.IsLive(a)
  {
    TiledBlock(h, a);
    F.ListedIfFree(h, a);
    assert SpanOk(h, s);
    if h.End(a) < s.hi {
      NotAnEnd(h, s, h.End(a));
    }
    if e in starts { TiledBlock(h, e); TiledPrecedes(h, a, e); }
  }

  // ----- kmalloc from the first block of the list -----

  ghost predicate MallocGives(h: Heap, s: Span, starts: set<int>, list: seq<int>, size: Word, n: int, e: int, h1: Heap)
    requires HeapOk(h, {}) && list != []
  {
    && Run(h, [Malloc(size)]) == Some(h1)
    && if e - list[0] - n >= MIN_BLOCK_SIZE then Map(h1, s, starts + {list[0] + n}, [list[0] + n] + list[1..])
       else Map(h1, s, starts, list[1..])
  }

  lemma MapMalloc(h: Heap, s: Span, starts: set<int>, list: seq<int>, size: Word, n: int, e: int) returns (h1: Heap)
    requires Map(h, s, starts, list) && list != [] && n == Needed(size) && list[0] + n <= e
    requires Adjacent(starts, list[0], e) && (e in starts || e == s.hi)
    ensures HeapOk(h, {}) && MallocGives(h, s, starts, list, size, n, e, h1)
  {
    var b := list[0];
    StartOf(h, 0);
    MapEnd(h, s, starts, list, b, e);
    hide HeapOk, Run, Needed;
    Once(h, Malloc(size));
    h1 := Step(h, Malloc(size));
    NeededHoldsRequest(size);
    FirstTaken(h, size);
  }

  /** The first block of the list is taken, cut or whole. */
  lemma FirstTaken(h: Heap, size: Word)
    requires HeapOk(h, {}) && h.list != [] && h.Has(h.list[0]) && Needed(size) <= h.mem[h.list[0]]
    ensures var h1, b, n := Step(h, Malloc(size)), h.list[0], Needed(size);
            && HeapOk(h1, {}) && h1.spans == h.spans
            && if h.mem[b] - n >= MIN_BLOCK_SIZE then h1.starts == h.starts + {b + n} && h1.list == [b + n] + h.list[1..]
               else h1.starts == h.starts && h1.list == h.list[1..]
  {
    assert FirstFit(h, Needed(size), 0) == 0;
    hide HeapOk, FirstFit, Needed, Carve, Linked;
    NeededHoldsRequest(size);
    CarveOk(h, 0, Needed(size));
    CarveShape(h, Needed(size));
  }

  lemma CarveShape(h: Heap, n: Word)
    requires HeapOk(h, {}) && h.list != [] && h.Has(h.list[0]) && n <= h.mem[h.list[0]] && n % 8 == 0 && MIN_BLOCK_SIZE <= n
    ensures var h1, b := Carve(h, 0, n), h.list[0];
            if h.mem[b] - n >= MIN_BLOCK_SIZE then h1.starts == h.starts + {b + n} && h1.list == [b + n] + h.list[1..]
            else h1.starts == h.starts && h1.list == h.list[1..]
  {
    if h.mem[h.list[0]] - n >= MIN_BLOCK_SIZE {
      CanCutFirst(h, n);
      hide HeapOk, Split, CanSplit, Remove, LinkOk;
      SplitShape(h, 0, n);
      assert h.list[0 := h.list[0] + n] == [h.list[0] + n] + h.list[1..];
    } else {
      Neighbours(h, 0);
      hide HeapOk, Split, CanSplit, Linked, LinkOk;
      assert Without(h.list, 0) == h.list[1..];
    }
  }

  lemma CanCutFirst(h: Heap, n: Word)
    requires HeapOk(h, {}) && h.list != [] && h.Has(h.list[0]) && n % 8 == 0 && MIN_BLOCK_SIZE <= n
    requires h.mem[h.list[0]] - n >= MIN_BLOCK_SIZE
    ensures CanSplit(h, 0, n)
  {
    Neighbours(h, 0);
    TiledBlock(h, h.list[0]);
  }

  // ----- kfree of a block in the first page -----

  ghost predicate FreeGives(h: Heap, s: Span, starts: set<int>, list: seq<int>, b: int, p: int, e: int, i: nat, h1: Heap)
    requires HeapOk(h, {})
  {
    var joins := e in list && e < s.lo + PAGE_SIZE;
    && (joins ==> i < |list| && list[i] == e)
    && var l1 := if joins then Without(list, i) else list;
       var s1 := if joins then starts - {e} else starts;
       && Run(h, [Free(b)]) == Some(h1)
       && if p in list then Map(h1, s, s1 - {b}, l1) else Map(h1, s, s1, [b] + l1)
  }

  /** b lies between p and e in the first page of the span. */
  ghost predicate Between(s: Span, starts: set<int>, list: seq<int>, p: int, b: int, e: int) {
    && s.lo in starts && s.lo < b < s.lo + PAGE_SIZE && b in starts && b !in list && p in starts
    && Adjacent(starts, p, b) && Adjacent(starts, b, e) && (e in starts || e == s.hi)
  }

  lemma MapFree(h: Heap, s: Span, starts: set<int>, list: seq<int>, b: int, p: int, e: int, i: nat) returns (h1: Heap)
    requires Map(h, s, starts, list) && Between(s, starts, list, p, b, e)
    requires e in list && e < s.lo + PAGE_SIZE ==> i < |list| && list[i] == e
    ensures HeapOk(h, {}) && FreeGives(h, s, starts, list, b, p, e, i, h1)
  {
    MapEnd(h, s, starts, list, b, e);
    PageOfFirst(s.lo, b);
    MergedStarts(h, b);
    assert CanFree(h, b);
    F.MergedIs(h, b);
    MergedMap(h, s, starts, list, b, p, e, i);
    hide HeapOk, Merged, Run;
    Once(h, Free(b));
    h1 := Step(h, Free(b));
    ReleaseOk(h, b);
    ReleaseShape(h, b, p);
  }

  lemma PageOfFirst(lo: int, b: int)
    requires lo % PAGE_SIZE == 0 && lo < b < lo + PAGE_SIZE
    ensures PageBase(b) == lo
  {
    var q := lo / PAGE_SIZE;
    assert b == PAGE_SIZE * q + (b - lo);
  }

  /** Blocks and list after the forward half. */
  lemma MergedMap(h: Heap, s: Span, starts: set<int>, list: seq<int>, b: int, p: int, e: int, i: nat)
    requires Map(h, s, starts, list) && Between(s, starts, list, p, b, e) && h.IsLive(b) && CanFree(h, b) && PageBase(b) == s.lo
    requires e in list && e < s.lo + PAGE_SIZE ==> i < |list| && list[i] == e
    ensures var g := Merged(h, b);
            var joins := e in list && e < s.lo + PAGE_SIZE;
            && g.list == (if joins then Without(list, i) else list) && g.starts == (if joins then starts - {e} else starts)
            && g.spans == [s] && p in g.starts && b in g.starts && (p in g.list <==> p in list)
            && g.Has(p) && g.End(p) == b
  {
    MapEnd(h, s, starts, list, b, e);
    F.MergedIs(h, b);
    F.MergedSpans(h, b);
    var g := Merged(h, b);
    var joins := e in list && e < s.lo + PAGE_SIZE;
    if joins {
      SameIndex(h, i, e);
      WithoutMember(h, i, p);
    }
    hide Merged, Linked, Flagged, BlockOk;
    F.PendingBlock(g, b);
    PrevEnds(g, s, p, b);
  }

  lemma SameIndex(h: Heap, i: nat, e: int)
    requires HeapOk(h, {}) && i < |h.list| && h.list[i] == e
    ensures IndexOf(h.list, e) == i
  {
  }

  lemma WithoutMember(h: Heap, i: nat, p: int)
    requires HeapOk(h, {}) && i < |h.list| && p != h.list[i]
    ensures p in Without(h.list, i) <==> p in h.list
  {
    var l := Without(h.list, i);
    if p in h.list {
      var k :| 0 <= k < |h.list| && h.list[k] == p;
      assert l[if k < i then k else k - 1] == p;
    }
    if p in l {
      var k :| 0 <= k < |l| && l[k] == p;
      assert h.list[if k < i then k else k + 1] == p;
    }
  }

  lemma PrevEnds(g: Heap, s: Span, p: int, b: int)
    requires Tiled(g) && g.spans == [s] && p in g.starts && b in g.starts && Adjacent(g.starts, p, b)
    ensures g.Has(p) && g.End(p) == b
  {
    TiledBlock(g, p);
    TiledBlock(g, b);
    TiledPrecedes(g, p, b);
    if g.End(p) < b { NotAnEnd(g, s, g.End(p)); }
  }

  /** The second half: b joins the block before it, or is put at the head of the list. */
  lemma ReleaseShape(h: Heap, b: int, p: int)
    requires CanFree(h, b) && PageBase(b) < b
    requires var g := Merged(h, b); PageBase(b) in g.starts && p in g.starts && p < b && g.Has(p) && g.End(p) == b
    ensures var g, h1 := Merged(h, b), Release(h, b);
            if p in g.list then h1.list == g.list && h1.starts == g.starts - {b} else h1.list == [b] + g.list && h1.starts == g.starts
  {
    var g := Merged(h, b);
    hide Merged, Flagged;
    F.PendingBlock(g, b);
    var q := WalkPrev(g, PageBase(b), b);
    TiledBlock(g, q);
    if p < q { TiledPrecedes(g, p, q); } else if q < p { TiledPrecedes(g, q, p); }
    F.FlagOf(g, b, p);
    ListedFlag(g, b, p);
    hide Tiled, Linked, BlockOk;
  }

  lemma ListedFlag(g: Heap, b: int, p: int)
    requires HeapOk(g, {b}) && p in g.starts && p != b
    ensures g.Has(p) && (g.mem[p + FREE] == 1 <==> p in g.list)
  {
  }

  // ----- stores into a block -----

  /** `fill8` with the byte that v repeats, as word stores into block b */
  function Fill(b: int, n: nat, v: Word): seq<HeapOp>
    requires b >= 0
  {
    seq(n, j requires 0 <= j => Write(b + HEADER_SIZE + 4 * j, v))
  }

  lemma {:induction false} MapFill(h: Heap, s: Span, starts: set<int>, list: seq<int>, b: int, e: int, n: nat, v: Word) returns (h1: Heap)
    requires Map(h, s, starts, list) && b in starts && b !in list && b >= 0 && HEADER_SIZE + 4 * n <= e - b
    requires Adjacent(starts, b, e) && (e in starts || e == s.hi)
    ensures HeapOk(h, {}) && Run(h, Fill(b, n, v)) == Some(h1) && Map(h1, s, starts, list) && |h1.mem| == |h.mem|
    ensures forall j | 0 <= j < n :: b + HEADER_SIZE + 4 * j < |h1.mem| && h1.mem[b + HEADER_SIZE + 4 * j] == v
    decreases n
  {
    MapOk(h, s, starts, list);
    if n == 0 {
      F.RunNothing(h);
      h1 := h;
    } else {
      hide HeapOk, Run, Map, Adjacent;
      var g := MapFill(h, s, starts, list, b, e, n - 1, v);
      var k: nat := b + HEADER_SIZE + 4 * (n - 1);
      h1 := MapWrite(g, s, starts, list, b, e, k, v);
      Then(h, Fill(b, n - 1, v), g, [Write(k, v)], h1);
      assert Fill(b, n - 1, v) + [Write(k, v)] == Fill(b, n, v);
    }
  }

  lemma MapOk(h: Heap, s: Span, starts: set<int>, list: seq<int>)
    requires Map(h, s, starts, list)
    ensures HeapOk(h, {})
  {
  }

  lemma MapWrite(h: Heap, s: Span, starts: set<int>, list: seq<int>, b: int, e: int, k: nat, v: Word) returns (h1: Heap)
    requires Map(h, s, starts, list) && b in starts && b !in list && b + HEADER_SIZE <= k < e
    requires Adjacent(starts, b, e) && (e in starts || e == s.hi)
    ensures HeapOk(h, {}) && Run(h, [Write(k, v)]) == Some(h1) && Map(h1, s, starts, list)
    ensures |h1.mem| == |h.mem| && k < |h.mem| && h1.mem == h.mem[k := v]
  {
    MapEnd(h, s, starts, list, b, e);
    assert InPayload(h, b, k);
    WriteOk(h, b, k, v);
    hide HeapOk, Run, InPayload;
    Once(h, Write(k, v));
    h1 := Step(h, Write(k, v));
  }

  // ----- a run goes on -----

  /** Run so far, and the state. */
  ghost predicate At(h0: Heap, ops: seq<HeapOp>, h: Heap, s: Span, starts: set<int>, list: seq<int>) {
    HeapOk(h0, {}) && Run(h0, ops) == Some(h) && Map(h, s, starts, list)
  }

  lemma DoMalloc(h0: Heap, ops: seq<HeapOp>, h: Heap, s: Span, starts: set<int>, list: seq<int>, size: Word, n: int, e: int)
    returns (h1: Heap)
    requires At(h0, ops, h, s, starts, list) && list != [] && n == Needed(size) && list[0] + n <= e
    requires Adjacent(starts, list[0], e) && (e in starts || e == s.hi)
    ensures if e - list[0] - n >= MIN_BLOCK_SIZE
            then At(h0, ops + [Malloc(size)], h1, s, starts + {list[0] + n}, [list[0] + n] + list[1..])
            else At(h0, ops + [Malloc(size)], h1, s, starts, list[1..])
  {
    hide Map, HeapOk, Run, Needed;
    h1 := MapMalloc(h, s, starts, list, size, n, e);
    Then(h0, ops, h, [Malloc(size)], h1);
  }

  lemma DoFill(h0: Heap, ops: seq<HeapOp>, h: Heap, s: Span, starts: set<int>, list: seq<int>, b: int, e: int, n: nat, v: Word)
    returns (h1: Heap)
    requires At(h0, ops, h, s, starts, list) && b in starts && b !in list && b >= 0 && HEADER_SIZE + 4 * n <= e - b
    requires Adjacent(starts, b, e) && (e in starts || e == s.hi)
    ensures At(h0, ops + Fill(b, n, v), h1, s, starts, list)
    ensures forall j | 0 <= j < n :: b + HEADER_SIZE + 4 * j < |h1.mem| && h1.mem[b + HEADER_SIZE + 4 * j] == v
  {
    hide Map, HeapOk, Run, Fill;
    h1 := MapFill(h, s, starts, list, b, e, n, v);
    Then(h0, ops, h, Fill(b, n, v), h1);
  }

  /** joined: the block after b is free, at position i of the list. */
  lemma DoFree(h0: Heap, ops: seq<HeapOp>, h: Heap, s: Span, starts: set<int>, list: seq<int>, b: int, p: int, e: int, joined: bool, i: nat)
    returns (h1: Heap)
    requires At(h0, ops, h, s, starts, list) && Between(s, starts, list, p, b, e) && e < s.lo + PAGE_SIZE
    requires if joined then i < |list| && list[i] == e else e !in list
    ensures var l1 := if joined then Without(list, i) else list;
            var s1 := if joined then starts - {e} else starts;
            if p in list then At(h0, ops + [Free(b)], h1, s, s1 - {b}, l1) else At(h0, ops + [Free(b)], h1, s, s1, [b] + l1)
  {
    hide Map, HeapOk, Run, Between;
    h1 := MapFree(h, s, starts, list, b, p, e, i);
    Then(h0, ops, h, [Free(b)], h1);
  }

  // ----- tests 1 to 5 -----

  /** Three blocks, and the free rest behind them: the heap before and after each of the tests 3 to 5. */
  function ThreeBlocks(lo: int): set<int> {
    {lo, lo + 40, lo + 112, lo + 248}
  }

  function Tests1And2(lo: nat): seq<HeapOp> {
    [] + [Malloc(32)] + [Malloc(64)] + [Malloc(128)]
    + Fill(lo, 8, 0xAAAA_AAAA) + Fill(lo + 40, 16, 0xBBBB_BBBB) + Fill(lo + 112, 32, 0xCCCC_CCCC)
  }

  function Test3(lo: nat): seq<HeapOp> {
    [] + [Free(lo + 40)] + [Malloc(64)]
  }

  function Test4(lo: nat): seq<HeapOp> {
    [] + [Malloc(48)] + [Malloc(48)] + [Malloc(48)]
    + Fill(lo + 248, 12, 0x1111_1111) + Fill(lo + 304, 12, 0x2222_2222) + Fill(lo + 360, 12, 0x3333_3333)
    + [Free(lo + 248)] + [Free(lo + 304)] + [Malloc(80)] + [Free(lo + 248)] + [Free(lo + 360)]
  }

  function Test5(lo: nat): seq<HeapOp> {
    [] + [Malloc(48)] + [Malloc(48)] + [Malloc(48)]
    + Fill(lo + 304, 12, 0x5555_5555) + Fill(lo + 360, 12, 0x6666_6666)
    + [Free(lo + 304)] + [Free(lo + 360)] + [Malloc(80)] + Fill(lo + 304, 20, 0x7777_7777) + [Free(lo + 304)] + [Free(lo + 248)]
  }

  lemma Sizes()
    ensures Needed(32) == 40 && Needed(64) == 72 && Needed(128) == 136 && Needed(48) == 56 && Needed(80) == 88 && Needed(500) == 512
  {
  }

  lemma StartAt(h: Heap, s: Span, starts: set<int>, list: seq<int>)
    requires Map(h, s, starts, list)
    ensures At(h, [], h, s, starts, list) && MANAGED_BASE <= s.lo
  {
    F.RunNothing(h);
    assert SpanOk(h, s);
  }

  lemma Tests1And2Run(h: Heap, s: Span) returns (h1: Heap)
    requires Map(h, s, {s.lo}, [s.lo])
    ensures 0 <= s.lo && At(h, Tests1And2(s.lo), h1, s, ThreeBlocks(s.lo), [s.lo + 248])
  {
    StartAt(h, s, {s.lo}, [s.lo]);
    assert s.hi == s.lo + SPAN;
    hide At, Map, Fill, ThreeBlocks;
    h1 := Test1Requests(h, s);
    h1 := Test2Fills(h, [] + [Malloc(32)] + [Malloc(64)] + [Malloc(128)], h1, s);
  }

  lemma Test1Requests(h: Heap, s: Span) returns (h1: Heap)
    requires At(h, [], h, s, {s.lo}, [s.lo]) && s.hi == s.lo + SPAN
    ensures At(h, [] + [Malloc(32)] + [Malloc(64)] + [Malloc(128)], h1, s, ThreeBlocks(s.lo), [s.lo + 248])
  {
    hide At, Needed;
    Sizes();
    var lo, hi := s.lo, s.hi;
    h1 := DoMalloc(h, [], h, s, {lo}, [lo], 32, 40, hi);
    assert [lo + 40] + [lo][1..] == [lo + 40];
    h1 := DoMalloc(h, [] + [Malloc(32)], h1, s, {lo} + {lo + 40}, [lo + 40], 64, 72, hi);
    assert [lo + 112] + [lo + 40][1..] == [lo + 112];
    h1 := DoMalloc(h, [] + [Malloc(32)] + [Malloc(64)], h1, s, {lo} + {lo + 40} + {lo + 112}, [lo + 112], 128, 136, hi);
    assert [lo + 248] + [lo + 112][1..] == [lo + 248];
    assert {lo} + {lo + 40} + {lo + 112} + {lo + 248} == ThreeBlocks(lo);
  }

  lemma Test2Fills(h0: Heap, ops: seq<HeapOp>, h: Heap, s: Span) returns (h1: Heap)
    requires At(h0, ops, h, s, ThreeBlocks(s.lo), [s.lo + 248]) && 0 <= s.lo
    ensures At(h0, ops + Fill(s.lo, 8, 0xAAAA_AAAA) + Fill(s.lo + 40, 16, 0xBBBB_BBBB) + Fill(s.lo + 112, 32, 0xCCCC_CCCC),
               h1, s, ThreeBlocks(s.lo), [s.lo + 248])
  {
    hide At, Fill;
    var lo, m := s.lo, ThreeBlocks(s.lo);
    h1 := DoFill(h0, ops, h, s, m, [lo + 248], lo, lo + 40, 8, 0xAAAA_AAAA);
    var ops1 := ops + Fill(lo, 8, 0xAAAA_AAAA);
    h1 := DoFill(h0, ops1, h1, s, m, [lo + 248], lo + 40, lo + 112, 16, 0xBBBB_BBBB);
    ops1 := ops1 + Fill(lo + 40, 16, 0xBBBB_BBBB);
    h1 := DoFill(h0, ops1, h1, s, m, [lo + 248], lo + 112, lo + 248, 32, 0xCCCC_CCCC);
  }

  lemma Test3Run(h: Heap, s: Span) returns (h1: Heap)
    requires Map(h, s, ThreeBlocks(s.lo), [s.lo + 248])
    ensures 0 <= s.lo && At(h, Test3(s.lo), h1, s, ThreeBlocks(s.lo), [s.lo + 248])
  {
    StartAt(h, s, ThreeBlocks(s.lo), [s.lo + 248]);
    assert s.hi == s.lo + SPAN;
    Sizes();
    hide At, Map, Needed;
    var lo, m := s.lo, ThreeBlocks(s.lo);
    h1 := DoFree(h, [], h, s, m, [lo + 248], lo + 40, lo, lo + 112, false, 0);
    h1 := DoMalloc(h, [] + [Free(lo + 40)], h1, s, m, [lo + 40] + [lo + 248], 64, 72, lo + 112);
  }

  /** Three requests of 48 bytes, as tests 4 and 5 begin. */
  lemma ThreeMore(h: Heap, s: Span) returns (h1: Heap)
    requires Map(h, s, ThreeBlocks(s.lo), [s.lo + 248])
    ensures At(h, [] + [Malloc(48)] + [Malloc(48)] + [Malloc(48)], h1, s, SixBlocks(s.lo), [s.lo + 416])
  {
    StartAt(h, s, ThreeBlocks(s.lo), [s.lo + 248]);
    assert s.hi == s.lo + SPAN;
    Sizes();
    hide At, Map, Needed;
    var lo, hi, m := s.lo, s.hi, ThreeBlocks(s.lo);
    h1 := DoMalloc(h, [], h, s, m, [lo + 248], 48, 56, hi);
    h1 := DoMalloc(h, [] + [Malloc(48)], h1, s, m + {lo + 304}, [lo + 304], 48, 56, hi);
    h1 := DoMalloc(h, [] + [Malloc(48)] + [Malloc(48)], h1, s, m + {lo + 304} + {lo + 360}, [lo + 360], 48, 56, hi);
    assert m + {lo + 304} + {lo + 360} + {lo + 416} == SixBlocks(lo);
  }

  /** ... with three blocks of 48 bytes. */
  function SixBlocks(lo: int): set<int> {
    {lo, lo + 40, lo + 112, lo + 248, lo + 304, lo + 360, lo + 416}
  }

  lemma Test4Run(h: Heap, s: Span) returns (h1: Heap)
    requires Map(h, s, ThreeBlocks(s.lo), [s.lo + 248])
    ensures 0 <= s.lo && At(h, Test4(s.lo), h1, s, ThreeBlocks(s.lo), [s.lo + 248])
  {
    StartAt(h, s, ThreeBlocks(s.lo), [s.lo + 248]);
    h1 := ThreeMore(h, s);
    assert s.hi == s.lo + SPAN;
    hide At, Map, Fill, SixBlocks, ThreeBlocks;
    var lo := s.lo;
    var ops := [] + [Malloc(48)] + [Malloc(48)] + [Malloc(48)];
    h1 := Test4Fills(h, ops, h1, s);
    ops := ops + Fill(lo + 248, 12, 0x1111_1111) + Fill(lo + 304, 12, 0x2222_2222) + Fill(lo + 360, 12, 0x3333_3333);
    h1 := Test4Frees(h, ops, h1, s);
    ops := ops + [Free(lo + 248)] + [Free(lo + 304)];
    h1 := Test4Merged(h, ops, h1, s);
    ops := ops + [Malloc(80)] + [Free(lo + 248)];
    h1 := Test4Last(h, ops, h1, s);
  }

  lemma Test4Fills(h0: Heap, ops: seq<HeapOp>, h: Heap, s: Span) returns (h1: Heap)
    requires At(h0, ops, h, s, SixBlocks(s.lo), [s.lo + 416]) && 0 <= s.lo
    ensures At(h0, ops + Fill(s.lo + 248, 12, 0x1111_1111) + Fill(s.lo + 304, 12, 0x2222_2222) + Fill(s.lo + 360, 12, 0x3333_3333),
               h1, s, SixBlocks(s.lo), [s.lo + 416])
  {
    hide At, Fill;
    var lo, m := s.lo, SixBlocks(s.lo);
    h1 := DoFill(h0, ops, h, s, m, [lo + 416], lo + 248, lo + 304, 12, 0x1111_1111);
    var ops1 := ops + Fill(lo + 248, 12, 0x1111_1111);
    h1 := DoFill(h0, ops1, h1, s, m, [lo + 416], lo + 304, lo + 360, 12, 0x2222_2222);
    ops1 := ops1 + Fill(lo + 304, 12, 0x2222_2222);
    h1 := DoFill(h0, ops1, h1, s, m, [lo + 416], lo + 360, lo + 416, 12, 0x3333_3333);
  }

  lemma Test4Frees(h0: Heap, ops: seq<HeapOp>, h: Heap, s: Span) returns (h1: Heap)
    requires At(h0, ops, h, s, SixBlocks(s.lo), [s.lo + 416])
    ensures At(h0, ops + [Free(s.lo + 248)] + [Free(s.lo + 304)], h1, s, SixBlocks(s.lo) - {s.lo + 304}, [s.lo + 248] + [s.lo + 416])
  {
    hide At;
    var lo, m := s.lo, SixBlocks(s.lo);
    h1 := DoFree(h0, ops, h, s, m, [lo + 416], lo + 248, lo + 112, lo + 304, false, 0);
    h1 := DoFree(h0, ops + [Free(lo + 248)], h1, s, m, [lo + 248] + [lo + 416], lo + 304, lo + 248, lo + 360, false, 0);
  }

  function FiveBlocks(lo: int): set<int> {
    {lo, lo + 40, lo + 112, lo + 248, lo + 360, lo + 416}
  }

  lemma Test4Merged(h0: Heap, ops: seq<HeapOp>, h: Heap, s: Span) returns (h1: Heap)
    requires At(h0, ops, h, s, SixBlocks(s.lo) - {s.lo + 304}, [s.lo + 248] + [s.lo + 416]) && s.hi == s.lo + SPAN
    ensures At(h0, ops + [Malloc(80)] + [Free(s.lo + 248)], h1, s, FiveBlocks(s.lo), [s.lo + 248] + [s.lo + 416])
  {
    Sizes();
    hide At, Needed;
    var lo, m := s.lo, FiveBlocks(s.lo);
    assert SixBlocks(lo) - {lo + 304} == m;
    hide SixBlocks;
    h1 := DoMalloc(h0, ops, h, s, m, [lo + 248] + [lo + 416], 80, 88, lo + 360);
    h1 := DoFree(h0, ops + [Malloc(80)], h1, s, m + {lo + 336}, [lo + 336] + [lo + 416], lo + 248, lo + 112, lo + 336, true, 0);
    assert m + {lo + 336} - {lo + 336} == m;
    assert Without([lo + 336] + [lo + 416], 0) == [lo + 416];
  }

  lemma Test4Last(h0: Heap, ops: seq<HeapOp>, h: Heap, s: Span) returns (h1: Heap)
    requires At(h0, ops, h, s, FiveBlocks(s.lo), [s.lo + 248] + [s.lo + 416])
    ensures At(h0, ops + [Free(s.lo + 360)], h1, s, ThreeBlocks(s.lo), [s.lo + 248])
  {
    hide At;
    var lo, m := s.lo, FiveBlocks(s.lo);
    h1 := DoFree(h0, ops, h, s, m, [lo + 248] + [lo + 416], lo + 360, lo + 248, lo + 416, true, 1);
    assert Without([lo + 248] + [lo + 416], 1) == [lo + 248];
    assert m - {lo + 416} - {lo + 360} == ThreeBlocks(lo);
  }

  lemma Test5Run(h: Heap, s: Span) returns (h1: Heap)
    requires Map(h, s, ThreeBlocks(s.lo), [s.lo + 248])
    ensures 0 <= s.lo && At(h, Test5(s.lo), h1, s, ThreeBlocks(s.lo), [s.lo + 248])
  {
    StartAt(h, s, ThreeBlocks(s.lo), [s.lo + 248]);
    h1 := ThreeMore(h, s);
    assert s.hi == s.lo + SPAN;
    hide At, Map, Fill, SixBlocks, ThreeBlocks;
    var lo := s.lo;
    var ops := [] + [Malloc(48)] + [Malloc(48)] + [Malloc(48)];
    h1 := Test5Fills(h, ops, h1, s);
    ops := ops + Fill(lo + 304, 12, 0x5555_5555) + Fill(lo + 360, 12, 0x6666_6666);
    h1 := Test5Frees(h, ops, h1, s);
    ops := ops + [Free(lo + 304)] + [Free(lo + 360)];
    h1 := Test5Merged(h, ops, h1, s);
    ops := ops + [Malloc(80)] + Fill(lo + 304, 20, 0x7777_7777) + [Free(lo + 304)];
    h1 := Test5Last(h, ops, h1, s);
  }

  lemma Test5Fills(h0: Heap, ops: seq<HeapOp>, h: Heap, s: Span) returns (h1: Heap)
    requires At(h0, ops, h, s, SixBlocks(s.lo), [s.lo + 416]) && 0 <= s.lo
    ensures At(h0, ops + Fill(s.lo + 304, 12, 0x5555_5555) + Fill(s.lo + 360, 12, 0x6666_6666), h1, s, SixBlocks(s.lo), [s.lo + 416])
  {
    hide At, Fill;
    var lo, m := s.lo, SixBlocks(s.lo);
    h1 := DoFill(h0, ops, h, s, m, [lo + 416], lo + 304, lo + 360, 12, 0x5555_5555);
    h1 := DoFill(h0, ops + Fill(lo + 304, 12, 0x5555_5555), h1, s, m, [lo + 416], lo + 360, lo + 416, 12, 0x6666_6666);
  }

  function FourBlocks(lo: int): set<int> {
    {lo, lo + 40, lo + 112, lo + 248, lo + 304}
  }

  lemma Test5Frees(h0: Heap, ops: seq<HeapOp>, h: Heap, s: Span) returns (h1: Heap)
    requires At(h0, ops, h, s, SixBlocks(s.lo), [s.lo + 416])
    ensures At(h0, ops + [Free(s.lo + 304)] + [Free(s.lo + 360)], h1, s, FourBlocks(s.lo), [s.lo + 304])
  {
    hide At;
    var lo, m := s.lo, SixBlocks(s.lo);
    h1 := DoFree(h0, ops, h, s, m, [lo + 416], lo + 304, lo + 248, lo + 360, false, 0);
    h1 := DoFree(h0, ops + [Free(lo + 304)], h1, s, m, [lo + 304] + [lo + 416], lo + 360, lo + 304, lo + 416, true, 1);
    assert Without([lo + 304] + [lo + 416], 1) == [lo + 304];
    assert m - {lo + 416} - {lo + 360} == FourBlocks(lo);
  }

  lemma Test5Merged(h0: Heap, ops: seq<HeapOp>, h: Heap, s: Span) returns (h1: Heap)
    requires At(h0, ops, h, s, FourBlocks(s.lo), [s.lo + 304]) && s.hi == s.lo + SPAN && 0 <= s.lo
    ensures At(h0, ops + [Malloc(80)] + Fill(s.lo + 304, 20, 0x7777_7777) + [Free(s.lo + 304)], h1, s, FourBlocks(s.lo), [s.lo + 304])
  {
    Sizes();
    hide At, Needed, Fill;
    var lo, m := s.lo, FourBlocks(s.lo);
    h1 := DoMalloc(h0, ops, h, s, m, [lo + 304], 80, 88, s.hi);
    assert [lo + 392] + [lo + 304][1..] == [lo + 392];
    h1 := DoFill(h0, ops + [Malloc(80)], h1, s, m + {lo + 392}, [lo + 392], lo + 304, lo + 392, 20, 0x7777_7777);
    h1 := DoFree(h0, ops + [Malloc(80)] + Fill(lo + 304, 20, 0x7777_7777), h1, s, m + {lo + 392}, [lo + 392], lo + 304, lo + 248, lo + 392, true, 0);
    assert Without([lo + 392], 0) == [];
    assert [lo + 304] + Without([lo + 392], 0) == [lo + 304];
    assert m + {lo + 392} - {lo + 392} == m;
  }

  lemma Test5Last(h0: Heap, ops: seq<HeapOp>, h: Heap, s: Span) returns (h1: Heap)
    requires At(h0, ops, h, s, FourBlocks(s.lo), [s.lo + 304])
    ensures At(h0, ops + [Free(s.lo + 248)], h1, s, ThreeBlocks(s.lo), [s.lo + 248])
  {
    hide At;
    var lo, m := s.lo, FourBlocks(s.lo);
    h1 := DoFree(h0, ops, h, s, m, [lo + 304], lo + 248, lo + 112, lo + 304, true, 0);
    assert Without([lo + 304], 0) == [];
    assert [lo + 248] + Without([lo + 304], 0) == [lo + 248];
    assert m - {lo + 304} == ThreeBlocks(lo);
  }

  // ----- test 6: two hundred blocks of 500 bytes -----

  /** Block i of test 6, as long as the first span lasts. */
  function BlockAt(lo: int, i: int): int {
    lo + 248 + 512 * i
  }

  /** kmalloc(500) and the fill with its number, for the first n blocks */
  function Blocks(lo: nat, n: nat): seq<HeapOp>
    requires n <= 10
  {
    if n == 0 then [] else Blocks(lo, n - 1) + OneMore(lo, n - 1)
  }

  function OneMore(lo: nat, i: nat): seq<HeapOp>
    requires i < 10
  {
    [Malloc(500)] + Fill(BlockAt(lo, i), 125, i * 0x0101_0101)
  }

  ghost function WithBlocks(lo: int, n: nat): set<int> {
    ThreeBlocks(lo) + FirstBlocks(lo, n)
  }

  ghost function FirstBlocks(lo: int, n: nat): set<int> {
    set i | 0 <= i <= n :: BlockAt(lo, i)
  }

  lemma NextStart(lo: int, n: nat)
    ensures WithBlocks(lo, n + 1) == WithBlocks(lo, n) + {BlockAt(lo, n + 1)}
    ensures BlockAt(lo, n + 1) == BlockAt(lo, n) + 512
  {
    assert FirstBlocks(lo, n + 1) == FirstBlocks(lo, n) + {BlockAt(lo, n + 1)};
  }

  lemma WithNone(lo: int)
    ensures WithBlocks(lo, 0) == ThreeBlocks(lo) && BlockAt(lo, 0) == lo + 248
  {
    assert FirstBlocks(lo, 0) == {BlockAt(lo, 0)};
  }

  lemma AllBelow(lo: int, n: nat, e: int)
    requires BlockAt(lo, n) < e
    ensures Adjacent(WithBlocks(lo, n), BlockAt(lo, n), e)
  {
  }

  lemma AdjacentBlocks(lo: int, n: nat, i: nat)
    requires i < n
    ensures BlockAt(lo, i) in WithBlocks(lo, n) && BlockAt(lo, i + 1) in WithBlocks(lo, n)
    ensures Adjacent(WithBlocks(lo, n), BlockAt(lo, i), BlockAt(lo, i + 1))
  {
    forall x | x in WithBlocks(lo, n) ensures x <= BlockAt(lo, i) || BlockAt(lo, i + 1) <= x {
      if x !in ThreeBlocks(lo) {
        var j :| 0 <= j <= n && x == BlockAt(lo, j);
        if j > i { assert 512 * j >= 512 * (i + 1); }
      }
    }
  }

  lemma {:induction false} BlocksRun(h: Heap, s: Span, n: nat) returns (h1: Heap)
    requires Map(h, s, ThreeBlocks(s.lo), [s.lo + 248]) && n <= 10
    ensures 0 <= s.lo && At(h, Blocks(s.lo, n), h1, s, WithBlocks(s.lo, n), [BlockAt(s.lo, n)])
    decreases n
  {
    StartAt(h, s, ThreeBlocks(s.lo), [s.lo + 248]);
    var lo := s.lo;
    assert s.hi == lo + SPAN;
    if n == 0 {
      WithNone(lo);
      h1 := h;
    } else {
      h1 := BlocksRun(h, s, n - 1);
      h1 := OneBlock(h, Blocks(lo, n - 1), h1, s, n - 1);
    }
  }

  lemma OneBlock(h0: Heap, ops: seq<HeapOp>, h: Heap, s: Span, n: nat) returns (h1: Heap)
    requires 0 <= s.lo && s.hi == s.lo + SPAN && n < 10 && At(h0, ops, h, s, WithBlocks(s.lo, n), [BlockAt(s.lo, n)])
    ensures At(h0, ops + OneMore(s.lo, n), h1, s, WithBlocks(s.lo, n + 1), [BlockAt(s.lo, n + 1)])
    ensures var b := BlockAt(s.lo, n);
            forall j | 0 <= j < 125 :: b + HEADER_SIZE + 4 * j < |h1.mem| && h1.mem[b + HEADER_SIZE + 4 * j] == n * 0x0101_0101
  {
    var lo, b := s.lo, BlockAt(s.lo, n);
    hide At, Fill, Map, WithBlocks;
    h1 := OneRequest(h0, ops, h, s, n);
    AdjacentBlocks(lo, n + 1, n);
    h1 := DoFill(h0, ops + [Malloc(500)], h1, s, WithBlocks(lo, n + 1), [BlockAt(lo, n + 1)], b, b + 512, 125, n * 0x0101_0101);
    assert ops + [Malloc(500)] + Fill(b, 125, n * 0x0101_0101) == ops + OneMore(lo, n);
  }

  lemma OneRequest(h0: Heap, ops: seq<HeapOp>, h: Heap, s: Span, n: nat) returns (h1: Heap)
    requires 0 <= s.lo && s.hi == s.lo + SPAN && n < 10 && At(h0, ops, h, s, WithBlocks(s.lo, n), [BlockAt(s.lo, n)])
    ensures At(h0, ops + [Malloc(500)], h1, s, WithBlocks(s.lo, n + 1), [BlockAt(s.lo, n + 1)])
  {
    hide At, Needed, Map, WithBlocks;
    Sizes();
    var lo, b := s.lo, BlockAt(s.lo, n);
    AllBelow(lo, n, s.hi);
    NextStart(lo, n);
    h1 := DoMalloc(h0, ops, h, s, WithBlocks(lo, n), [b], 500, 512, s.hi);
    assert [b + 512] + [b][1..] == [BlockAt(lo, n + 1)];
  }

  // ----- the rest of the allocations -----

  /** Block a is live and ends at e. */
  ghost predicate LiveTo(h: Heap, a: int, e: int) {
    h.IsLive(a) && h.Has(a) && h.End(a) == e
  }

  /** Requests, growth and stores: no block is freed, and the two words at k stay. */
  predicate Allocates(ops: seq<HeapOp>, k: int) {
    forall op | op in ops :: !op.Free? && (op.Write? ==> op.k != k && op.k != k + 4)
  }

  lemma {:induction false} StaysLive(h: Heap, ops: seq<HeapOp>, k: int, a: int, e: int)
    requires HeapOk(h, {}) && Run(h, ops).Some? && Allocates(ops, k) && LiveTo(h, a, e)
    ensures LiveTo(Run(h, ops).value, a, e)
    decreases |ops|
  {
    if ops != [] {
      FirstOp(h, ops);
      var op := ops[0];
      TiledBlock(h, a);
      if op.Write? { var c :| InPayload(h, c, op.k); WriteKeeps(h, c, op.k, op.v, a); }
      hide HeapOk, Enabled, Step, Run;
      StepKeepsLive(h, op, a, a);
      assert Allocates(ops[1..], k);
      StaysLive(Step(h, op), ops[1..], k, a, e);
    }
  }

  lemma {:induction false} WordStays(h: Heap, ops: seq<HeapOp>, k: int, a: int, e: int, x: nat)
    requires HeapOk(h, {}) && Run(h, ops).Some? && Allocates(ops, k) && LiveTo(h, a, e) && a <= x < e && (x == k || x == k + 4)
    ensures x < |h.mem| && x < |Run(h, ops).value.mem| && Run(h, ops).value.mem[x] == h.mem[x]
    decreases |ops|
  {
    TiledBlock(h, a);
    if ops != [] {
      FirstOp(h, ops);
      StaysLive(h, [ops[0]], k, a, e) by { Once(h, ops[0]); assert Allocates([ops[0]], k); }
      Once(h, ops[0]);
      hide HeapOk, Enabled, Step, Run;
      StepKeepsLive(h, ops[0], a, x);
      assert Allocates(ops[1..], k);
      WordStays(Step(h, ops[0]), ops[1..], k, a, e, x);
    }
  }

  // ----- the frees -----

  /** The state in which the first n of the ten blocks have been freed: they are one free block at the
      head of the list, the others are live, and the page of the ninth starts with two words v. */
  ghost predicate Freed(g: Heap, lo: int, n: nat, v: Word) {
    && HeapOk(g, {}) && lo % PAGE_SIZE == 0 && MANAGED_BASE <= lo && LiveTo(g, lo, lo + 40)
    && (if n == 0 then LiveTo(g, lo + 112, lo + 248)
        else g.list != [] && g.list[0] == lo + 248 && lo + 248 in g.starts && g.Has(lo + 248) && g.End(lo + 248) == BlockAt(lo, n))
    && (forall i | n <= i <= 9 :: LiveTo(g, BlockAt(lo, i), BlockAt(lo, i + 1)))
    && lo + PAGE_SIZE + FREE < |g.mem| && g.mem[lo + PAGE_SIZE] == v && g.mem[lo + PAGE_SIZE + FREE] == v
  }

  /** Nothing is joined if the next block is live. */
  lemma NoJoin(h: Heap, b: int, e: int)
    requires HeapOk(h, {}) && LiveTo(h, b, e) && h.IsLive(e)
    ensures Merged(h, b) == SetFlag(h, b, 1) && Merged(h, b).list == h.list && Merged(h, b).starts == h.starts
  {
    TiledBlock(h, b);
    TiledBlock(h, e);
    Apart(h, b, e);
    SetFlagOk(h, b, 1, {});
    assert {} + {b} == {b};
  }

  /** A release changes no word that the heap does not look at, outside the links of b. */
  lemma ReleaseKeepsWord(h: Heap, b: int, k: nat)
    requires CanFree(h, b) && k < |h.mem| && Unused(h, k) && (k < b || b + MIN_BLOCK_SIZE <= k) && Merged(h, b).list == h.list && Merged(h, b).starts == h.starts
    ensures |Release(h, b).mem| == |h.mem| && Release(h, b).mem[k] == h.mem[k]
  {
    F.MergedKeepsWord(h, b, k);
    var g := Merged(h, b);
    hide Merged, Flagged;
    F.PendingBlock(g, b);
    HeadOk(g);
    if g.list != [] { StartOf(g, 0); }
    hide Tiled, Linked;
  }

  /** After a release the block before, or b itself, reaches to the end of b. */
  lemma ReleaseEnd(h: Heap, b: int, p: int)
    requires CanFree(h, b) && PageBase(b) < b && PageBase(b) in h.starts
    requires var g := Merged(h, b); g.starts == h.starts && p in g.starts && p < b && g.Has(p) && g.End(p) == b && g.Has(b)
    ensures var g, h1 := Merged(h, b), Release(h, b);
            var f := if p in g.list then p else b;
            && f in h1.starts && h1.Has(f) && h1.End(f) == g.End(b)
  {
    var g := Merged(h, b);
    hide Merged, Flagged;
    F.PendingBlock(g, b);
    var q := WalkPrev(g, PageBase(b), b);
    TiledBlock(g, q);
    if p < q { TiledPrecedes(g, p, q); } else if q < p { TiledPrecedes(g, q, p); }
    F.FlagOf(g, b, p);
    ListedFlag(g, b, p);
    hide Linked, BlockOk;
    HeadOk(g);
    if p in g.list {
      AbsorbTiled(g, p, b);
    } else {
      SameSizeInsert(g, b, {b}, b);
    }
  }

  lemma FirstPage(lo: int, n: nat)
    requires lo % PAGE_SIZE == 0 && n <= 7
    ensures PageBase(BlockAt(lo, n)) == lo
  {
    PageOfFirst(lo, BlockAt(lo, n));
  }

  /** One free of test 6. */
  lemma FreeNext(g: Heap, lo: int, n: nat, v: Word)
    requires Freed(g, lo, n, v) && n < 8
    ensures HeapOk(g, {}) && Enabled(g, Free(BlockAt(lo, n))) && Freed(Step(g, Free(BlockAt(lo, n))), lo, n + 1, v)
  {
    var b, e := BlockAt(lo, n), BlockAt(lo, n + 1);
    var p := if n == 0 then lo + 112 else lo + 248;
    assert LiveTo(g, b, e) && LiveTo(g, e, BlockAt(lo, n + 2));
    FirstPage(lo, n);
    hide HeapOk, Merged, Release, Unused;
    MergedStarts(g, b);
    NoJoin(g, b, e);
    PrevPlace(g, lo, n, v);
    ReleaseOk(g, b);
    ReleaseShape(g, b, p);
    ReleaseEnd(g, b, p);
    PageWords(g, lo, n, v);
    ReleaseKeepsWord(g, b, lo + PAGE_SIZE);
    ReleaseKeepsWord(g, b, lo + PAGE_SIZE + FREE);
    ReleaseKeeps(g, b, lo, lo + 40);
    OthersStay(g, lo, n, v);
  }

  lemma OthersStay(g: Heap, lo: int, n: nat, v: Word)
    requires Freed(g, lo, n, v) && n < 8 && CanFree(g, BlockAt(lo, n))
    ensures forall i | n + 1 <= i <= 9 :: LiveTo(Release(g, BlockAt(lo, n)), BlockAt(lo, i), BlockAt(lo, i + 1))
  {
    hide HeapOk, Release, CanFree;
    forall i | n + 1 <= i <= 9 ensures LiveTo(Release(g, BlockAt(lo, n)), BlockAt(lo, i), BlockAt(lo, i + 1)) {
      ReleaseKeeps(g, BlockAt(lo, n), BlockAt(lo, i), BlockAt(lo, i + 1));
    }
  }

  lemma ReleaseKeeps(g: Heap, b: int, a: int, e: int)
    requires CanFree(g, b) && LiveTo(g, a, e) && a != b
    ensures LiveTo(Release(g, b), a, e) && |Release(g, b).mem| == |g.mem|
  {
    ReleaseKeepsLive(g, b, a);
    TiledBlock(g, a);
    hide HeapOk, Release, CanFree;
  }

  /** The block before the n-th one, as the walk finds it. */
  lemma PrevPlace(g: Heap, lo: int, n: nat, v: Word)
    requires Freed(g, lo, n, v) && n < 8 && g.IsLive(BlockAt(lo, n))
    ensures var b, p := BlockAt(lo, n), if n == 0 then lo + 112 else lo + 248;
            && p in g.starts && p < b && lo in g.starts && g.Has(p) && g.End(p) == b && (p in g.list <==> n > 0)
            && b !in g.list && g.Has(b)
            && var h1 := SetFlag(g, b, 1); h1.Has(p) && h1.End(p) == b && h1.Has(b) && h1.End(b) == BlockAt(lo, n + 1)
  {
    var b, p := BlockAt(lo, n), if n == 0 then lo + 112 else lo + 248;
    assert LiveTo(g, b, BlockAt(lo, n + 1));
    TiledBlock(g, p);
    TiledBlock(g, b);
    Apart(g, p, b);
    LiveUnlisted(g, b);
    if n == 0 { LiveUnlisted(g, p); }
    hide HeapOk;
  }

  lemma PageWords(g: Heap, lo: int, n: nat, v: Word)
    requires Freed(g, lo, n, v) && n < 8
    ensures Unused(g, lo + PAGE_SIZE) && Unused(g, lo + PAGE_SIZE + FREE)
  {
    assert LiveTo(g, BlockAt(lo, 7), BlockAt(lo, 8));
    hide HeapOk;
    PayloadUnused(g, BlockAt(lo, 7), lo + PAGE_SIZE);
    PayloadUnused(g, BlockAt(lo, 7), lo + PAGE_SIZE + FREE);
  }

  // ----- the ninth free -----

  /** The ninth block cannot be freed soundly: its page starts inside the block that the first eight have
      become. */
  lemma NinthNotFreeable(g: Heap, lo: int, v: Word)
    requires Freed(g, lo, 8, v)
    ensures g.IsLive(BlockAt(lo, 8)) && !CanFree(g, BlockAt(lo, 8))
    ensures PageBase(BlockAt(lo, 8)) == lo + PAGE_SIZE && Merged(g, BlockAt(lo, 8)) == SetFlag(g, BlockAt(lo, 8), 1)
  {
    var b := BlockAt(lo, 8);
    assert LiveTo(g, b, BlockAt(lo, 9)) && LiveTo(g, BlockAt(lo, 9), BlockAt(lo, 10));
    PageOfFirst(lo + PAGE_SIZE, b);
    NoJoin(g, b, BlockAt(lo, 9));
    NotInside(g, lo + 248, lo + PAGE_SIZE);
    hide HeapOk, Merged;
  }

  lemma NotInside(g: Heap, f: int, k: int)
    requires HeapOk(g, {}) && f in g.starts && g.Has(f) && f < k < g.End(f)
    ensures k !in g.starts
  {
    if k in g.starts { TiledPrecedes(g, f, k); }
  }

  /** A word inside a free block, behind its links, is not looked at. */
  lemma InsideUnused(g: Heap, f: int, k: int)
    requires HeapOk(g, {}) && f in g.starts && g.Has(f) && f + MIN_BLOCK_SIZE <= k < g.End(f)
    ensures Unused(g, k)
  {
    forall x | x in g.starts ensures g.Has(x) && k != x && k != x + FREE && k != x + NEXT && k != x + PREV {
      TiledBlock(g, x);
      if x < f { TiledPrecedes(g, x, f); } else if f < x { TiledPrecedes(g, f, x); }
    }
    forall x | x in g.list ensures x in g.starts { ListedStart(g, x); }
  }

  /** `kfree` of the ninth block takes the words at the start of its page for a free block, adds to the one
      and never lists the ninth: what it leaves is no heap. */
  lemma NinthBreaksHeap(g: Heap, lo: int, v: Word) returns (mem: seq<Word>, head: Word)
    requires Freed(g, lo, 8, v) && PAGE_SIZE <= v < TWO_TO_32 - USER_MEM_START && HeapOk(g, {}) && g.IsLive(BlockAt(lo, 8))
    ensures F.KfreeGives(g, BlockAt(lo, 8), mem, head) && !F.IsHeap(mem, head, g.spans)
  {
    var b, ps := BlockAt(lo, 8), lo + PAGE_SIZE;
    NinthNotFreeable(g, lo, v);
    InsideUnused(g, lo + 248, ps);
    InsideUnused(g, lo + 248, ps + FREE);
    F.MergedKeepsWord(g, b, ps);
    F.MergedKeepsWord(g, b, ps + FREE);
    F.MergedInMemory(g, b);
    F.MergedSpans(g, b);
    var m := Merged(g, b);
    PageUnusedAfter(g, b, ps);
    hide HeapOk, Merged, Unused, Freed;
    F.PendingBlock(m, b);
    mem := m.mem[ps := Wrap(m.End(ps) - ps + m.mem[b])];
    head := m.head;
    WalkJumps(m.mem, ps, b);
    assert F.Ends(m, b, ps, mem, head);
    forall starts, list ensures !HeapOk(Heap(mem, head, starts, list, g.spans), {}) {
      F.LostIsNoHeap(m, b, ps, Heap(mem, head, starts, list, g.spans));
    }
  }

  lemma PageUnusedAfter(g: Heap, b: int, k: int)
    requires HeapOk(g, {}) && g.IsLive(b) && Unused(g, k) && Merged(g, b) == SetFlag(g, b, 1)
    ensures Unused(Merged(g, b), k)
  {
  }

  lemma WalkJumps(m: seq<Word>, ps: Word, b: int)
    requires ps < b < ps + PAGE_SIZE && b < |m| == USER_MEM_START && PAGE_SIZE <= m[ps] < TWO_TO_32 - USER_MEM_START
    ensures Walks(m, Wrap(ps), 0, b, ps, 1)
  {
    assert Wrap(ps) == ps && Wrap(ps + m[ps]) == ps + m[ps] >= b;
    assert Walks(m, Wrap(ps + m[ps]), ps, b, ps, 0);
  }

  // ----- the whole self-check -----

  /** The frees of test 6, up to the n-th block */
  function Frees(lo: int, n: nat): seq<HeapOp> {
    if n == 0 then [] else Frees(lo, n - 1) + [Free(BlockAt(lo, n - 1))]
  }

  lemma {:induction false} FreesRun(g: Heap, lo: int, n: nat, v: Word) returns (g1: Heap)
    requires Freed(g, lo, 0, v) && n <= 8
    ensures HeapOk(g, {}) && Run(g, Frees(lo, n)) == Some(g1) && Freed(g1, lo, n, v)
    decreases n
  {
    if n == 0 {
      F.RunNothing(g);
      g1 := g;
    } else {
      var g0 := FreesRun(g, lo, n - 1, v);
      FreeNext(g0, lo, n - 1, v);
      g1 := Step(g0, Free(BlockAt(lo, n - 1)));
      hide Freed, HeapOk, Run, Enabled, Step;
      Once(g0, Free(BlockAt(lo, n - 1)));
      Then(g, Frees(lo, n - 1), g0, [Free(BlockAt(lo, n - 1))], g1);
    }
  }

  /** kmain's heap after `kheap_init`. */
  lemma InitRun(h: Heap, s: Span) returns (h1: Heap)
    requires HeapOk(h, {}) && h.list == [] && h.spans == [] && h.starts == {} && NewSpan(h, s) && s.hi == s.lo + SPAN
    ensures Run(h, [Expand(s)]) == Some(h1) && Map(h1, s, {s.lo}, [s.lo])
  {
    assert s.lo % PAGE_SIZE == 0;
    hide HeapOk, Run, NewSpan;
    FirstSpan(h, s);
    Once(h, Expand(s));
    h1 := Step(h, Expand(s));
    assert [] + [s] == [s];
  }

  /** `kheap_init` and `heap_tests` up to the tenth block of test 6. */
  function UpToTenBlocks(s: Span): seq<HeapOp>
    requires 0 <= s.lo
  {
    [Expand(s)] + Tests1And2(s.lo) + Test3(s.lo) + Test4(s.lo) + Test5(s.lo) + Blocks(s.lo, 7) + OneMore(s.lo, 7) + (OneMore(s.lo, 8) + OneMore(s.lo, 9))
  }

  lemma FirstTests(h: Heap, s: Span) returns (h1: Heap)
    requires HeapOk(h, {}) && h.list == [] && h.spans == [] && h.starts == {} && NewSpan(h, s) && s.hi == s.lo + SPAN
    ensures 0 <= s.lo && Run(h, [Expand(s)] + Tests1And2(s.lo) + Test3(s.lo) + Test4(s.lo) + Test5(s.lo)) == Some(h1)
    ensures Map(h1, s, ThreeBlocks(s.lo), [s.lo + 248])
  {
    assert 0 <= s.lo;
    hide HeapOk, Run, NewSpan, Map, Tests1And2, Test3, Test4, Test5;
    var lo := s.lo;
    var a := InitRun(h, s);
    var b := Tests1And2Run(a, s);
    AtParts(a, Tests1And2(lo), b, s, ThreeBlocks(lo), [lo + 248]);
    Then(h, [Expand(s)], a, Tests1And2(lo), b);
    var c := Test3Run(b, s);
    AtParts(b, Test3(lo), c, s, ThreeBlocks(lo), [lo + 248]);
    Then(h, [Expand(s)] + Tests1And2(lo), b, Test3(lo), c);
    var d := Test4Run(c, s);
    AtParts(c, Test4(lo), d, s, ThreeBlocks(lo), [lo + 248]);
    Then(h, [Expand(s)] + Tests1And2(lo) + Test3(lo), c, Test4(lo), d);
    h1 := Test5Run(d, s);
    AtParts(d, Test5(lo), h1, s, ThreeBlocks(lo), [lo + 248]);
    Then(h, [Expand(s)] + Tests1And2(lo) + Test3(lo) + Test4(lo), d, Test5(lo), h1);
  }

  lemma AtParts(h0: Heap, ops: seq<HeapOp>, h: Heap, s: Span, starts: set<int>, list: seq<int>)
    requires At(h0, ops, h, s, starts, list)
    ensures HeapOk(h0, {}) && Run(h0, ops) == Some(h) && Map(h, s, starts, list)
  {
  }

  const FILL7: Word := 7 * 0x0101_0101

  lemma NoFreesThere(lo: nat)
    ensures Allocates(OneMore(lo, 8) + OneMore(lo, 9), lo + PAGE_SIZE)
  {
    forall op | op in OneMore(lo, 8) + OneMore(lo, 9) ensures !op.Free? && (op.Write? ==> op.k > lo + PAGE_SIZE + FREE) {
      var n := if op in OneMore(lo, 8) then 8 else 9;
      if op != Malloc(500) {
        assert op in Fill(BlockAt(lo, n), 125, n * 0x0101_0101);
      }
    }
  }

  /** The eighth block with its fill, in which the ninth one's page starts. */
  ghost predicate EighthFilled(h: Heap, lo: int) {
    && HeapOk(h, {}) && LiveTo(h, BlockAt(lo, 7), BlockAt(lo, 8))
    && 0 <= lo && lo + PAGE_SIZE + FREE < |h.mem| && h.mem[lo + PAGE_SIZE] == FILL7 && h.mem[lo + PAGE_SIZE + FREE] == FILL7
  }

  lemma EighthThere(h0: Heap, ops: seq<HeapOp>, h: Heap, s: Span) returns (h1: Heap)
    requires 0 <= s.lo && s.hi == s.lo + SPAN && At(h0, ops, h, s, WithBlocks(s.lo, 7), [BlockAt(s.lo, 7)])
    ensures At(h0, ops + OneMore(s.lo, 7), h1, s, WithBlocks(s.lo, 8), [BlockAt(s.lo, 8)]) && EighthFilled(h1, s.lo)
  {
    var lo := s.lo;
    h1 := OneBlock(h0, ops, h, s, 7);
    AdjacentBlocks(lo, 8, 7);
    hide WithBlocks, OneMore;
    MapEnd(h1, s, WithBlocks(lo, 8), [BlockAt(lo, 8)], BlockAt(lo, 7), BlockAt(lo, 8));
    hide HeapOk, Run;
    assert h1.mem[BlockAt(lo, 7) + HEADER_SIZE + 4 * 64] == FILL7 && h1.mem[BlockAt(lo, 7) + HEADER_SIZE + 4 * 65] == FILL7;
  }

  lemma LastTwo(h: Heap, s: Span) returns (h1: Heap)
    requires 0 <= s.lo && s.hi == s.lo + SPAN && Map(h, s, WithBlocks(s.lo, 8), [BlockAt(s.lo, 8)])
    ensures HeapOk(h, {}) && Run(h, OneMore(s.lo, 8) + OneMore(s.lo, 9)) == Some(h1)
    ensures Map(h1, s, WithBlocks(s.lo, 10), [BlockAt(s.lo, 10)])
  {
    var lo := s.lo;
    StartAt(h, s, WithBlocks(lo, 8), [BlockAt(lo, 8)]);
    hide At, Map, WithBlocks, OneMore, HeapOk, Run;
    var g := OneBlock(h, [], h, s, 8);
    assert [] + OneMore(lo, 8) == OneMore(lo, 8);
    h1 := OneBlock(h, OneMore(lo, 8), g, s, 9);
    AtParts(h, OneMore(lo, 8) + OneMore(lo, 9), h1, s, WithBlocks(lo, 10), [BlockAt(lo, 10)]);
  }

  /** With ten blocks in place the frees can begin. */
  lemma FreesBegin(h: Heap, s: Span, v: Word)
    requires Map(h, s, WithBlocks(s.lo, 10), [BlockAt(s.lo, 10)])
    requires 0 <= s.lo && s.lo + PAGE_SIZE + FREE < |h.mem| && h.mem[s.lo + PAGE_SIZE] == v && h.mem[s.lo + PAGE_SIZE + FREE] == v
    ensures Freed(h, s.lo, 0, v)
  {
    var lo := s.lo;
    FirstThree(lo);
    MapEnd(h, s, WithBlocks(lo, 10), [BlockAt(lo, 10)], lo, lo + 40);
    MapEnd(h, s, WithBlocks(lo, 10), [BlockAt(lo, 10)], lo + 112, lo + 248);
    StartAt(h, s, WithBlocks(lo, 10), [BlockAt(lo, 10)]);
    assert HeapOk(h, {}) && lo % PAGE_SIZE == 0;
    hide WithBlocks, HeapOk, Map, Run;
    forall i | 0 <= i <= 9 ensures LiveTo(h, BlockAt(lo, i), BlockAt(lo, i + 1)) {
      AdjacentBlocks(lo, 10, i);
      MapEnd(h, s, WithBlocks(lo, 10), [BlockAt(lo, 10)], BlockAt(lo, i), BlockAt(lo, i + 1));
    }
  }

  lemma FirstThree(lo: int)
    ensures var m := WithBlocks(lo, 10);
            lo in m && lo + 40 in m && lo + 112 in m && lo + 248 in m && Adjacent(m, lo, lo + 40) && Adjacent(m, lo + 112, lo + 248)
  {
  }

  /** The last two of ten blocks leave the eighth one's words. */
  lemma TwoMore(c: Heap, s: Span) returns (h1: Heap)
    requires 0 <= s.lo && s.hi == s.lo + SPAN && Map(c, s, WithBlocks(s.lo, 8), [BlockAt(s.lo, 8)]) && EighthFilled(c, s.lo)
    ensures HeapOk(c, {}) && Run(c, OneMore(s.lo, 8) + OneMore(s.lo, 9)) == Some(h1) && Freed(h1, s.lo, 0, FILL7)
  {
    var lo := s.lo;
    hide HeapOk, Run, Map, OneMore, Freed, WithBlocks, Allocates;
    h1 := LastTwo(c, s);
    NoFreesThere(lo);
    WordStays(c, OneMore(lo, 8) + OneMore(lo, 9), lo + PAGE_SIZE, BlockAt(lo, 7), BlockAt(lo, 8), lo + PAGE_SIZE);
    WordStays(c, OneMore(lo, 8) + OneMore(lo, 9), lo + PAGE_SIZE, BlockAt(lo, 7), BlockAt(lo, 8), lo + PAGE_SIZE + FREE);
    SameSize(c, OneMore(lo, 8) + OneMore(lo, 9));
    FreesBegin(h1, s, FILL7);
  }

  /** Ten blocks of test 6 stand, and the ninth one's page starts with the fill of the eighth. */
  lemma TenBlocks(h: Heap, s: Span) returns (h1: Heap)
    requires HeapOk(h, {}) && h.list == [] && h.spans == [] && h.starts == {} && NewSpan(h, s) && s.hi == s.lo + SPAN
    ensures 0 <= s.lo && Run(h, UpToTenBlocks(s)) == Some(h1) && Freed(h1, s.lo, 0, FILL7)
  {
    hide HeapOk, Run, NewSpan, Map, Tests1And2, Test3, Test4, Test5, Blocks, OneMore, Freed, WithBlocks, EighthFilled;
    var a := FirstTests(h, s);
    var lo := s.lo;
    var ops := [Expand(s)] + Tests1And2(lo) + Test3(lo) + Test4(lo) + Test5(lo);
    var b := BlocksRun(a, s, 7);
    var c := EighthThere(a, Blocks(lo, 7), b, s);
    AtParts(a, Blocks(lo, 7) + OneMore(lo, 7), c, s, WithBlocks(lo, 8), [BlockAt(lo, 8)]);
    h1 := TwoMore(c, s);
    Then(h, ops, a, Blocks(lo, 7) + OneMore(lo, 7), c);
    Then(h, ops + (Blocks(lo, 7) + OneMore(lo, 7)), c, OneMore(lo, 8) + OneMore(lo, 9), h1);
    assert ops + (Blocks(lo, 7) + OneMore(lo, 7)) == ops + Blocks(lo, 7) + OneMore(lo, 7);
  }

  lemma SameSize(h: Heap, ops: seq<HeapOp>)
    requires HeapOk(h, {}) && Run(h, ops).Some?
    ensures |Run(h, ops).value.mem| == |h.mem| == USER_MEM_START
  {
    Parts(h, {});
    Parts(Run(h, ops).value, {});
  }

  /** The other 190 blocks, with their fills and the growth they need, change nothing about that. */
  lemma GoesOn(h: Heap, lo: int, more: seq<HeapOp>, v: Word)
    requires Freed(h, lo, 0, v) && HeapOk(h, {}) && Run(h, more).Some? && Allocates(more, lo + PAGE_SIZE)
    ensures Freed(Run(h, more).value, lo, 0, v)
  {
    var g := Run(h, more).value;
    var k := lo + PAGE_SIZE;
    assert LiveTo(h, BlockAt(lo, 7), BlockAt(lo, 8));
    SameSize(h, more);
    hide HeapOk, Run, Allocates;
    WordStays(h, more, k, BlockAt(lo, 7), BlockAt(lo, 8), k);
    WordStays(h, more, k, BlockAt(lo, 7), BlockAt(lo, 8), k + FREE);
    StaysLive(h, more, k, lo, lo + 40);
    StaysLive(h, more, k, lo + 112, lo + 248);
    forall i | 0 <= i <= 9 ensures LiveTo(g, BlockAt(lo, i), BlockAt(lo, i + 1)) {
      StaysLive(h, more, k, BlockAt(lo, i), BlockAt(lo, i + 1));
    }
  }

  /** The self-check on a fresh heap, with any further allocations after the tenth block of test 6: the
      first eight frees are sound, the ninth is not, and it breaks the heap. */
  lemma SelfCheckBreaksHeap(h: Heap, s: Span, more: seq<HeapOp>) returns (h10: Heap, g: Heap, mem: seq<Word>, head: Word)
    requires HeapOk(h, {}) && h.list == [] && h.spans == [] && h.starts == {} && NewSpan(h, s) && s.hi == s.lo + SPAN
    ensures 0 <= s.lo && Run(h, UpToTenBlocks(s)) == Some(h10)
    ensures Run(h10, more).Some? && Allocates(more, s.lo + PAGE_SIZE) ==>
              && Run(h, UpToTenBlocks(s) + more + Frees(s.lo, 8)) == Some(g)
              && g.IsLive(BlockAt(s.lo, 8)) && !CanFree(g, BlockAt(s.lo, 8))
              && F.KfreeGives(g, BlockAt(s.lo, 8), mem, head) && !F.IsHeap(mem, head, g.spans)
  {
    h10 := TenBlocks(h, s);
    hide HeapOk, Run, NewSpan, Freed, UpToTenBlocks, Frees, Allocates, F.KfreeGives, F.IsHeap, CanFree;
    g, mem, head := h10, [], 0;
    if Run(h10, more).Some? && Allocates(more, s.lo + PAGE_SIZE) {
      FreedOk(h10, s.lo, 0, FILL7);
      GoesOn(h10, s.lo, more, FILL7);
      var h200 := Run(h10, more).value;
      g := FreesRun(h200, s.lo, 8, FILL7);
      Then(h, UpToTenBlocks(s), h10, more, h200);
      Then(h, UpToTenBlocks(s) + more, h200, Frees(s.lo, 8), g);
      NinthNotFreeable(g, s.lo, FILL7);
      FreedOk(g, s.lo, 8, FILL7);
      mem, head := NinthBreaksHeap(g, s.lo, FILL7);
    }
  }

  lemma FreedOk(g: Heap, lo: int, n: nat, v: Word)
    requires Freed(g, lo, n, v)
    ensures HeapOk(g, {})
  {
  }
}
