/** mm/kheap.c: the allocator on memory words, in place. */
module Kheap {
  import opened Words
  import opened Options
  import opened PageRuns
  import opened Pmm
  import opened HeapState
  import opened HeapRuns

  const HEAP_INIT_PAGES := 16
  const MAX_HEAP_PAGES := 256
  const EXPAND_PAGES := 4

  /** The pages of the spans, in the order in which the heap obtained them. */
  ghost function PagesOf(spans: seq<Span>): seq<int> {
    if spans == [] then []
    else
      var s := spans[|spans| - 1];
      PagesOf(spans[..|spans| - 1]) + (if s.hi <= s.lo then [] else seq((s.hi - s.lo) / PAGE_SIZE, i requires 0 <= i => s.lo + i * PAGE_SIZE))
  }

  lemma PagesOfOneMore(spans: seq<Span>, s: Span)
    requires s.lo < s.hi
    ensures PagesOf(spans + [s]) == PagesOf(spans) + seq((s.hi - s.lo) / PAGE_SIZE, i requires 0 <= i => s.lo + i * PAGE_SIZE)
  {
    assert (spans + [s])[..|spans|] == spans;
  }

  /** The block sizes of the first n spans together. */
  ghost function TotalSize(h: Heap, n: nat): int
    requires Tiled(h) && n <= |h.spans|
  {
    if n == 0 then 0
    else
      assert SpanOk(h, h.spans[n - 1]);
      TotalSize(h, n - 1) + SizesFrom(h, h.spans[n - 1], h.spans[n - 1].lo)
  }

  /** The blocks, free and live, account for all the bytes of the recorded pages. */
  lemma {:induction false} TotalIsPages(h: Heap, n: nat)
    requires Tiled(h) && n <= |h.spans|
    ensures TotalSize(h, n) == |PagesOf(h.spans[..n])| * PAGE_SIZE
  {
    if n > 0 {
      var s := h.spans[n - 1];
      assert SpanOk(h, s);
      TotalIsPages(h, n - 1);
      SizesAddUp(h, s, s.lo);
      assert h.spans[..n] == h.spans[..n - 1] + [s];
      PagesOfOneMore(h.spans[..n - 1], s);
      WholePages(s.hi, s.lo);
    }
  }

  lemma WholePages(x: int, y: int)
    requires x % PAGE_SIZE == 0 && y % PAGE_SIZE == 0
    ensures (x - y) / PAGE_SIZE * PAGE_SIZE == x - y
  {
    var p, q := x / PAGE_SIZE, y / PAGE_SIZE;
    assert x - y == (p - q) * PAGE_SIZE;
  }

  /** The heap's pages are taken from the page allocator. */
  ghost predicate Backed(spans: seq<Span>, used: seq<bool>) {
    forall s, i | s in spans && s.lo <= PageAddress(i) < s.hi :: 0 <= i < |used| && used[i]
  }

  /** Where `kmalloc(size)` points: 0 if no free block fits. */
  ghost function Payload(h: Heap, size: Word): int
    requires Linked(h)
  {
    var i := FirstFit(h, Needed(size), 0);
    if i == |h.list| then 0 else h.list[i] + HEADER_SIZE
  }

  /** `heap_expand` succeeds. */
  ghost predicate CanGrow(pageCount: nat, used: seq<bool>) {
    pageCount + EXPAND_PAGES <= MAX_HEAP_PAGES && Answer(used, KernelRun(EXPAND_PAGES)) != -1
  }

  lemma NextSize(h: Heap, curr: int, b: int)
    requires Tiled(h) && curr in h.starts && b in h.starts && curr < b
    ensures h.Has(curr) && curr < h.End(curr) <= b && b < |h.mem| == USER_MEM_START
  {
    TiledBlock(h, curr);
    TiledBlock(h, b);
    TiledPrecedes(h, curr, b);
  }

  lemma FlagBit(h: Heap, b: int, pending: set<int>)
    requires Flagged(h, pending) && b in h.starts
    ensures h.Has(b) && (h.mem[b + FREE] == 0 || h.mem[b + FREE] == 1)
  {
  }

  lemma BackwardCases(h: Heap, b: int)
    requires HeapOk(h, {b}) && PageOk(h, b)
    ensures Tiled(h) && b in h.starts && h.Has(b) && 0 < b < |h.mem| == USER_MEM_START
    ensures h.head == 0 || h.Has(h.head)
    ensures b == PageBase(b) || PageBase(b) !in h.starts ==> Backward(h, b) == Insert(h, b)
    ensures PageBase(b) !in h.starts ==> SkipsPast(h, b)
    ensures b != PageBase(b) && PageBase(b) in h.starts ==>
              var p := WalkPrev(h, PageBase(b), b);
              && h.Has(p) && p + MIN_BLOCK_SIZE <= |h.mem|
              && (h.mem[p + FREE] == 0 || h.mem[p + FREE] == 1)
              && Backward(h, b) == if h.mem[p + FREE] == 1 then Absorb(h, p, b) else Insert(h, b)
  {
    TiledBlock(h, b);
    HeadOk(h);
    if PageBase(b) !in h.starts {
      Neighbours(h, 0);
      Neighbours(h, 1);
    } else if b != PageBase(b) {
      FlagBit(h, WalkPrev(h, PageBase(b), b), {b});
    }
  }

  /** The first two words of b's page take the walk past b and say `not free`. */
  ghost predicate SkipsPast(h: Heap, b: int) {
    var ps := PageBase(b);
    0 < ps && ps + FREE < |h.mem| && ps + h.mem[ps] < TWO_TO_32 && b <= ps + h.mem[ps] && h.mem[ps + FREE] == 0
  }

  /** The three ways of `coalesce_forward`. */
  lemma ForwardCases(h: Heap, b: Word)
    requires HeapOk(h, {b})
    ensures Linked(h) && h.Has(b) && |h.mem| == USER_MEM_START
    ensures var next := b + h.mem[b];
            if next >= PageBase(b) + PAGE_SIZE then Forward(h, b) == h
            else
              && h.Has(next)
              && if h.mem[next + FREE] != 1 then Forward(h, b) == h
                 else
                   && next in h.list
                   && var i := IndexOf(h.list, next);
                      && LinkOk(h, i) && (i > 0 ==> LinkOk(h, i - 1)) && (i + 1 < |h.list| ==> LinkOk(h, i + 1))
                      && var h1 := Remove(h, i);
                         && h1.Has(b) && h1.Has(next) && Forward(h, b) == Absorb(h1, b, next)
  {
    TiledBlock(h, b);
    var next := b + h.mem[b];
    if next < PageBase(b) + PAGE_SIZE {
      NextInPage(h, b, b);
      TiledBlock(h, next);
      hide Tiled, LinkOk, BlockOk, Remove, Absorb;
      if h.mem[next + FREE] == 1 {
        RemoveNext(h, b, next);
      }
    }
  }

  /** The two ways of `kmalloc` to take the i-th free block. */
  lemma CarveCases(h: Heap, i: nat, needed: Word)
    requires HeapOk(h, {}) && i < |h.list| && h.Has(h.list[i]) && needed <= h.mem[h.list[i]]
    requires needed % 8 == 0 && MIN_BLOCK_SIZE <= needed
    ensures Linked(h)
    ensures LinkOk(h, i) && (i > 0 ==> LinkOk(h, i - 1)) && (i + 1 < |h.list| ==> LinkOk(h, i + 1))
    ensures if MIN_BLOCK_SIZE <= h.mem[h.list[i]] - needed then
              CanSplit(h, i, needed) && |Split(h, i, needed).mem| == |h.mem| && Carve(h, i, needed) == SetFlag(Split(h, i, needed), h.list[i], 0)
            else
              |Remove(h, i).mem| == |h.mem| && Carve(h, i, needed) == SetFlag(Remove(h, i), h.list[i], 0)
  {
    Neighbours(h, i);
    TiledBlock(h, h.list[i]);
    hide Tiled, Flagged, Cut, BlockOk, At;
  }

  // ----- a refused request is refused again -----

  /** All listed blocks are smaller than `limit`. */
  ghost predicate AllSmaller(h: Heap, limit: int) {
    forall x | x in h.list :: h.Has(x) && h.mem[x] < limit
  }

  lemma {:induction false} NoFit(h: Heap, needed: Word, i: nat)
    requires Linked(h) && i <= |h.list| && AllSmaller(h, needed)
    ensures FirstFit(h, needed, i) == |h.list|
    decreases |h.list| - i
  {
    if i < |h.list| {
      assert h.list[i] in h.list;
      NoFit(h, needed, i + 1);
    }
  }

  lemma NoFitSmaller(h: Heap, needed: Word)
    requires Linked(h) && FirstFit(h, needed, 0) == |h.list|
    ensures AllSmaller(h, needed)
  {
  }

  lemma SplitSmaller(h: Heap, i: nat, needed: Word, limit: int, x: int)
    requires HeapOk(h, {}) && CanSplit(h, i, needed) && AllSmaller(h, limit) && x in Split(h, i, needed).list
    ensures var h' := SetFlag(Split(h, i, needed), h.list[i], 0); h'.Has(x) && h'.mem[x] < limit
  {
    hide HeapOk, Tiled, Linked, Flagged, BlockOk, Cut, Split, LinkOk;
    Parts(h, {});
    var b := h.list[i];
    StartOf(h, i);
    SplitRest(h, i, needed);
    SplitShape(h, i, needed);
    SplitOk(h, i, needed);
    StillInside(Split(h, i, needed), b, x);
    var k :| 0 <= k < |h.list| && h.list[i := b + needed][k] == x;
    if k != i {
      StartOf(h, k);
      Position(h, k, i);
      SplitWords(h, i, needed, x, 0);
      Apart(h, x, b);
      assert h.list[k] in h.list;
    }
  }

  /** A listed block has its words in memory. */
  lemma StillInside(h: Heap, b: int, x: int)
    requires HeapOk(h, {b}) && x in h.list
    ensures h.Has(x)
  {
    ListedStart(h, x);
  }

  lemma RemoveSmaller(h: Heap, i: nat, limit: int, x: int)
    requires HeapOk(h, {}) && i < |h.list| && AllSmaller(h, limit) && h.Has(h.list[i])
    requires LinkOk(h, i) && (i > 0 ==> LinkOk(h, i - 1)) && (i + 1 < |h.list| ==> LinkOk(h, i + 1))
    requires x in Remove(h, i).list
    ensures |Remove(h, i).mem| == |h.mem|
    ensures var h' := SetFlag(Remove(h, i), h.list[i], 0); h'.Has(x) && h'.mem[x] < limit
  {
    hide HeapOk, Tiled, Linked, Flagged, BlockOk, LinkOk, Without;
    Parts(h, {});
    Neighbours(h, i);
    var b := h.list[i];
    var o := OldPlace(h.list, i, x);
    StartOf(h, o);
    StartOf(h, i);
    Position(h, o, i);
    RemoveSizes(h, i, {}, x);
    Apart(h, x, b);
  }

  lemma OldPlace(list: seq<int>, i: nat, x: int) returns (o: nat)
    requires i < |list| && x in Without(list, i)
    ensures o < |list| && o != i && list[o] == x
  {
    var k :| 0 <= k < |Without(list, i)| && Without(list, i)[k] == x;
    o := if k < i then k else k + 1;
  }

  /** `kmalloc` that found no block of a size finds none after any other allocation either; as the heap
      could not grow it still cannot. */
  lemma RefusedAgain(h: Heap, size: Word, other: Word)
    requires HeapOk(h, {}) && FirstFit(h, Needed(size), 0) == |h.list|
    ensures var h' := Step(h, Malloc(other)); HeapOk(h', {}) && FirstFit(h', Needed(size), 0) == |h'.list|
  {
    StepOk(h, Malloc(other));
    NeededHoldsRequest(other);
    var h' := Step(h, Malloc(other));
    var i := FirstFit(h, Needed(other), 0);
    NoFitSmaller(h, Needed(size));
    if i < |h.list| {
      hide Needed, FirstFit, Tiled, Linked, Flagged;
      CarveSmaller(h, i, Needed(other), Needed(size));
      Parts(h', {});
      NoFit(h', Needed(size), 0);
    }
  }

  lemma CarveSmaller(h: Heap, i: nat, needed: Word, limit: int)
    requires HeapOk(h, {}) && i < |h.list| && h.Has(h.list[i]) && needed <= h.mem[h.list[i]]
    requires needed % 8 == 0 && MIN_BLOCK_SIZE <= needed && AllSmaller(h, limit)
    ensures AllSmaller(Carve(h, i, needed), limit)
  {
    Neighbours(h, i);
    TiledBlock(h, h.list[i]);
    var h' := Carve(h, i, needed);
    forall x | x in h'.list ensures h'.Has(x) && h'.mem[x] < limit {
      if MIN_BLOCK_SIZE <= h.mem[h.list[i]] - needed {
        hide HeapOk, Split, AllSmaller, LinkOk;
        SplitSmaller(h, i, needed, limit, x);
      } else {
        hide HeapOk, Remove, AllSmaller, LinkOk;
        RemoveSmaller(h, i, limit, x);
      }
    }
  }

  /** The stores of a split in the order of the code. */
  ghost function CutChain(m: seq<Word>, b: Word, r: Word, n: Word, p: Word): (m': seq<Word>)
    requires b + MIN_BLOCK_SIZE <= r && r + MIN_BLOCK_SIZE <= |m| && r <= b + m[b]
    requires p + MIN_BLOCK_SIZE <= |m| && n + MIN_BLOCK_SIZE <= |m|
  {
    var m0 := m[r := b + m[b] - r][r + FREE := 1][r + NEXT := n][r + PREV := p];
    var m1 := if p != 0 then m0[p + NEXT := r] else m0;
    var m2 := if n != 0 then m1[n + PREV := r] else m1;
    m2[b := r - b]
  }

  lemma CutStores(m: seq<Word>, b: Word, r: Word, n: Word, p: Word)
    requires b + MIN_BLOCK_SIZE <= r && r + MIN_BLOCK_SIZE <= |m| && r <= b + m[b]
    requires p + MIN_BLOCK_SIZE <= |m| && n + MIN_BLOCK_SIZE <= |m|
    ensures CutChain(m, b, r, n, p) == Cut(m, b, r, n, p)
  {
  }

  lemma SplitIs(h: Heap, i: nat, needed: Word)
    requires CanSplit(h, i, needed) && Linked(h)
    ensures i < |h.list|
    ensures var b: Word := h.list[i];
            var r: Word := b + needed;
            var n, p := h.mem[b + NEXT], h.mem[b + PREV];
            && h.Has(b) && h.Has(r) && b + MIN_BLOCK_SIZE <= r <= b + h.mem[b] && r + MIN_BLOCK_SIZE <= |h.mem|
            && n + MIN_BLOCK_SIZE <= |h.mem| && p + MIN_BLOCK_SIZE <= |h.mem|
            && Split(h, i, needed) ==
               Heap(CutChain(h.mem, b, r, n, p), if p != 0 then h.head else r, h.starts + {r as int}, h.list[i := r], h.spans)
  {
    Neighbours(h, i);
    var b: Word := h.list[i];
    CutStores(h.mem, b, b + needed, h.mem[b + NEXT], h.mem[b + PREV]);
    hide CutChain;
  }

  lemma RunOne(h: Heap, op: HeapOp, rest: seq<HeapOp>)
    requires HeapOk(h, {}) && HeapRuns.Enabled(h, op)
    ensures HeapOk(Step(h, op), {}) && Run(h, [op] + rest) == Run(Step(h, op), rest) && Run(h, []) == Some(h)
  {
    StepOk(h, op);
    assert ([op] + rest)[1..] == rest;
  }

  lemma RunNothing(h: Heap)
    requires HeapOk(h, {})
    ensures Run(h, []) == Some(h)
  {
  }

  /** The two outcomes of the last step of `kmalloc`. */
  lemma MallocStep(h: Heap, size: Word)
    requires HeapOk(h, {})
    ensures var i := FirstFit(h, Needed(size), 0);
            && Needed(size) % 8 == 0 && MIN_BLOCK_SIZE <= Needed(size)
            && Run(h, []) == Some(h) && HeapOk(Step(h, Malloc(size)), {})
            && Step(h, Malloc(size)) == (if i == |h.list| then h else Carve(h, i, Needed(size)))
            && Payload(h, size) == (if i == |h.list| then 0 else h.list[i] + HEADER_SIZE)
  {
    NeededHoldsRequest(size);
    StepOk(h, Malloc(size));
  }

  lemma StepSpans(h: Heap, size: Word)
    requires HeapOk(h, {})
    ensures Step(h, Malloc(size)).spans == h.spans
  {
    NeededHoldsRequest(size);
    var i := FirstFit(h, Needed(size), 0);
    if i < |h.list| { CarveOk(h, i, Needed(size)); }
  }

  lemma NeededIs(size: Word)
    ensures var needed := Wrap(Wrap(size + 7) / 8 * 8 + HEADER_SIZE);
            Needed(size) == if needed < MIN_BLOCK_SIZE then MIN_BLOCK_SIZE else needed
  {
  }

  lemma SearchResult(h: Heap, needed: Word, i: nat)
    requires Linked(h) && i == FirstFit(h, needed, 0)
    ensures i <= |h.list| && (At(h.list, i) == 0 <==> i == |h.list|)
    ensures i < |h.list| ==> h.Has(h.list[i]) && needed <= h.mem[h.list[i]]
  {
    if i < |h.list| { Neighbours(h, i); }
  }

  /** The span of a granted run of `count` pages. */
  ghost function Granted(used: seq<bool>, count: nat): Span {
    var a := Answer(used, KernelRun(count));
    if 0 <= a then Span(PageAddress(a), PageAddress(a + count)) else Span(0, 0)
  }

  /** The page bitmap after n expansions. */
  ghost function UsedAfter(used: seq<bool>, n: nat): seq<bool>
    decreases n
  {
    if n == 0 then used else UsedAfter(After(used, KernelRun(EXPAND_PAGES)), n - 1)
  }

  /** The k-th expansion found no free block of the size and took the next run of pages. */
  ghost predicate ForcedAt(h: Heap, used: seq<bool>, grown: seq<HeapOp>, size: Word, k: nat)
    requires HeapOk(h, {}) && k < |grown|
  {
    && Run(h, grown[..k]).Some? && Payload(Run(h, grown[..k]).value, size) == 0
    && grown[k] == HeapOp.Expand(Granted(UsedAfter(used, k), EXPAND_PAGES))
  }

  /** Every expansion was forced. */
  ghost predicate Forced(h: Heap, used: seq<bool>, grown: seq<HeapOp>, size: Word)
    requires HeapOk(h, {})
  {
    forall k | 0 <= k < |grown| :: ForcedAt(h, used, grown, size, k)
  }

  lemma NothingForced(h: Heap, used: seq<bool>, size: Word)
    requires HeapOk(h, {})
    ensures Forced(h, used, [], size)
  {
  }

  lemma OneMoreForced(h: Heap, used: seq<bool>, s: Span, rest: seq<HeapOp>, size: Word)
    requires HeapOk(h, {}) && HeapRuns.Enabled(h, HeapOp.Expand(s)) && Payload(h, size) == 0
    requires s == Granted(used, EXPAND_PAGES) && HeapOk(Step(h, HeapOp.Expand(s)), {})
    requires Forced(Step(h, HeapOp.Expand(s)), After(used, KernelRun(EXPAND_PAGES)), rest, size)
    ensures Forced(h, used, [HeapOp.Expand(s)] + rest, size)
  {
    hide HeapOk, Payload, Granted, After, Step, Run;
    var op := HeapOp.Expand(s);
    var grown := [op] + rest;
    forall k | 0 <= k < |grown| ensures ForcedAt(h, used, grown, size, k) {
      if k == 0 {
        RunNothing(h);
        assert grown[..k] == [];
      } else {
        assert ForcedAt(Step(h, op), After(used, KernelRun(EXPAND_PAGES)), rest, size, k - 1);
        RunOne(h, op, rest[..k - 1]);
        assert grown[..k] == [op] + rest[..k - 1];
      }
    }
  }

  ghost predicate OnlyExpands(ops: seq<HeapOp>) {
    forall k | 0 <= k < |ops| :: ops[k].Expand?
  }

  class KernelHeap {
    const mem: array<Word>           // mem[a]: the word at byte address a
    const heapPages: array<Word>
    const pmm: Allocator
    var heapPageCount: nat
    var freeHead: Word
    ghost var h: Heap

    /** The ghost value is what memory holds. */
    ghost predicate Loaded()
      reads this, mem
    {
      && mem.Length == USER_MEM_START && mem != heapPages
      && mem as object != pmm.bitmap && heapPages as object != pmm.bitmap
      && h.mem == mem[..] && h.head == freeHead
    }

    ghost predicate Valid()
      reads this, mem, heapPages, pmm, pmm.bitmap
    {
      && Loaded() && HeapOk(h, {})
      && pmm.Valid() && Backed(h.spans, pmm.used)
      && heapPages.Length == MAX_HEAP_PAGES && heapPageCount <= MAX_HEAP_PAGES
      && heapPages[..heapPageCount] == PagesOf(h.spans)
    }

    constructor (memory: array<Word>, allocator: Allocator)
      requires memory.Length == USER_MEM_START && allocator.Valid() && memory as object != allocator.bitmap
      ensures Valid() && mem == memory && pmm == allocator && fresh(heapPages)
      ensures h == Heap(memory[..], 0, {}, [], [])
    {
      mem := memory;
      pmm := allocator;
      heapPages := new Word[MAX_HEAP_PAGES];
      heapPageCount := 0;
      freeHead := 0;
      h := Heap(memory[..], 0, {}, [], []);
    }

    method Store(a: int, v: Word)
      requires Loaded() && 0 <= a < |h.mem|
      modifies mem, this`h
      ensures Loaded() && h == old(h).(mem := old(h).mem[a := v])
    {
      mem[a] := v;
      h := h.(mem := h.mem[a := v]);
    }

    method SetHead(b: Word)
      requires Loaded()
      modifies this`freeHead, this`h
      ensures Loaded() && h == old(h).(head := b)
    {
      freeHead := b;
      h := h.(head := b);
    }

    /** `fl_insert` */
    method FlInsert(b: Word)
      requires Loaded() && h.Has(b) && (h.head == 0 || h.Has(h.head))
      modifies mem, this`freeHead, this`h
      ensures Loaded() && h == Insert(old(h), b)
    {
      Store(b + FREE, 1);
      Store(b + NEXT, freeHead);
      Store(b + PREV, 0);
      if freeHead != 0 { Store(freeHead + PREV, b); }
      SetHead(b);
      h := h.(list := [b] + h.list);
    }

    /** `fl_remove` of the block at position i of the list */
    method FlRemove(b: Word, ghost i: nat)
      requires Loaded() && Linked(h) && i < |h.list| && h.list[i] == b
      modifies mem, this`freeHead, this`h
      ensures LinkOk(old(h), i) && (i > 0 ==> LinkOk(old(h), i - 1)) && (i + 1 < |old(h).list| ==> LinkOk(old(h), i + 1))
      ensures Loaded() && h == Remove(old(h), i)
    {
      Neighbours(h, i);
      hide Linked;
      var n, p := mem[b + NEXT], mem[b + PREV];
      if p != 0 { Store(p + NEXT, n); } else { SetHead(n); }
      if n != 0 { Store(n + PREV, p); }
      h := h.(list := Without(h.list, i));
    }

    /** `coalesce_forward` */
    method CoalesceForward(b: Word)
      requires Loaded() && HeapOk(h, {b})
      modifies mem, this`freeHead, this`h
      ensures Loaded() && h == Forward(old(h), b)
    {
      hide HeapOk, Forward, Remove, Linked, LinkOk, Tiled;
      ForwardCases(h, b);
      var pend := PageBase(b) + PAGE_SIZE;
      var next := b + mem[b];
      if next >= pend { return; }
      if mem[next + FREE] != 1 { return; }
      ghost var i := IndexOf(h.list, next);
      FlRemove(next, i);
      Store(b, Wrap(b + mem[b] - b + mem[next]));
      h := h.(starts := h.starts - {next as int});
    }

    /** `coalesce_backward`: true when the block before b absorbed b */
    method CoalesceBackward(b: Word) returns (merged: bool)
      requires Loaded() && HeapOk(h, {b}) && PageOk(h, b)
      modifies mem, this`h
      ensures Loaded() && h.Has(b) && (old(h).head == 0 || old(h).Has(old(h).head))
      ensures merged ==> h == Backward(old(h), b)
      ensures !merged ==> h == old(h) && Backward(h, b) == Insert(h, b)
    {
      hide HeapOk, Tiled, Linked, Flagged, Backward, BlockOk;
      BackwardCases(h, b);
      var ps := PageBase(b);
      if b == ps { return false; }
      var prev := FindPrev(b);
      if mem[prev + FREE] == 0 { return false; }
      Store(prev, Wrap(prev + mem[prev] - prev + mem[b]));
      h := h.(starts := h.starts - {b as int});
      return true;
    }

    /** The walk of `coalesce_backward` from the start of b's page. */
    method FindPrev(b: Word) returns (prev: Word)
      requires Loaded() && Tiled(h) && b in h.starts && PageBase(b) < b
      requires PageBase(b) in h.starts || SkipsPast(h, b)
      ensures if PageBase(b) in h.starts then prev in h.starts && prev == WalkPrev(h, PageBase(b), b) else prev == PageBase(b)
    {
      var ps := PageBase(b);
      var curr := ps;
      prev := 0;
      while curr < b
        invariant ps in h.starts ==> curr in h.starts && ps <= curr <= b
        invariant ps in h.starts && curr == b ==> prev in h.starts && prev == WalkPrev(h, ps, b)
        invariant ps in h.starts && curr < b ==> WalkPrev(h, curr, b) == WalkPrev(h, ps, b)
        invariant ps !in h.starts ==> if curr < b then curr == ps else prev == ps
        decreases b - curr
      {
        hide Tiled, BlockOk;
        if ps in h.starts { NextSize(h, curr, b); }
        prev := curr;
        curr := curr + mem[curr];
        if ps in h.starts && curr < b { NextInPage(h, prev, b); }
      }
    }

    /** A contiguous run of kernel-region pages from the page allocator, as a span. */
    method NewPages(count: nat) returns (base: Word, ghost s: Span)
      requires pmm.Valid() && Tiled(h) && Backed(h.spans, pmm.used) && count > 0
      modifies pmm, pmm.bitmap
      ensures pmm.Valid()
      ensures base == 0 <==> Answer(old(pmm.used), KernelRun(count)) == -1
      ensures base == 0 ==> pmm.used == old(pmm.used)
      ensures base != 0 ==> s == Span(base, base + count * PAGE_SIZE) && NewSpan(h, s) && Backed(h.spans + [s], pmm.used)
      ensures base != 0 ==> s == Granted(old(pmm.used), count)
      ensures pmm.used == After(old(pmm.used), KernelRun(count))
    {
      hide Tiled, Backed, Allocator.BitmapOk, NewSpan, After, Answer, Reply;
      KernelRunOutcome(pmm.used, count);
      base := pmm.AllocContiguousPages(count);
      s := Span(base, base + count * PAGE_SIZE);
      if base != 0 {
        ghost var used := old(pmm.used);
        FreshSpan(h, used, count);
        StillBacked(h.spans, used, Answer(used, KernelRun(count)), count);
      }
    }

    /** `heap_pages[heap_page_count++] = base + i * PAGE_SIZE` for all pages of a span */
    method RecordPages(base: Word, count: nat)
      requires heapPages.Length == MAX_HEAP_PAGES && heapPageCount + count <= MAX_HEAP_PAGES && heapPages != mem
      requires base + count * PAGE_SIZE <= USER_MEM_START
      modifies heapPages, this`heapPageCount
      ensures heapPageCount == old(heapPageCount) + count
      ensures heapPages[..heapPageCount] == old(heapPages[..heapPageCount]) + seq(count, i requires 0 <= i => base + i * PAGE_SIZE)
    {
      var i := 0;
      while i < count
        invariant 0 <= i <= count && heapPageCount == old(heapPageCount) + i
        invariant heapPages[..heapPageCount] == old(heapPages[..heapPageCount]) + seq(i, j requires 0 <= j => base + j * PAGE_SIZE)
      {
        heapPages[heapPageCount] := base + i * PAGE_SIZE;
        heapPageCount := heapPageCount + 1;
        i := i + 1;
      }
    }

    /** The block header of new pages, and its insertion. */
    method AddBlock(base: Word, size: Word, ghost s: Span)
      requires Loaded() && NewSpan(h, s) && s.lo == base && size == s.hi - s.lo && (h.head == 0 || h.Has(h.head))
      modifies mem, this`freeHead, this`h
      ensures Loaded() && h == Grow(old(h), s)
    {
      PageIsAligned(s.hi, s.lo);
      Store(base, size);
      h := h.(starts := h.starts + {s.lo}, spans := h.spans + [s]);
      FlInsert(base);
    }

    /** The common part of `heap_expand` and `kheap_init`: one free block of `count` new pages. */
    method Expand(count: nat) returns (ok: bool, ghost s: Span)
      requires Valid() && 0 < count && heapPageCount + count <= MAX_HEAP_PAGES
      modifies this, mem, heapPages, pmm, pmm.bitmap
      ensures Valid()
      ensures ok <==> Answer(old(pmm.used), KernelRun(count)) != -1
      ensures !ok ==> h == old(h) && heapPageCount == old(heapPageCount) && pmm.used == old(pmm.used)
      ensures ok ==> HeapRuns.Enabled(old(h), HeapOp.Expand(s)) && h == Step(old(h), HeapOp.Expand(s))
      ensures ok ==> heapPageCount == old(heapPageCount) + count && s == Granted(old(pmm.used), count)
      ensures pmm.used == After(old(pmm.used), KernelRun(count))
    {
      hide Tiled, Linked, Flagged, Answer, Backed, Allocator.BitmapOk, PagesOf;
      var base;
      ghost var h0 := h;
      base, s := NewPages(count);
      if base == 0 { return false, s; }
      GrowOk(h0, s);
      HeadOk(h0);
      AddBlock(base, count * PAGE_SIZE, s);
      RecordPages(base, count);
      PagesOfOneMore(h0.spans, s);
      ok := true;
    }

    /** `heap_expand` */
    method HeapExpand() returns (ok: bool, ghost s: Span)
      requires Valid()
      modifies this, mem, heapPages, pmm, pmm.bitmap
      ensures Valid()
      ensures ok <==> CanGrow(old(heapPageCount), old(pmm.used))
      ensures !ok ==> h == old(h) && heapPageCount == old(heapPageCount) && pmm.used == old(pmm.used)
      ensures ok ==> HeapRuns.Enabled(old(h), HeapOp.Expand(s)) && h == Step(old(h), HeapOp.Expand(s))
      ensures ok ==> heapPageCount == old(heapPageCount) + EXPAND_PAGES && s == Granted(old(pmm.used), EXPAND_PAGES)
      ensures ok ==> pmm.used == After(old(pmm.used), KernelRun(EXPAND_PAGES))
    {
      s := Span(0, 0);
      if heapPageCount + EXPAND_PAGES > MAX_HEAP_PAGES { return false, s; }
      ok, s := Expand(EXPAND_PAGES);
    }

    /** The first-fit search of `kmalloc`. */
    method Search(needed: Word) returns (b: Word, ghost i: nat)
      requires Loaded() && Linked(h)
      ensures i == FirstFit(h, needed, 0) && b == At(h.list, FirstFit(h, needed, 0))
    {
      b := freeHead;
      i := 0;
      while b != 0
        invariant i <= |h.list| && b == At(h.list, i)
        invariant FirstFit(h, needed, 0) == FirstFit(h, needed, i)
        decreases |h.list| - i
      {
        Neighbours(h, i);
        if mem[b] >= needed { return; }
        b := mem[b + NEXT];
        i := i + 1;
      }
      if i < |h.list| { Neighbours(h, i); }
    }

    /** Taking block b, the i-th of the list, off it, whole or cut. */
    method Take(b: Word, needed: Word, ghost i: nat)
      requires Loaded() && HeapOk(h, {}) && i < |h.list| && h.list[i] == b && h.Has(b) && needed <= h.mem[b]
      requires needed % 8 == 0 && MIN_BLOCK_SIZE <= needed
      modifies mem, this`freeHead, this`h
      ensures Loaded() && h == Carve(old(h), i, needed)
    {
      hide HeapOk, Tiled, Linked, Flagged, Split, Remove, Carve, CanSplit, LinkOk, BlockOk;
      CarveCases(h, i, needed);
      if mem[b] - needed >= MIN_BLOCK_SIZE {
        CutBlock(b, needed, i);
      } else {
        FlRemove(b, i);
      }
      Store(b + FREE, 0);
    }

    /** The header and links of the rest r of block b. */
    method FillRest(b: Word, r: Word, size: Word) returns (n: Word, p: Word)
      requires Loaded() && h.Has(b) && h.Has(r) && b + MIN_BLOCK_SIZE <= r
      modifies mem, this`h
      ensures n == old(h).mem[b + NEXT] && p == old(h).mem[b + PREV]
      ensures Loaded() && h == old(h).(mem := old(h).mem[r := size][r + FREE := 1][r + NEXT := n][r + PREV := p])
    {
      Store(r, size);
      Store(r + FREE, 1);
      n, p := mem[b + NEXT], mem[b + PREV];
      Store(r + NEXT, n);
      Store(r + PREV, p);
    }

    /** The split of `kmalloc`. */
    method CutBlock(b: Word, needed: Word, ghost i: nat)
      requires Loaded() && CanSplit(h, i, needed) && h.list[i] == b && Linked(h)
      modifies mem, this`freeHead, this`h
      ensures Loaded() && h == Split(old(h), i, needed)
    {
      hide Linked, CanSplit, Split;
      SplitIs(h, i, needed);
      var r := b + needed;
      var n, p := FillRest(b, r, mem[b] - needed);
      if p != 0 { Store(p + NEXT, r); } else { SetHead(r); }
      if n != 0 { Store(n + PREV, r); }
      Store(b, needed);
      h := h.(starts := h.starts + {r as int}, list := h.list[i := r]);
    }

    /** The search of `kmalloc` and, if it finds a block, the allocation. */
    method TryMalloc(size: Word) returns (p: Word)
      requires Valid()
      modifies mem, this`freeHead, this`h
      ensures Valid() && h == Step(old(h), Malloc(size)) && p == Payload(old(h), size)
      ensures p == 0 ==> h == old(h)
    {
      hide HeapOk, Tiled, Linked, Flagged, Carve, Backed, Allocator.BitmapOk, PagesOf, FirstFit, Run, Step, Needed, Payload;
      var aligned := Wrap(size + 7) / 8 * 8;
      var needed := Wrap(aligned + HEADER_SIZE);
      if needed < MIN_BLOCK_SIZE { needed := MIN_BLOCK_SIZE; }
      assert needed == Needed(size) by { NeededIs(size); }
      assert Linked(h) by { Parts(h, {}); }
      ghost var i;
      var b;
      b, i := Search(needed);
      SearchResult(h, needed, i);
      MallocStep(h, size);
      StepSpans(h, size);
      p := 0;
      if b != 0 {
        Take(b, needed, i);
        p := b + HEADER_SIZE;
      }
    }

    /** `kmalloc`: as few expansions of the heap as a block of the size needs, then one allocation
        from it; 0 only if the heap cannot grow and holds no block of the size. */
    method Kmalloc(size: Word) returns (p: Word, ghost grown: seq<HeapOp>)
      requires Valid()
      modifies this, mem, heapPages, pmm, pmm.bitmap
      ensures Valid()
      ensures OnlyExpands(grown) && Run(old(h), grown).Some?
      ensures h == Step(Run(old(h), grown).value, Malloc(size))
      ensures p == Payload(Run(old(h), grown).value, size)
      ensures p == 0 ==> !CanGrow(heapPageCount, pmm.used)
      ensures Forced(old(h), old(pmm.used), grown, size) && (Payload(old(h), size) != 0 ==> grown == [])
      ensures heapPageCount == old(heapPageCount) + EXPAND_PAGES * |grown| && pmm.used == UsedAfter(old(pmm.used), |grown|)
      decreases MAX_HEAP_PAGES - heapPageCount
    {
      hide HeapOk, Tiled, Linked, Flagged, Backed, Allocator.BitmapOk, PagesOf, FirstFit, Run, Step, Payload, CanGrow, After, Granted;
      hide Forced;
      ghost var h0, used := h, pmm.used;
      NothingForced(h0, used, size);
      RunNothing(h0);
      grown := [];
      p := TryMalloc(size);
      if p != 0 {
        return;
      }
      var ok;
      ghost var s;
      ok, s := HeapExpand();
      if !ok {
        return;
      }
      ghost var rest;
      p, rest := Kmalloc(size);
      RunOne(h0, HeapOp.Expand(s), rest);
      OneMoreForced(h0, used, s, rest, size);
      grown := [HeapOp.Expand(s)] + rest;
    }

    /** The sizes of all blocks add up to `heap_page_count` pages. */
    lemma BlocksFillPages()
      requires Valid()
      ensures TotalSize(h, |h.spans|) == heapPageCount * PAGE_SIZE
    {
      TotalIsPages(h, |h.spans|);
      assert h.spans[..|h.spans|] == h.spans;
      assert |PagesOf(h.spans)| == heapPageCount by { assert heapPages[..heapPageCount] == PagesOf(h.spans); }
    }

    /** `kfree`: of the null pointer and of a free block nothing, otherwise a release. */
    method Kfree(ptr: Word)
      requires Valid()
      requires ptr != 0 ==> ptr - HEADER_SIZE in h.starts
      requires ptr != 0 && h.IsLive(ptr - HEADER_SIZE) ==> CanFree(h, ptr - HEADER_SIZE)
      modifies this`freeHead, this`h, mem
      ensures Valid()
      ensures ptr == 0 || !old(h).IsLive(ptr - HEADER_SIZE) ==> h == old(h)
      ensures ptr != 0 && old(h).IsLive(ptr - HEADER_SIZE) ==>
                h == Release(old(h), ptr - HEADER_SIZE)
    {
      hide Tiled, Linked, Flagged, Forward, Backward, Backed, Allocator.BitmapOk, PagesOf, BlockOk;
      if ptr == 0 { return; }
      var b := ptr - HEADER_SIZE;
      TiledBlock(h, b);
      FlagBit(h, b, {});
      if mem[b + FREE] == 1 { return; }
      ghost var h0 := h;
      LiveUnlisted(h0, b);
      ReleaseOk(h0, b);
      SetFlagOk(h0, b, 1, {});
      assert {} + {b as int} == {b as int};
      Store(b + FREE, 1);
      ForwardOk(h, b);
      CoalesceForward(b);
      var merged := CoalesceBackward(b);
      if !merged {
        FlInsert(b);
      }
    }

    /** `kheap_init` */
    method Init()
      requires Valid() && h.starts == {} && h.list == [] && h.spans == [] && heapPageCount == 0
      modifies this, mem, heapPages, pmm, pmm.bitmap
      ensures Valid()
      ensures Answer(old(pmm.used), KernelRun(HEAP_INIT_PAGES)) == -1 ==> h == old(h)
      ensures Answer(old(pmm.used), KernelRun(HEAP_INIT_PAGES)) != -1 ==>
                var s := Granted(old(pmm.used), HEAP_INIT_PAGES);
                HeapRuns.Enabled(old(h), HeapOp.Expand(s)) && h == Step(old(h), HeapOp.Expand(s)) && heapPageCount == HEAP_INIT_PAGES
      ensures pmm.used == After(old(pmm.used), KernelRun(HEAP_INIT_PAGES))
    {
      var ok;
      ghost var s;
      ok, s := Expand(HEAP_INIT_PAGES);
    }
  }

  /** Two overlapping page-aligned spans share a page. */
  lemma CommonPage(a: nat, count: nat, t: Span) returns (i: int)
    requires t.lo % PAGE_SIZE == 0 && MANAGED_BASE <= t.lo < t.hi
    requires t.lo < PageAddress(a + count) && PageAddress(a) < t.hi && 0 < count
    ensures a <= i < a + count && t.lo <= PageAddress(i) < t.hi
  {
    i := if PageAddress(a) <= t.lo then (t.lo - MANAGED_BASE) / PAGE_SIZE else a;
  }

  lemma KernelRunOutcome(used: seq<bool>, count: nat)
    ensures var a := Answer(used, KernelRun(count));
            if a == -1 then After(used, KernelRun(count)) == used && Reply(used, KernelRun(count)) == 0
            else Reply(used, KernelRun(count)) == PageAddress(a) && 0 <= a && a + count <= |used|
                 && After(used, KernelRun(count)) == Mark(used, a, count) && RunFree(used, a, count)
                 && PageAddress(a + count) <= USER_MEM_START
  {
  }

  /** A free run overlaps no span whose pages are taken. */
  lemma OverlapTaken(spans: seq<Span>, used: seq<bool>, t: Span, a: nat, count: nat)
    requires Backed(spans, used) && t in spans && 0 < count && a + count <= |used|
    requires t.lo % PAGE_SIZE == 0 && MANAGED_BASE <= t.lo < t.hi
    requires t.lo < PageAddress(a + count) && PageAddress(a) < t.hi
    ensures !RunFree(used, a, count)
  {
    var i := CommonPage(a, count, t);
    assert used[i];
  }

  /** A run that the page allocator answers with lies apart from all spans of the heap. */
  lemma FreshSpan(h: Heap, used: seq<bool>, count: nat)
    requires Tiled(h) && Backed(h.spans, used) && 0 < count && Answer(used, KernelRun(count)) != -1
    ensures var a := Answer(used, KernelRun(count));
            NewSpan(h, Span(PageAddress(a), PageAddress(a + count)))
  {
    hide Answer, After;
    KernelRunOutcome(used, count);
    var a := Answer(used, KernelRun(count));
    var s := Span(PageAddress(a), PageAddress(a + count));
    forall t | t in h.spans ensures s.hi <= t.lo || t.hi <= s.lo {
      assert SpanOk(h, t);
      if t.lo < s.hi && s.lo < t.hi {
        OverlapTaken(h.spans, used, t, a, count);
      }
    }
  }

  lemma StillBacked(spans: seq<Span>, used: seq<bool>, a: nat, count: nat)
    requires Backed(spans, used) && a + count <= |used|
    ensures Backed(spans + [Span(PageAddress(a), PageAddress(a + count))], Mark(used, a, count))
  {
  }
}
