/** The boot path up to `task_init`: whatever kmain has allocated, mapped and stored by then, the
    invariant of the whole kernel holds when the idle task begins. */
module BootRuns {
  import opened Words
  import opened Options
  import opened PageRuns
  import opened PageTables
  import opened OneMemory
  import opened Machines
  import opened MachineRuns
  import A = AddressSpaces
  import S = Switching
  import H = HeapState
  import R = HeapRuns
  import K = Kernel
  import P = Paging
  import F = FreeSoundness

  // ----- before the first task -----

  /** Page tables and heap, in one memory. */
  datatype Early = Early(a: A.World, h: H.Heap)

  /** The boot stack is memory that nothing is allocated from. */
  ghost predicate StackApart(e: Early, stack: S.Stack) {
    && 0 < stack.lo < stack.hi <= USER_MEM_START && stack.lo % 4 == 0 && stack.hi % 4 == 0
    && K.RangeUsed(e.a.used, stack.lo, stack.hi) && OffTables(e.a, stack.lo, stack.hi) && K.OutsideHeap(e.h, stack.lo, stack.hi)
  }

  /** The heap's pages are taken, and no page tables. */
  ghost predicate SpansApart(e: Early) {
    forall s | s in e.h.spans :: K.RangeUsed(e.a.used, s.lo, s.hi) && OffTables(e.a, s.lo, s.hi)
  }

  ghost predicate EarlyOk(e: Early, stack: S.Stack) {
    && A.Inv(e.a) && e.a.spaces == [] && H.HeapOk(e.h, {}) && Tied(e.a.m, e.h.mem)
    && SpansApart(e) && StackApart(e, stack)
  }

  lemma EarlyParts(e: Early, stack: S.Stack)
    requires EarlyOk(e, stack)
    ensures A.ShapeOk(e.a) && H.Tiled(e.h) && |e.h.mem| == USER_MEM_START
    ensures e.a.kpd < |e.a.m| < TWO_TO_32 / PAGE_SIZE
  {
  }

  ghost function NoHeap(mem: seq<Word>): H.Heap {
    H.Heap(mem, 0, {}, [], [])
  }

  /** What `pmm_init` and `paging_init` leave. */
  ghost predicate CanBoot(a: A.World, mem: seq<Word>, stack: S.Stack) {
    A.Inv(a) && a.spaces == [] && Tied(a.m, mem) && StackApart(Early(a, NoHeap(mem)), stack)
  }

  lemma StartOk(a: A.World, mem: seq<Word>, stack: S.Stack)
    requires CanBoot(a, mem, stack)
    ensures EarlyOk(Early(a, NoHeap(mem)), stack)
  {
    hide A.Inv;
  }

  // ----- the steps of the boot path -----

  datatype EarlyOp =
    | TakePages(q: Request)                    // any page allocation
    | Grow(n: nat)                             // kheap_init with 16 pages, heap_expand with 4
    | UseHeap(op: R.HeapOp)                    // kmalloc, kfree, stores into payloads
    | AddTable(i: nat)                         // paging_map_phys_range: a new page table
    | MapEntry(p: Page, e: Word)               // paging_map_phys_range, paging_unmap_null_page: an entry
    | StoreUp(f: nat, j: nat, e: Word)         // a store to a user page, as elf_load does
    | StoreWord(x: nat, v: Word)               // a store to the kernel's own data

  ghost function NewPages(e: Early, n: nat): H.Span {
    var i := Answer(e.a.used, KernelRun(n));
    H.Span(PageAddress(i), PageAddress(i + n))
  }

  ghost predicate EarlyEnabled(e: Early, op: EarlyOp)
    requires A.Inv(e.a)
  {
    A.InvKernel(e.a);
    match op
    case TakePages(q) => true
    case Grow(n) => n > 0 && Answer(e.a.used, KernelRun(n)) != -1
    case UseHeap(h) => R.Enabled(e.h, h) && !h.Expand?
    case AddTable(i) => i < ENTRIES && e.a.m[e.a.kpd][i] == 0 && FreshFrame(e.a.used) != -1
    case MapEntry(p, entry) => p.Ok() && e.a.m[e.a.kpd][p.dir] != 0 && (!Present(entry) || entry == Entry(p.Number(), FLAGS_KERNEL))
    case StoreUp(f, j, v) => USER_FRAME <= f < |e.a.m| && j < ENTRIES
    case StoreWord(x, v) => x < |e.h.mem| && R.Unused(e.h, x) && x / PAGE_SIZE !in e.a.owner
  }

  ghost function EarlyStep(e: Early, stack: S.Stack, op: EarlyOp): Early
    requires EarlyOk(e, stack) && EarlyEnabled(e, op)
  {
    EarlyParts(e, stack);
    match op
    case TakePages(q) => e.(a := e.a.(used := After(e.a.used, q)))
    case Grow(n) =>
      GrowPlace(e, stack, n);
      GrowSize(e.h, NewPages(e, n));
      Synced(e, H.Grow(e.h, NewPages(e, n)), After(e.a.used, KernelRun(n)))
    case UseHeap(h) =>
      HeapSize(e.h, h);
      Synced(e, R.Step(e.h, h), e.a.used)
    case AddTable(i) =>
      FreshUnused(e.a.used);
      FreshInside(e.a);
      Mapped(e, P.KernelTableAdded(e.a, i, FreshFrame(e.a.used), After(e.a.used, KernelPage)))
    case MapEntry(p, entry) =>
      TableOf(e.a, p);
      Mapped(e, e.a.(m := Put(e.a.m, FrameOf(e.a.m[e.a.kpd][p.dir]), p.entry, entry)))
    case StoreUp(f, j, v) => e.(a := e.a.(m := Put(e.a.m, f, j, v)))
    case StoreWord(x, v) => Synced(e, e.h.(mem := e.h.mem[x := v]), e.a.used)
  }

  /** The heap is h now, and the frames show it. */
  ghost function Synced(e: Early, h: H.Heap, used: seq<bool>): Early
    requires |h.mem| == USER_MEM_START
  {
    Early(e.a.(m := Sync(e.a.m, h.mem), used := used), h)
  }

  /** The tables are those of a now, and the words show them. */
  ghost function Mapped(e: Early, a: A.World): Early {
    Early(a, e.h.(mem := Flat(a.m, e.h.mem)))
  }

  lemma HeapSize(h: H.Heap, op: R.HeapOp)
    requires H.HeapOk(h, {}) && R.Enabled(h, op) && !op.Expand?
    ensures H.HeapOk(R.Step(h, op), {}) && |R.Step(h, op).mem| == |h.mem| == USER_MEM_START
  {
    R.StepOk(h, op);
    H.Parts(h, {});
    H.Parts(R.Step(h, op), {});
  }

  lemma TableOf(a: A.World, p: Page)
    requires A.Inv(a) && p.Ok()
    ensures A.ShapeOk(a) && a.kpd < |a.m| && FrameOf(a.m[a.kpd][p.dir]) < |a.m|
    ensures a.m[a.kpd][p.dir] != 0 ==> FrameOf(a.m[a.kpd][p.dir]) in a.owner
  {
    assert A.KernelEntryOk(a, p.dir);
  }

  // ----- each step keeps the invariant -----

  lemma PagesOk(e: Early, stack: S.Stack, q: Request)
    requires EarlyOk(e, stack)
    ensures EarlyOk(e.(a := e.a.(used := After(e.a.used, q))), stack)
  {
    TakeGrows(e.a.used, q);
    A.OutsideTables(e.a, e.a.m, After(e.a.used, q));
    assert e.a.(m := e.a.m, used := After(e.a.used, q)) == e.a.(used := After(e.a.used, q));
    hide A.Inv, H.HeapOk, Tied, After, K.RangeUsed;
    RangesStay(e, e.(a := e.a.(used := After(e.a.used, q))), stack);
  }

  /** More pages in use, the same tables, the same spans. */
  lemma RangesStay(e: Early, e': Early, stack: S.Stack)
    requires SpansApart(e) && StackApart(e, stack) && UsedGrows(e.a.used, e'.a.used)
    requires e'.a.owner == e.a.owner && e'.h.spans == e.h.spans
    ensures SpansApart(e') && StackApart(e', stack)
  {
    hide K.RangeUsed;
    forall s | s in e.h.spans ensures K.RangeUsed(e'.a.used, s.lo, s.hi) { RangeStays(e.a.used, e'.a.used, s.lo, s.hi); }
    RangeStays(e.a.used, e'.a.used, stack.lo, stack.hi);
  }

  lemma SyncedOk(e: Early, stack: S.Stack, h: H.Heap)
    requires EarlyOk(e, stack) && H.HeapOk(h, {}) && |h.mem| == USER_MEM_START && h.spans == e.h.spans
    requires TablesKept(e.a, e.h.mem, h.mem)
    ensures EarlyOk(Synced(e, h, e.a.used), stack)
  {
    hide A.Inv, H.HeapOk, Tied, K.RangeUsed, TablesKept, SpansApart, StackApart;
    SyncKeepsInv(e.a, e.h.mem, h.mem, e.a.used);
    RangesStay(e, Synced(e, h, e.a.used), stack);
  }

  lemma InSpanOff(e: Early, s: H.Span, x: int)
    requires SpansApart(e) && s in e.h.spans && s.lo <= x < s.hi && 0 <= x
    ensures x / PAGE_SIZE !in e.a.owner
  {
  }

  lemma HeapStepOk(e: Early, stack: S.Stack, op: R.HeapOp)
    requires EarlyOk(e, stack) && R.Enabled(e.h, op) && !op.Expand?
    ensures |R.Step(e.h, op).mem| == USER_MEM_START && EarlyOk(Synced(e, R.Step(e.h, op), e.a.used), stack)
  {
    HeapSize(e.h, op);
    var h := R.Step(e.h, op);
    hide A.Inv, H.HeapOk, Tied, SpansApart, StackApart, R.Step, R.Enabled;
    forall x: nat | x < |h.mem| && h.mem[x] != e.h.mem[x] ensures x / PAGE_SIZE !in e.a.owner {
      if R.OutsideSpans(e.h, x) {
        StepOutside(e.h, op, x);
      } else {
        var s :| s in e.h.spans && s.lo <= x < s.hi;
        InSpanOff(e, s, x);
      }
    }
    assert h.spans == e.h.spans by { StepSpansStay(e.h, op); }
    SyncedOk(e, stack, h);
  }

  lemma StepOutside(h: H.Heap, op: R.HeapOp, x: nat)
    requires H.HeapOk(h, {}) && R.Enabled(h, op) && !op.Expand? && x < |h.mem| && R.OutsideSpans(h, x)
    ensures x < |R.Step(h, op).mem| && R.Step(h, op).mem[x] == h.mem[x]
  {
    if op.Write? {
      var a :| R.InPayload(h, a, op.k);
      H.TiledBlock(h, a);
    } else {
      hide H.HeapOk, R.Step;
      HeapWords(h, op, x);
    }
  }

  lemma StepSpansStay(h: H.Heap, op: R.HeapOp)
    requires H.HeapOk(h, {}) && R.Enabled(h, op) && !op.Expand?
    ensures R.Step(h, op).spans == h.spans
  {
    if !op.Write? { SpansStay(h, op); }
  }

  lemma StoreOk(e: Early, stack: S.Stack, x: nat, v: Word)
    requires EarlyOk(e, stack) && x < |e.h.mem| && R.Unused(e.h, x) && x / PAGE_SIZE !in e.a.owner
    ensures |e.h.mem| == USER_MEM_START && EarlyOk(Synced(e, e.h.(mem := e.h.mem[x := v]), e.a.used), stack)
  {
    EarlyParts(e, stack);
    hide A.Inv, H.HeapOk, Tied, SpansApart, StackApart, R.Unused;
    R.UnusedChanges(e.h, e.h.mem[x := v]);
    SyncedOk(e, stack, e.h.(mem := e.h.mem[x := v]));
  }

  lemma StoreUpOk(e: Early, stack: S.Stack, f: nat, j: nat, v: Word)
    requires EarlyOk(e, stack) && USER_FRAME <= f < |e.a.m| && j < ENTRIES
    ensures EarlyOk(e.(a := e.a.(m := Put(e.a.m, f, j, v))), stack)
  {
    EarlyParts(e, stack);
    forall g | g in e.a.owner ensures g < USER_FRAME { assert A.TakenKernelFrame(e.a.used, g); }
    A.OutsideTables(e.a, Put(e.a.m, f, j, v), e.a.used);
    assert e.a.(m := Put(e.a.m, f, j, v), used := e.a.used) == e.a.(m := Put(e.a.m, f, j, v));
    PutHigh(e.a.m, f, j, v, e.h.mem);
    hide A.Inv, H.HeapOk, Tied, K.RangeUsed, SpansApart, StackApart;
    RangesStay(e, e.(a := e.a.(m := Put(e.a.m, f, j, v))), stack);
  }

  /** New or changed page tables, in frames that were free or tables before. */
  lemma MappedOk(e: Early, stack: S.Stack, a: A.World)
    requires EarlyOk(e, stack) && A.Inv(a) && a.spaces == [] && OnlyTables(e.a, a)
    ensures EarlyOk(Mapped(e, a), stack)
  {
    EarlyParts(e, stack);
    var e' := Mapped(e, a);
    hide A.Inv, H.HeapOk, Tied, OnlyTables, OffTables, K.RangeUsed, Flat;
    assert UsedGrows(e.a.used, a.used) by { OnlyGrows(e.a, a); }
    forall s | s in e.h.spans ensures OffTables(a, s.lo, s.hi) && K.RangeUsed(a.used, s.lo, s.hi) {
      StillOff(e.a, a, s.lo, s.hi);
      RangeStays(e.a.used, a.used, s.lo, s.hi);
    }
    StillOff(e.a, a, stack.lo, stack.hi);
    RangeStays(e.a.used, a.used, stack.lo, stack.hi);
    FlatTied(a.m, e.h.mem);
    FlatUnused(e, a);
    R.UnusedChanges(e.h, e'.h.mem);
  }

  lemma OnlyGrows(a: A.World, a': A.World)
    requires OnlyTables(a, a')
    ensures UsedGrows(a.used, a'.used) && |a'.m| == |a.m|
  {
  }

  lemma FlatUnused(e: Early, a: A.World)
    requires H.HeapOk(e.h, {}) && Tied(e.a.m, e.h.mem) && OnlyTables(e.a, a)
    requires forall s | s in e.h.spans :: OffTables(a, s.lo, s.hi)
    ensures forall x | 0 <= x < |e.h.mem| && Flat(a.m, e.h.mem)[x] != e.h.mem[x] :: R.Unused(e.h, x)
  {
    hide H.HeapOk, Tied, R.Unused, Flat;
    forall x: nat | x < |e.h.mem| && Flat(a.m, e.h.mem)[x] != e.h.mem[x] ensures R.Unused(e.h, x) {
      FlatWord(e.a.m, a.m, e.h.mem, x);
      assert R.OutsideSpans(e.h, x) by {
        forall s | s in e.h.spans ensures x < s.lo || s.hi <= x { assert OffTables(a, s.lo, s.hi); }
      }
      R.OutsideUnused(e.h, x);
    }
  }

  lemma AddTableOk(e: Early, stack: S.Stack, i: nat)
    requires EarlyOk(e, stack) && i < ENTRIES && e.a.kpd < |e.a.m| < TWO_TO_32 / PAGE_SIZE && e.a.m[e.a.kpd][i] == 0 && FreshFrame(e.a.used) != -1
    ensures 0 <= FreshFrame(e.a.used) < |e.a.m|
    ensures EarlyOk(Mapped(e, P.KernelTableAdded(e.a, i, FreshFrame(e.a.used), After(e.a.used, KernelPage))), stack)
  {
    FreshUnused(e.a.used);
    FreshInside(e.a);
    A.FreshFrameOk(e.a);
    assert e.a.kpd in e.a.owner;
    var f := FreshFrame(e.a.used);
    P.KernelTableAdd(e.a, i, f, After(e.a.used, KernelPage));
    var a := P.KernelTableAdded(e.a, i, f, After(e.a.used, KernelPage));
    hide A.Inv, After, FreshFrame, EarlyOk;
    assert OnlyTables(e.a, a) by { assert e.a.spaces == [] by { NoSpaces(e, stack); } }
    MappedOk(e, stack, a);
  }

  lemma NoSpaces(e: Early, stack: S.Stack)
    requires EarlyOk(e, stack)
    ensures e.a.spaces == [] && A.Inv(e.a) && H.HeapOk(e.h, {}) && Tied(e.a.m, e.h.mem) && SpansApart(e) && StackApart(e, stack)
  {
  }

  lemma MapPageOk(e: Early, stack: S.Stack, p: Page, entry: Word)
    requires EarlyOk(e, stack) && p.Ok() && e.a.kpd < |e.a.m| && e.a.m[e.a.kpd][p.dir] != 0
    requires !Present(entry) || entry == Entry(p.Number(), FLAGS_KERNEL)
    ensures FrameOf(e.a.m[e.a.kpd][p.dir]) < |e.a.m|
    ensures EarlyOk(Mapped(e, e.a.(m := Put(e.a.m, FrameOf(e.a.m[e.a.kpd][p.dir]), p.entry, entry))), stack)
  {
    TableOf(e.a, p);
    P.KernelTableStore(e.a, p, entry);
    hide A.Inv;
    MappedOk(e, stack, e.a.(m := Put(e.a.m, FrameOf(e.a.m[e.a.kpd][p.dir]), p.entry, entry)));
  }

  // ----- growing the heap -----

  lemma GrowPlace(e: Early, stack: S.Stack, n: nat)
    requires EarlyOk(e, stack) && n > 0 && Answer(e.a.used, KernelRun(n)) != -1
    ensures var s := NewPages(e, n);
            && H.NewSpan(e.h, s) && OffTables(e.a, s.lo, s.hi) && (stack.hi <= s.lo || s.hi <= stack.lo)
            && K.RangeUsed(After(e.a.used, KernelRun(n)), s.lo, s.hi) && s.hi == s.lo + n * PAGE_SIZE
  {
    EarlyParts(e, stack);
    var q := KernelRun(n);
    GrantOff(e.a, q);
    hide Answer, A.Inv, H.HeapOk, Tied, OffTables, K.RangeUsed, After;
    K.EmptyRange(e.a.used);
    K.GrantMisses(e.a.used, q, 0, 0);
    K.GrantMisses(e.a.used, q, stack.lo, stack.hi);
    forall t | t in e.h.spans ensures NewPages(e, n).hi <= t.lo || t.hi <= NewPages(e, n).lo {
      K.SpanFacts(e.h, t);
      K.GrantMisses(e.a.used, q, t.lo, t.hi);
    }
    PageAligned(Answer(e.a.used, q));
    PageAligned(Answer(e.a.used, q) + n);
  }

  lemma GrowTables(e: Early, stack: S.Stack, n: nat)
    requires EarlyOk(e, stack) && n > 0 && Answer(e.a.used, KernelRun(n)) != -1
    ensures var s := NewPages(e, n);
            H.NewSpan(e.h, s) && (e.h.head == 0 || e.h.Has(e.h.head)) && TablesKept(e.a, e.h.mem, H.Grow(e.h, s).mem)
  {
    EarlyParts(e, stack);
    GrowPlace(e, stack, n);
    var s := NewPages(e, n);
    NoSpaces(e, stack);
    assert SpansApart(e);
    hide A.Inv, H.HeapOk, Tied, EarlyOk, H.Grow, H.NewSpan, Answer, After, SpansApart, K.RangeUsed, StackApart;
    GrowSize(e.h, s);
    var m := H.Grow(e.h, s).mem;
    forall x: nat | x < |m| && m[x] != e.h.mem[x] ensures x / PAGE_SIZE !in e.a.owner {
      if s.lo <= x < s.hi {
        assert OffTables(e.a, s.lo, s.hi);
      } else if R.OutsideSpans(e.h, x) {
        GrowWord(e.h, s, x);
      } else {
        var u :| u in e.h.spans && u.lo <= x < u.hi;
        InSpanOff(e, u, x);
      }
    }
  }

  lemma GrowOk(e: Early, stack: S.Stack, n: nat)
    requires EarlyOk(e, stack) && n > 0 && Answer(e.a.used, KernelRun(n)) != -1
    ensures var s := NewPages(e, n);
            && H.NewSpan(e.h, s) && (e.h.head == 0 || e.h.Has(e.h.head)) && |H.Grow(e.h, s).mem| == USER_MEM_START
            && EarlyOk(Synced(e, H.Grow(e.h, s), After(e.a.used, KernelRun(n))), stack)
  {
    hide A.Inv, H.HeapOk, Tied, TablesKept, H.Grow, H.NewSpan, Answer, After, K.RangeUsed, NewPages, OffTables;
    EarlyParts(e, stack);
    GrowPlace(e, stack, n);
    GrowTables(e, stack, n);
    var s := NewPages(e, n);
    var used := After(e.a.used, KernelRun(n));
    TakeGrows(e.a.used, KernelRun(n));
    GrowSize(e.h, s);
    SyncKeepsInv(e.a, e.h.mem, H.Grow(e.h, s).mem, used);
    forall t | t in e.h.spans ensures K.RangeUsed(used, t.lo, t.hi) { RangeStays(e.a.used, used, t.lo, t.hi); }
    RangeStays(e.a.used, used, stack.lo, stack.hi);
    GrownApart(e, Synced(e, H.Grow(e.h, s), used), stack, s);
  }

  lemma GrownApart(e: Early, e': Early, stack: S.Stack, s: H.Span)
    requires SpansApart(e) && StackApart(e, stack) && e'.a.owner == e.a.owner && e'.h.spans == e.h.spans + [s]
    requires forall t | t in e.h.spans :: K.RangeUsed(e'.a.used, t.lo, t.hi)
    requires K.RangeUsed(e'.a.used, stack.lo, stack.hi) && K.RangeUsed(e'.a.used, s.lo, s.hi)
    requires OffTables(e.a, s.lo, s.hi) && (stack.hi <= s.lo || s.hi <= stack.lo)
    ensures SpansApart(e') && StackApart(e', stack)
  {
    hide K.RangeUsed;
  }

  lemma EarlyStepOk(e: Early, stack: S.Stack, op: EarlyOp)
    requires EarlyOk(e, stack) && EarlyEnabled(e, op)
    ensures EarlyOk(EarlyStep(e, stack, op), stack)
  {
    EarlyParts(e, stack);
    hide EarlyOk, H.HeapOk, A.Inv, Tied, R.Enabled, R.Unused, A.ShapeOk, H.Tiled, Synced, Mapped;
    match op
    case TakePages(q) => PagesOk(e, stack, q);
    case Grow(n) => GrowOk(e, stack, n);
    case UseHeap(h) => HeapStepOk(e, stack, h);
    case AddTable(i) => AddTableOk(e, stack, i);
    case MapEntry(p, entry) => MapPageOk(e, stack, p, entry);
    case StoreUp(f, j, v) => StoreUpOk(e, stack, f, j, v);
    case StoreWord(x, v) => StoreOk(e, stack, x, v);
  }

  /** The state after a piece of the boot path; None when a step is not enabled. */
  ghost function EarlyRun(e: Early, stack: S.Stack, ops: seq<EarlyOp>): (r: Option<Early>)
    requires EarlyOk(e, stack)
    ensures r.Some? ==> EarlyOk(r.value, stack)
    decreases |ops|
  {
    if ops == [] then Some(e)
    else if !EarlyEnabled(e, ops[0]) then None
    else
      EarlyStepOk(e, stack, ops[0]);
      EarlyRun(EarlyStep(e, stack, ops[0]), stack, ops[1..])
  }

  // ----- the idle task -----

  /** The state after `task_init`, whose control block is the payload of block b. */
  ghost function IdleState(a: A.World, h: H.Heap, b: int, stack: S.Stack, r: S.Regs, esp0: Word): State
    requires |h.mem| == USER_MEM_START && 0 <= b && b + H.HEADER_SIZE + S.TCB_SIZE <= |h.mem| && a.kpd < TWO_TO_32 / PAGE_SIZE
  {
    var w := S.Boot(h.mem, b + H.HEADER_SIZE, stack, r, a.kpd * PAGE_SIZE, esp0);
    State(a.(m := Sync(a.m, w.mem)), w, h.(mem := w.mem), NoTask)
  }

  /** Block b is there for the idle task. */
  ghost predicate TcbAt(h: H.Heap, b: int) {
    h.IsLive(b) && b + H.HEADER_SIZE + S.TCB_SIZE <= h.End(b)
  }

  lemma BootWord(m: seq<Word>, t: Word, stack: S.Stack, r: S.Regs, cr3: Word, esp0: Word, x: nat)
    requires t + S.TCB_SIZE <= |m| && x < |m| && S.Boot(m, t, stack, r, cr3, esp0).mem[x] != m[x]
    ensures t <= x < t + S.TCB_SIZE
  {
  }

  lemma BootFields(m: seq<Word>, t: Word, stack: S.Stack, r: S.Regs, cr3: Word, esp0: Word)
    requires t + S.TCB_SIZE <= |m|
    ensures var w := S.Boot(m, t, stack, r, cr3, esp0);
            |w.mem| == |m| && w.mem[t + S.CR3] == 0 && w.ring == [t] && w.stacks == map[t := stack] && w.cr3 == cr3 && w.regs == r
  {
  }

  lemma TcbPlace(e: Early, stack: S.Stack, b: int)
    requires EarlyOk(e, stack) && TcbAt(e.h, b)
    ensures 0 < b && b % 8 == 0 && e.h.Has(b) && b + H.HEADER_SIZE + S.TCB_SIZE <= e.h.End(b) <= |e.h.mem| == USER_MEM_START
    ensures e.a.kpd < TWO_TO_32 / PAGE_SIZE
    ensures e.h.End(b) <= stack.lo || stack.hi <= b
  {
    H.TiledBlock(e.h, b);
    EarlyParts(e, stack);
  }

  lemma IdleStores(e: Early, stack: S.Stack, b: int, r: S.Regs, esp0: Word)
    requires EarlyOk(e, stack) && TcbAt(e.h, b) && 0 < b && b + H.HEADER_SIZE + S.TCB_SIZE <= |e.h.mem| == USER_MEM_START && e.a.kpd < TWO_TO_32 / PAGE_SIZE
    ensures var k := IdleState(e.a, e.h, b, stack, r, esp0);
            && A.Inv(k.a) && Tied(k.a.m, k.w.mem) && H.HeapOk(k.h, {})
            && k.h.IsLive(b) && k.h.End(b) == e.h.End(b) && |k.h.mem| == |e.h.mem|
            && forall x | x in e.h.starts :: e.h.Has(x) && k.h.mem[x] == e.h.mem[x]
  {
    TcbPlace(e, stack, b);
    hide A.Inv, H.HeapOk, S.Boot, Tied, R.Unused, K.RangeUsed, StackApart;
    var t: Word := b + H.HEADER_SIZE;
    var k := IdleState(e.a, e.h, b, stack, r, esp0);
    BootFields(e.h.mem, t, stack, r, e.a.kpd * PAGE_SIZE, esp0);
    forall x: nat | x < |e.h.mem| && k.h.mem[x] != e.h.mem[x] ensures R.Unused(e.h, x) && x / PAGE_SIZE !in e.a.owner {
      BootWord(e.h.mem, t, stack, r, e.a.kpd * PAGE_SIZE, esp0, x);
      R.PayloadUnused(e.h, b, x);
      PayloadOff(e, b, x);
    }
    R.UnusedChanges(e.h, k.h.mem);
    SyncKeepsInv(e.a, e.h.mem, k.h.mem, e.a.used);
    assert k.a == e.a.(m := Sync(e.a.m, k.w.mem), used := e.a.used);
  }

  lemma PayloadOff(e: Early, b: int, x: nat)
    requires H.HeapOk(e.h, {}) && SpansApart(e) && R.InPayload(e.h, b, x)
    ensures x / PAGE_SIZE !in e.a.owner
  {
    H.TiledBlock(e.h, b);
    var s :| s in e.h.spans && s.lo <= b && e.h.End(b) <= s.hi;
    hide H.HeapOk, SpansApart;
    InSpanOff(e, s, x);
  }

  lemma IdleSound(e: Early, stack: S.Stack, b: int, r: S.Regs, esp0: Word)
    requires EarlyOk(e, stack) && TcbAt(e.h, b)
    ensures 0 < b && b + H.HEADER_SIZE + S.TCB_SIZE <= |e.h.mem| == USER_MEM_START && e.a.kpd < TWO_TO_32 / PAGE_SIZE
    ensures Sound(IdleState(e.a, e.h, b, stack, r, esp0))
  {
    hide A.Inv, H.HeapOk, H.Tiled, S.Boot, Tied, S.Inv, OffTables, S.TaskPlaced, Sound, K.Coherent, K.AllBacked, TablesApart, EarlyOk,
         K.RangeUsed, SpansApart, K.OutsideHeap;
    TcbPlace(e, stack, b);
    NoSpaces(e, stack);
    var t: Word := b + H.HEADER_SIZE;
    var k := IdleState(e.a, e.h, b, stack, r, esp0);
    IdleStores(e, stack, b, r, esp0);
    BootFields(e.h.mem, t, stack, r, e.a.kpd * PAGE_SIZE, esp0);
    S.BootOk(e.h.mem, t, stack, r, e.a.kpd * PAGE_SIZE, esp0);
    H.Parts(k.h, {});
    IdleApart(e, k, stack);
    hide IdleState, StackApart;
    IdleBacked(k, b, stack, t);
    SoundIs(k);
  }

  /** The spans and the boot stack lie apart in k as they did. */
  lemma IdleApart(e: Early, k: State, stack: S.Stack)
    requires SpansApart(e) && StackApart(e, stack) && k.a.used == e.a.used && k.a.owner == e.a.owner && k.h.spans == e.h.spans
    ensures forall s | s in k.h.spans :: K.RangeUsed(k.a.used, s.lo, s.hi) && OffTables(k.a, s.lo, s.hi)
    ensures K.RangeUsed(k.a.used, stack.lo, stack.hi) && OffTables(k.a, stack.lo, stack.hi) && K.OutsideHeap(k.h, stack.lo, stack.hi)
  {
  }

  lemma IdleBacked(k: State, b: int, stack: S.Stack, t: Word)
    requires H.Tiled(k.h) && TcbAt(k.h, b) && t == b + H.HEADER_SIZE
    requires k.w.ring == [t] && k.w.stacks == map[t := stack] && t + S.TCB_SIZE <= |k.w.mem| && k.w.mem[t + S.CR3] == 0
    requires k.w.cr3 == k.a.kpd * PAGE_SIZE && A.Inv(k.a) && S.Inv(k.w)
    requires forall s | s in k.h.spans :: K.RangeUsed(k.a.used, s.lo, s.hi) && OffTables(k.a, s.lo, s.hi)
    requires K.RangeUsed(k.a.used, stack.lo, stack.hi) && OffTables(k.a, stack.lo, stack.hi) && K.OutsideHeap(k.h, stack.lo, stack.hi)
    ensures K.AllBacked(k.w, k.h, k.a.used) && TablesApart(k.a, k.w, k.h) && K.Coherent(K.Machine(k.a, k.w))
  {
    hide A.Inv, S.Inv, H.Tiled, K.RangeUsed, OffTables;
    assert K.TaskBacked(k.w, k.h, k.a.used, t);
    assert K.TaskSpaceOk(K.Machine(k.a, k.w), t);
  }

  // ----- `task_init` after any boot path -----

  /** The heap after the `kmalloc` of `task_init`. */
  ghost function TaskInitHeap(e: Early): Early
    requires TcbFits(e.h)
  {
    HeapSize(e.h, R.Malloc(S.TCB_SIZE));
    Synced(e, R.Step(e.h, R.Malloc(S.TCB_SIZE)), e.a.used)
  }

  lemma TaskInitBlock(e: Early, stack: S.Stack)
    requires EarlyOk(e, stack) && TcbFits(e.h)
    ensures EarlyOk(TaskInitHeap(e), stack) && TcbAt(TaskInitHeap(e).h, TcbBlock(e.h))
  {
    HeapStepOk(e, stack, R.Malloc(S.TCB_SIZE));
    var i := H.FirstFit(e.h, R.Needed(S.TCB_SIZE), 0);
    R.NeededHoldsRequest(S.TCB_SIZE);
    H.CarveOk(e.h, i, R.Needed(S.TCB_SIZE));
    hide H.HeapOk, H.FirstFit, H.Carve, EarlyOk;
  }

  /** k is the state in which the idle task begins: kmain has done `ops` since paging is on, then
      `task_init` has got its block. */
  ghost predicate Boots(a: A.World, mem: seq<Word>, stack: S.Stack, ops: seq<EarlyOp>, r: S.Regs, esp0: Word, k: State) {
    && CanBoot(a, mem, stack)
    && (StartOk(a, mem, stack);
        var e := EarlyRun(Early(a, NoHeap(mem)), stack, ops);
        && e.Some? && TcbFits(e.value.h)
        && var e1, b := TaskInitHeap(e.value), TcbBlock(e.value.h);
           && b + H.HEADER_SIZE + S.TCB_SIZE <= |e1.h.mem| == USER_MEM_START && e1.a.kpd < TWO_TO_32 / PAGE_SIZE
           && k == IdleState(e1.a, e1.h, b, stack, r, esp0))
  }

  /** Whatever the boot path has been, the invariant holds when the idle task begins. */
  lemma BootSound(a: A.World, mem: seq<Word>, stack: S.Stack, ops: seq<EarlyOp>, e: Early, r: S.Regs, esp0: Word) returns (k: State)
    requires CanBoot(a, mem, stack) && EarlyOk(Early(a, NoHeap(mem)), stack)
    requires EarlyRun(Early(a, NoHeap(mem)), stack, ops) == Some(e) && TcbFits(e.h)
    ensures Boots(a, mem, stack, ops, r, esp0, k) && Sound(k)
    ensures k.stage == NoTask && |k.w.ring| == 1 && k.w.ring[0] == TcbBlock(e.h) + H.HEADER_SIZE && k.w.ring[0] + S.TCB_SIZE <= |k.w.mem|
    ensures k.w.mem[k.w.ring[0] + S.CR3] == 0 && k.a.spaces == [] && k.a.used == e.a.used
    ensures k.w.regs == r && k.w.stacks == map[k.w.ring[0] := stack]
    ensures TcbFits(TaskInitHeap(e).h) ==> TcbFits(k.h)
  {
    hide EarlyOk, A.Inv, TcbFits, Tied, H.HeapOk, Sound, S.Boot, S.Inv, EarlyRun, StackApart, TaskInitHeap;
    TaskInitBlock(e, stack);
    var e1, b := TaskInitHeap(e), TcbBlock(e.h);
    IdleSound(e1, stack, b, r, esp0);
    k := IdleState(e1.a, e1.h, b, stack, r, esp0);
    BootFields(e1.h.mem, b + H.HEADER_SIZE, stack, r, e1.a.kpd * PAGE_SIZE, esp0);
    IdleStores(e1, stack, b, r, esp0);
    NoSpaces(e1, stack);
    TaskInitUsed(e);
    if TcbFits(e1.h) { FitKept(e1.h, k.h.mem); }
  }

  lemma TaskInitUsed(e: Early)
    requires TcbFits(e.h)
    ensures TaskInitHeap(e).a.used == e.a.used
  {
  }

  // ----- the boot path of kmain -----

  lemma EarlyCons(e: Early, stack: S.Stack, op: EarlyOp, rest: seq<EarlyOp>)
    requires EarlyOk(e, stack) && EarlyEnabled(e, op)
    ensures EarlyOk(EarlyStep(e, stack, op), stack) && EarlyRun(e, stack, [op] + rest) == EarlyRun(EarlyStep(e, stack, op), stack, rest)
  {
    hide EarlyOk, EarlyEnabled, EarlyStep;
    EarlyStepOk(e, stack, op);
    assert ([op] + rest)[1..] == rest;
  }

  /** A request that is cut from the last block of the only span. */
  lemma EarlyCut(e: Early, stack: S.Stack, s: H.Span, starts: set<int>, last: int, size: Word, n: int, rest: seq<EarlyOp>) returns (e1: Early)
    requires EarlyOk(e, stack) && F.Row(e.h, s, starts, last) && n == R.Needed(size) && last + n + H.MIN_BLOCK_SIZE <= s.hi
    ensures EarlyOk(e1, stack) && F.Row(e1.h, s, starts + {last + n}, last + n)
    ensures EarlyRun(e, stack, [UseHeap(R.Malloc(size))] + rest) == EarlyRun(e1, stack, rest)
  {
    NoSpaces(e, stack);
    F.CutRow(e.h, s, starts, last, size, n);
    hide EarlyOk, F.Row, R.Step, R.Needed;
    EarlyCons(e, stack, UseHeap(R.Malloc(size)), rest);
    e1 := EarlyStep(e, stack, UseHeap(R.Malloc(size)));
  }

  lemma {:induction false} EarlyPages(e: Early, stack: S.Stack, ops: seq<EarlyOp>) returns (e1: Early)
    requires EarlyOk(e, stack) && forall op | op in ops :: op.TakePages?
    ensures EarlyRun(e, stack, ops) == Some(e1) && EarlyOk(e1, stack) && e1.h == e.h
    decreases |ops|
  {
    if ops == [] {
      e1 := e;
    } else {
      assert ops == [ops[0]] + ops[1..];
      NoSpaces(e, stack);
      hide EarlyOk;
      EarlyCons(e, stack, ops[0], ops[1..]);
      e1 := EarlyPages(EarlyStep(e, stack, ops[0]), stack, ops[1..]);
    }
  }

  const RAMFS_NODE_SIZE := 88
  const VFS_NODE_SIZE := 80
  const HEAP_INIT_PAGES := 16

  /** What kmain allocates between `paging_init` and `task_init`, for a first program of c pages and
      without its self-checks: the heap, the root of the file system, image and page list of `elf_load`,
      and single user pages. */
  function KmainAllocations(c: nat, userPages: nat): seq<EarlyOp>
    requires 4 * c < TWO_TO_32
  {
    [Grow(HEAP_INIT_PAGES)] + ([UseHeap(R.Malloc(RAMFS_NODE_SIZE))] + ([UseHeap(R.Malloc(VFS_NODE_SIZE))] + FirstProgram(c, userPages)))
  }

  function FirstProgram(c: nat, userPages: nat): seq<EarlyOp>
    requires 4 * c < TWO_TO_32
  {
    [TakePages(UserRun(c))] + ([UseHeap(R.Malloc(4 * c))] + seq(userPages, i => TakePages(UserPage)))
  }

  lemma RowFits(h: H.Heap, s: H.Span, starts: set<int>, last: int)
    requires F.Row(h, s, starts, last) && last + H.HEADER_SIZE + S.TCB_SIZE <= s.hi
    ensures TcbFits(h)
  {
    assert R.Needed(S.TCB_SIZE) == H.HEADER_SIZE + S.TCB_SIZE;
    hide H.HeapOk;
  }

  /** That path is possible whenever the page allocator can serve the heap, and afterwards there is a
      block for the idle task and one for the next task. */
  lemma KmainBoots(a: A.World, mem: seq<Word>, stack: S.Stack, c: nat, userPages: nat) returns (e: Early)
    requires CanBoot(a, mem, stack) && Answer(a.used, KernelRun(HEAP_INIT_PAGES)) != -1 && c <= 31
    ensures EarlyOk(Early(a, NoHeap(mem)), stack)
    ensures EarlyRun(Early(a, NoHeap(mem)), stack, KmainAllocations(c, userPages)) == Some(e)
    ensures EarlyOk(e, stack) && TcbFits(e.h) && TcbFits(TaskInitHeap(e).h)
  {
    hide EarlyOk, CanBoot, Answer, After, EarlyRun, R.Needed, F.Row, TcbFits, TaskInitHeap, FirstProgram;
    StartOk(a, mem, stack);
    KmainSizes(c);
    var tail := FirstProgram(c, userPages);
    var e1, s := FirstGrow(Early(a, NoHeap(mem)), stack, mem, [UseHeap(R.Malloc(RAMFS_NODE_SIZE))] + ([UseHeap(R.Malloc(VFS_NODE_SIZE))] + tail));
    var e2 := EarlyCut(e1, stack, s, {s.lo}, s.lo, RAMFS_NODE_SIZE, 96, [UseHeap(R.Malloc(VFS_NODE_SIZE))] + tail);
    var starts := {s.lo} + {s.lo + 96};
    var e3 := EarlyCut(e2, stack, s, starts, s.lo + 96, VFS_NODE_SIZE, 88, tail);
    e := KmainTail(e3, stack, s, starts + {s.lo + 96 + 88}, s.lo + 96 + 88, c, userPages);
  }

  lemma KmainSizes(c: nat)
    requires c <= 31
    ensures R.Needed(RAMFS_NODE_SIZE) == 96 && R.Needed(VFS_NODE_SIZE) == 88 && R.Needed(4 * c) <= 136
    ensures R.Needed(S.TCB_SIZE) == 96
  {
  }

  lemma FirstGrow(e: Early, stack: S.Stack, mem: seq<Word>, rest: seq<EarlyOp>) returns (e1: Early, s: H.Span)
    requires EarlyOk(e, stack) && e.h == NoHeap(mem) && Answer(e.a.used, KernelRun(HEAP_INIT_PAGES)) != -1
    ensures EarlyOk(e1, stack) && F.Row(e1.h, s, {s.lo}, s.lo) && s.hi == s.lo + HEAP_INIT_PAGES * PAGE_SIZE
    ensures EarlyRun(e, stack, [Grow(HEAP_INIT_PAGES)] + rest) == EarlyRun(e1, stack, rest)
  {
    s := NewPages(e, HEAP_INIT_PAGES);
    GrowPlace(e, stack, HEAP_INIT_PAGES);
    NoSpaces(e, stack);
    hide EarlyOk, Answer, After, A.Inv, Tied, H.HeapOk, StackApart, H.NewSpan, NewPages, H.Grow;
    GrowSize(e.h, s);
    R.FirstSpan(e.h, s);
    EarlyCons(e, stack, Grow(HEAP_INIT_PAGES), rest);
    e1 := EarlyStep(e, stack, Grow(HEAP_INIT_PAGES));
  }

  lemma KmainTail(e: Early, stack: S.Stack, s: H.Span, starts: set<int>, last: int, c: nat, userPages: nat) returns (e2: Early)
    requires EarlyOk(e, stack) && F.Row(e.h, s, starts, last) && c <= 31 && last + 136 + 96 + 96 + H.MIN_BLOCK_SIZE <= s.hi
    ensures EarlyRun(e, stack, FirstProgram(c, userPages)) == Some(e2)
    ensures EarlyOk(e2, stack) && TcbFits(e2.h) && TcbFits(TaskInitHeap(e2).h)
  {
    hide EarlyOk, F.Row, R.Needed, TcbFits, EarlyRun, TaskInitHeap, EarlyStep, EarlyEnabled;
    KmainSizes(c);
    var pages: seq<EarlyOp> := seq(userPages, i => TakePages(UserPage));
    var e1 := FirstRunPages(e, stack, c, [UseHeap(R.Malloc(4 * c))] + pages);
    var n := R.Needed(4 * c);
    R.NeededHoldsRequest(4 * c);
    var e3 := EarlyCut(e1, stack, s, starts, last, 4 * c, n, pages);
    e2 := EarlyPages(e3, stack, pages);
    TwoTcbs(e2, s, starts + {last + n}, last + n);
  }

  lemma FirstRunPages(e: Early, stack: S.Stack, c: nat, rest: seq<EarlyOp>) returns (e1: Early)
    requires EarlyOk(e, stack)
    ensures EarlyOk(e1, stack) && e1.h == e.h && EarlyRun(e, stack, [TakePages(UserRun(c))] + rest) == EarlyRun(e1, stack, rest)
  {
    NoSpaces(e, stack);
    hide EarlyOk, A.Inv, H.HeapOk, EarlyRun;
    EarlyCons(e, stack, TakePages(UserRun(c)), rest);
    e1 := EarlyStep(e, stack, TakePages(UserRun(c)));
  }

  lemma TwoTcbs(e: Early, s: H.Span, starts: set<int>, last: int)
    requires F.Row(e.h, s, starts, last) && last + 96 + 96 + H.MIN_BLOCK_SIZE <= s.hi
    ensures TcbFits(e.h) && TcbFits(TaskInitHeap(e).h)
  {
    KmainSizes(0);
    RowFits(e.h, s, starts, last);
    hide TcbFits, R.Needed, R.Step;
    F.CutRow(e.h, s, starts, last, S.TCB_SIZE, 96);
    hide F.Row;
    RowFits(R.Step(e.h, R.Malloc(S.TCB_SIZE)), s, starts + {last + 96}, last + 96);
  }

  // ----- the idle task in a foreign directory, from boot -----

  /** Any boot path, a creation with a page, a yield and a yield: the software check and the hardware
      disagree. */
  lemma StaleDirectoryReached(a: A.World, mem: seq<Word>, stack: S.Stack, ops: seq<EarlyOp>, e: Early, r: S.Regs, esp0: Word, p: Page,
                              id: Word, entry: Word, ustackTop: Word, toRing3: Word, r1: Word, r2: Word)
    returns (k: State, n: S.NewTask)
    requires CanBoot(a, mem, stack) && EarlyOk(Early(a, NoHeap(mem)), stack)
    requires EarlyRun(Early(a, NoHeap(mem)), stack, ops) == Some(e) && TcbFits(e.h) && TcbFits(TaskInitHeap(e).h)
    requires MemoryForTask(e.a.used) && stack.lo + 28 <= r.esp <= stack.hi && r.esp % 4 == 0
    requires p.Ok() && A.TakenUserFrame(e.a.used, p.Number())
    ensures Boots(a, mem, stack, ops, r, esp0, k) && Sound(k)
    ensures n.entry == entry && n.id == id && n.ustackTop == ustackTop && n.returnToRing3 == toRing3
    ensures var last := Run(k, [GetStack, MakeDirectory, MarkPage(0, p), GetTcb] + [Finish(n), Yield(r1), Yield(r2)]);
            last.Some? && StaleAt(last.value, p)
  {
    hide CanBoot, EarlyOk, EarlyRun, Boots, Sound, TcbFits, MemoryForTask, Run, StaleAt, TaskInitHeap;
    k := BootSound(a, mem, stack, ops, e, r, esp0);
    assert S.HasRoom(k.w);
    n := StaleDirectoryRun(k, p, id, entry, ustackTop, toRing3, r1, r2);
  }
}
