/** The whole kernel on one memory: its invariant, and that each step keeps it.  What task creation relies
    on is derived from the allocators. */
module Machines {
  import opened Words
  import opened PageRuns
  import opened PageTables
  import opened OneMemory
  import A = AddressSpaces
  import S = Switching
  import H = HeapState
  import R = HeapRuns
  import K = Kernel

  // ----- the state -----

  /** How far a task creation has come: its kernel stack starts at lo; its control block is the payload
      of the heap block b. */
  datatype Stage = NoTask | HasStack(lo: int) | HasTcb(lo: int, b: Word)
  {
    predicate Stacked() {
      HasStack? || HasTcb?
    }
  }

  datatype State = State(a: A.World, w: S.World, h: H.Heap, stage: Stage)

  /** No page table lies in [lo, hi). */
  ghost predicate OffTables(a: A.World, lo: int, hi: int) {
    forall f | f in a.owner :: f * PAGE_SIZE + PAGE_SIZE <= lo || hi <= f * PAGE_SIZE
  }

  /** Page tables lie neither in the heap nor in kernel stacks. */
  ghost predicate TablesApart(a: A.World, w: S.World, h: H.Heap) {
    && (forall s | s in h.spans :: OffTables(a, s.lo, s.hi))
    && (forall t | t in w.ring && t in w.stacks :: OffTables(a, w.stacks[t].lo, w.stacks[t].hi))
  }

  ghost predicate StageOk(k: State) {
    && (k.stage.Stacked() ==> K.StackReady(k.w, k.h, k.a.used, k.stage.lo) && OffTables(k.a, k.stage.lo, k.stage.lo + K.KSTACK_SIZE))
    && (k.stage.HasTcb? ==>
          && k.h.IsLive(k.stage.b) && k.stage.b + H.HEADER_SIZE + S.TCB_SIZE <= k.h.End(k.stage.b)
          && k.stage.b + H.HEADER_SIZE !in k.w.ring)
  }

  /** The invariant of every run.  Address spaces, scheduler and heap have theirs, they look at the same
      memory, and the pages of the heap, of the kernel stacks and of the page tables are taken and
      disjoint. */
  ghost predicate Sound(k: State) {
    && K.Coherent(K.Machine(k.a, k.w)) && H.HeapOk(k.h, {})
    && k.h.mem == k.w.mem && Tied(k.a.m, k.w.mem)
    && K.AllBacked(k.w, k.h, k.a.used) && TablesApart(k.a, k.w, k.h) && StageOk(k)
  }

  lemma SoundParts(k: State)
    requires Sound(k)
    ensures A.Inv(k.a) && S.Inv(k.w) && H.Tiled(k.h) && |k.w.mem| == USER_MEM_START && |k.w.ring| > 0
    ensures A.ShapeOk(k.a) && |k.a.m| == FIRST_FRAME + |k.a.used|
  {
  }

  // ----- words that nobody else relies on -----

  /** A store to x disturbs neither the heap's structure nor the scheduler's fields nor the stack of a
      task that is not running. */
  ghost predicate Harmless(k: State, x: int) {
    && R.Unused(k.h, x)
    && (forall t | t in k.w.ring :: x < t || t + S.FDS <= x)
    && (forall t | t in k.w.ring && t != k.w.ring[0] && t in k.w.stacks :: x < k.w.stacks[t].lo || k.w.stacks[t].hi <= x)
  }

  ghost predicate HarmlessStores(k: State, m: seq<Word>) {
    |m| == |k.w.mem| && forall x | 0 <= x < |m| && m[x] != k.w.mem[x] :: Harmless(k, x)
  }

  /** The heap blocks that hold control blocks. */
  ghost function Tcbs(w: S.World, stage: Stage): set<int> {
    (set t | t in w.ring :: t - H.HEADER_SIZE) + if stage.HasTcb? then {stage.b as int} else {}
  }

  /** The spans are the same in h', and the given blocks are live there if they were, with their size. */
  ghost predicate SameBlocks(h: H.Heap, h': H.Heap, blocks: set<int>) {
    h'.spans == h.spans && forall x | x in blocks && h.IsLive(x) :: h'.IsLive(x) && h'.End(x) == h.End(x)
  }

  lemma HarmlessOk(k: State, m: seq<Word>, r: S.Regs)
    requires Sound(k) && HarmlessStores(k, m)
    ensures S.Quiet(k.w, m, r) && H.HeapOk(k.h.(mem := m), {}) && forall blocks :: SameBlocks(k.h, k.h.(mem := m), blocks)
  {
    hide K.Coherent, K.AllBacked, StageOk, TablesApart, H.HeapOk, Tied, R.Unused, S.TaskPlaced, S.Apart;
    PlacedInv(k.w) by { SoundParts(k); }
    SoundParts(k);
    R.UnusedChanges(k.h, m);
  }

  lemma PlacedInv(w: S.World)
    requires S.Inv(w)
    ensures S.Placed(w)
  {
  }

  // ----- the parts of the invariant, one by one -----

  lemma CoherentKept(a: A.World, w: S.World, a': A.World, w': S.World)
    requires K.Coherent(K.Machine(a, w)) && A.Inv(a') && S.Inv(w')
    requires a'.kpd == a.kpd && |a.spaces| <= |a'.spaces| && forall i | 0 <= i < |a.spaces| :: a'.spaces[i].pd == a.spaces[i].pd
    requires w'.cr3 == w.cr3 && w'.ring == w.ring && |w'.mem| == |w.mem|
    requires forall t | t in w.ring && t + S.TCB_SIZE <= |w.mem| :: w'.mem[t + S.CR3] == w.mem[t + S.CR3]
    ensures K.Coherent(K.Machine(a', w'))
  {
    hide A.Inv, S.Inv;
    forall c: Word | K.SomeSpace(a, c) ensures K.SomeSpace(a', c) {
      var i: nat :| K.IsSpace(a, c, i);
      assert K.IsSpace(a', c, i);
    }
    forall t | t in w'.ring ensures K.TaskSpaceOk(K.Machine(a', w'), t) {
      assert K.TaskSpaceOk(K.Machine(a, w), t);
    }
  }

  ghost predicate UsedGrows(used: seq<bool>, used': seq<bool>) {
    |used| == |used'| && forall i | 0 <= i < |used| && used[i] :: used'[i]
  }

  ghost predicate SameStacks(w: S.World, w': S.World) {
    forall t | t in w'.ring :: t in w.ring && (t in w.stacks ==> t in w'.stacks && w'.stacks[t] == w.stacks[t])
  }

  lemma RangeStays(used: seq<bool>, used': seq<bool>, lo: int, hi: int)
    requires UsedGrows(used, used') && K.RangeUsed(used, lo, hi)
    ensures K.RangeUsed(used', lo, hi)
  {
  }

  lemma BackedKept(w: S.World, w': S.World, h: H.Heap, h': H.Heap, used: seq<bool>, used': seq<bool>)
    requires K.AllBacked(w, h, used) && H.Tiled(h') && SameBlocks(h, h', Tcbs(w, NoTask)) && UsedGrows(used, used') && SameStacks(w, w')
    ensures K.AllBacked(w', h', used')
  {
    hide H.Tiled, K.RangeUsed;
    forall s | s in h'.spans ensures K.RangeUsed(used', s.lo, s.hi) { RangeStays(used, used', s.lo, s.hi); }
    forall t | t in w'.ring ensures K.TaskBacked(w', h', used', t) {
      assert K.TaskBacked(w, h, used, t);
      RangeStays(used, used', w.stacks[t].lo, w.stacks[t].hi);
    }
  }

  lemma ReadyKept(w: S.World, w': S.World, h: H.Heap, h': H.Heap, used: seq<bool>, used': seq<bool>, lo: int)
    requires K.StackReady(w, h, used, lo) && h'.spans == h.spans && UsedGrows(used, used') && SameStacks(w, w') && S.Inv(w)
    ensures K.StackReady(w', h', used', lo)
  {
    hide S.Inv, K.RangeUsed;
    RangeStays(used, used', lo, lo + K.KSTACK_SIZE);
    StacksKnown(w);
    forall u | u in w'.ring && u in w'.stacks ensures w'.stacks[u].hi <= lo || lo + K.KSTACK_SIZE <= w'.stacks[u].lo {
      assert u in w.ring && u in w.stacks;
    }
  }

  /** The scheduler's and the heap's side of a step that changes no stack, no span and no live block. */
  lemma KeptOk(k: State, k': State)
    requires Sound(k) && K.Coherent(K.Machine(k'.a, k'.w)) && H.HeapOk(k'.h, {}) && k'.h.mem == k'.w.mem && Tied(k'.a.m, k'.w.mem)
    requires SameBlocks(k.h, k'.h, Tcbs(k.w, k.stage)) && UsedGrows(k.a.used, k'.a.used) && SameStacks(k.w, k'.w) && k'.stage == k.stage
    requires k'.a.owner == k.a.owner
    ensures Sound(k')
  {
    hide K.Coherent, K.AllBacked, H.HeapOk, Tied, K.StackReady;
    SoundParts(k);
    assert H.Tiled(k'.h) by { H.Parts(k'.h, {}); }
    assert SameBlocks(k.h, k'.h, Tcbs(k.w, NoTask));
    BackedKept(k.w, k'.w, k.h, k'.h, k.a.used, k'.a.used);
    StacksKnown(k.w);
    if k.stage.Stacked() { ReadyKept(k.w, k'.w, k.h, k'.h, k.a.used, k'.a.used, k.stage.lo); }
  }

  lemma StacksKnown(w: S.World)
    requires S.Inv(w)
    ensures forall t | t in w.ring :: t in w.stacks
  {
    forall t | t in w.ring ensures t in w.stacks { assert S.TaskPlaced(w, t); }
  }

  // ----- the running task's stores -----

  ghost function Stored(k: State, m: seq<Word>, r: S.Regs): State
    requires |m| == USER_MEM_START
  {
    State(k.a.(m := Sync(k.a.m, m)), k.w.(mem := m, regs := r), k.h.(mem := m), k.stage)
  }

  ghost predicate Computes(k: State, m: seq<Word>) {
    HarmlessStores(k, m) && TablesKept(k.a, k.w.mem, m)
  }

  lemma StoredSound(k: State, m: seq<Word>, r: S.Regs)
    requires Sound(k) && Computes(k, m)
    ensures |m| == USER_MEM_START && Sound(Stored(k, m, r))
    ensures S.Enabled(k.w, S.DoRun(m, r)) && Stored(k, m, r).w == S.Step(k.w, S.DoRun(m, r))
  {
    SoundParts(k);
    HarmlessOk(k, m, r);
    hide Sound, K.Coherent, H.HeapOk, S.Inv, A.Inv, Tied, A.ShapeOk, TablesKept, HarmlessStores, S.Quiet;
    assert K.Coherent(K.Machine(k.a, k.w)) && Tied(k.a.m, k.w.mem) by { SoundTied(k); }
    SyncKeepsInv(k.a, k.w.mem, m, k.a.used);
    S.QuietKeepsInv(k.w, m, r);
    var k' := Stored(k, m, r);
    assert k'.a == k.a.(m := Sync(k.a.m, m), used := k.a.used);
    QuietFields(k.w, m, r);
    CoherentKept(k.a, k.w, k'.a, k'.w);
    KeptOk(k, k');
  }

  lemma SoundTied(k: State)
    requires Sound(k)
    ensures K.Coherent(K.Machine(k.a, k.w)) && Tied(k.a.m, k.w.mem) && H.HeapOk(k.h, {}) && k.h.mem == k.w.mem
  {
  }

  lemma QuietFields(w: S.World, m: seq<Word>, r: S.Regs)
    requires S.Quiet(w, m, r)
    ensures forall t | t in w.ring && t + S.TCB_SIZE <= |w.mem| :: |m| == |w.mem| && m[t + S.CR3] == w.mem[t + S.CR3]
  {
  }

  // ----- page tables -----

  lemma StillOff(a: A.World, a': A.World, lo: int, hi: int)
    requires OnlyTables(a, a') && OffTables(a, lo, hi) && K.RangeUsed(a.used, lo, hi)
    ensures OffTables(a', lo, hi)
  {
    forall f | f in a'.owner ensures f * PAGE_SIZE + PAGE_SIZE <= lo || hi <= f * PAGE_SIZE {
      if f !in a.owner {
        var p := f - FIRST_FRAME;
        assert PageAddress(p) == f * PAGE_SIZE && PageAddress(p + 1) == f * PAGE_SIZE + PAGE_SIZE;
      }
    }
  }

  lemma StillApart(k: State, a': A.World)
    requires Sound(k) && OnlyTables(k.a, a')
    ensures TablesApart(a', k.w, k.h)
    ensures k.stage.Stacked() ==> OffTables(a', k.stage.lo, k.stage.lo + K.KSTACK_SIZE)
  {
    hide K.Coherent, H.HeapOk, Tied, OnlyTables, OffTables, K.RangeUsed;
    forall s | s in k.h.spans ensures OffTables(a', s.lo, s.hi) { StillOff(k.a, a', s.lo, s.hi); }
    forall t | t in k.w.ring && t in k.w.stacks ensures OffTables(a', k.w.stacks[t].lo, k.w.stacks[t].hi) {
      assert K.TaskBacked(k.w, k.h, k.a.used, t);
      StillOff(k.a, a', k.w.stacks[t].lo, k.w.stacks[t].hi);
    }
    if k.stage.Stacked() { StillOff(k.a, a', k.stage.lo, k.stage.lo + K.KSTACK_SIZE); }
  }

  /** A word of a page table is in no stack and in no span. */
  lemma TableWordHarmless(k: State, a': A.World, x: nat)
    requires Sound(k) && TablesApart(a', k.w, k.h) && x / PAGE_SIZE in a'.owner
    ensures Harmless(k, x)
  {
    assert R.OutsideSpans(k.h, x) by {
      forall s | s in k.h.spans ensures x < s.lo || s.hi <= x { assert OffTables(a', s.lo, s.hi); }
    }
    R.OutsideUnused(k.h, x);
    forall t | t in k.w.ring ensures x < t || t + S.FDS <= x {
      TcbInSpan(k, t);
    }
    hide R.Unused;
  }

  /** A task's control block lies in the payload of a live block, which lies in a span. */
  lemma TcbInSpan(k: State, t: Word)
    requires Sound(k) && t in k.w.ring
    ensures exists s :: s in k.h.spans && s.lo <= t && t + S.TCB_SIZE <= s.hi
    ensures var b := t - H.HEADER_SIZE; forall x | t <= x < t + S.TCB_SIZE :: R.InPayload(k.h, b, x)
  {
    assert K.TaskBacked(k.w, k.h, k.a.used, t);
    H.TiledBlock(k.h, t - H.HEADER_SIZE);
  }

  ghost function Remapped(k: State, a': A.World): State {
    var m := Flat(a'.m, k.w.mem);
    State(a', k.w.(mem := m), k.h.(mem := m), k.stage)
  }

  lemma FlatHarmless(k: State, a': A.World)
    requires Sound(k) && OnlyTables(k.a, a') && TablesApart(a', k.w, k.h)
    ensures HarmlessStores(k, Flat(a'.m, k.w.mem)) && Tied(a'.m, Flat(a'.m, k.w.mem))
  {
    hide K.Coherent, H.HeapOk, K.AllBacked, StageOk, TablesApart, Harmless;
    var m := Flat(a'.m, k.w.mem);
    FlatTied(a'.m, k.w.mem);
    forall x: nat | x < |m| && m[x] != k.w.mem[x] ensures Harmless(k, x) {
      FlatWord(k.a.m, a'.m, k.w.mem, x);
      TableWordHarmless(k, a', x);
    }
  }

  lemma RemappedSound(k: State, a': A.World)
    requires Sound(k) && A.Inv(a') && OnlyTables(k.a, a')
    ensures Sound(Remapped(k, a'))
    ensures var m := Flat(a'.m, k.w.mem);
            S.Inv(k.w) && S.Enabled(k.w, S.DoRun(m, k.w.regs)) && Remapped(k, a').w == S.Step(k.w, S.DoRun(m, k.w.regs))
  {
    var m := Flat(a'.m, k.w.mem);
    SoundParts(k);
    SoundTied(k);
    StillApart(k, a');
    FlatHarmless(k, a');
    HarmlessOk(k, m, k.w.regs);
    var k' := Remapped(k, a');
    hide K.Coherent, H.HeapOk, S.Inv, A.Inv, Tied, A.ShapeOk, HarmlessStores, S.Quiet, TablesApart, Flat, K.AllBacked, K.StackReady, OffTables;
    S.QuietKeepsInv(k.w, m, k.w.regs);
    QuietFields(k.w, m, k.w.regs);
    assert UsedGrows(k.a.used, a'.used);
    CoherentKept(k.a, k.w, a', k'.w);
    assert H.Tiled(k'.h) by { H.Parts(k'.h, {}); }
    BackedKept(k.w, k'.w, k.h, k'.h, k.a.used, a'.used);
    SameTables(a', k.w, k'.w, k.h, k'.h);
    if k.stage.Stacked() { ReadyKept(k.w, k'.w, k.h, k'.h, k.a.used, a'.used, k.stage.lo); }
  }

  lemma SameTables(a: A.World, w: S.World, w': S.World, h: H.Heap, h': H.Heap)
    requires TablesApart(a, w, h) && w'.ring == w.ring && w'.stacks == w.stacks && h'.spans == h.spans
    ensures TablesApart(a, w', h')
  {
  }

  // ----- page allocations -----

  ghost function WithPages(k: State, q: Request): State {
    k.(a := k.a.(used := After(k.a.used, q)))
  }

  lemma TakeGrows(used: seq<bool>, q: Request)
    ensures UsedGrows(used, After(used, q))
  {
  }

  lemma WithPagesSound(k: State, q: Request)
    requires Sound(k)
    ensures Sound(WithPages(k, q))
  {
    SoundParts(k);
    var k' := WithPages(k, q);
    TakeGrows(k.a.used, q);
    A.OutsideTables(k.a, k.a.m, k'.a.used);
    assert k'.a == k.a.(m := k.a.m, used := k'.a.used);
    hide A.Inv, S.Inv, H.HeapOk, Tied, After;
    CoherentKept(k.a, k.w, k'.a, k'.w);
    KeptOk(k, k');
  }

  ghost function TakeStack(k: State): State {
    WithPages(k, KernelRun(2)).(stage := if Answer(k.a.used, KernelRun(2)) == -1 then k.stage else HasStack(Reply(k.a.used, KernelRun(2))))
  }

  /** Granted pages are no page tables. */
  lemma GrantOff(a: A.World, q: Request)
    requires A.ShapeOk(a) && Answer(a.used, q) != -1
    ensures var i := Answer(a.used, q); OffTables(a, PageAddress(i), PageAddress(i + q.Count()))
  {
    var i, n := Answer(a.used, q), q.Count();
    GrantFree(a.used, q);
    hide Answer;
    forall f | f in a.owner ensures f * PAGE_SIZE + PAGE_SIZE <= PageAddress(i) || PageAddress(i + n) <= f * PAGE_SIZE {
      assert A.TakenKernelFrame(a.used, f);
      assert PageAddress(f - FIRST_FRAME) == f * PAGE_SIZE;
      assert f - FIRST_FRAME < i || i + n <= f - FIRST_FRAME;
    }
  }

  lemma GrantFree(used: seq<bool>, q: Request)
    requires Answer(used, q) != -1
    ensures RunFree(used, Answer(used, q), q.Count())
  {
  }

  lemma TakeStackSound(k: State)
    requires Sound(k) && k.stage == NoTask
    ensures Sound(TakeStack(k))
  {
    SoundParts(k);
    WithPagesSound(k, KernelRun(2));
    if Answer(k.a.used, KernelRun(2)) != -1 {
      K.StackGranted(k.w, k.h, k.a.used);
      GrantOff(k.a, KernelRun(2));
      hide Sound, A.Inv, S.Inv, H.HeapOk, Tied, After, K.StackReady, Answer;
      StackPlace(k.a.used);
      StageSet(WithPages(k, KernelRun(2)), TakeStack(k).stage);
    }
  }

  lemma StackPlace(used: seq<bool>)
    requires Answer(used, KernelRun(2)) != -1
    ensures Reply(used, KernelRun(2)) == PageAddress(Answer(used, KernelRun(2)))
    ensures PageAddress(Answer(used, KernelRun(2)) + 2) == Reply(used, KernelRun(2)) + K.KSTACK_SIZE
  {
  }

  lemma StageSet(k: State, stage: Stage)
    requires Sound(k) && StageOk(k.(stage := stage))
    ensures Sound(k.(stage := stage))
  {
  }

  // ----- the heap -----

  ghost function WithHeap(k: State, h: H.Heap, used: seq<bool>): State
    requires |h.mem| == USER_MEM_START
  {
    State(k.a.(m := Sync(k.a.m, h.mem), used := used), k.w.(mem := h.mem), h, k.stage)
  }

  /** Control blocks are never freed. */
  ghost predicate MayChange(k: State, op: R.HeapOp) {
    match op
    case Malloc(size) => true
    case Free(b) => b !in Tcbs(k.w, k.stage)
    case _ => false
  }

  /** Heap operations change nothing outside the heap's pages. */
  lemma HeapWords(h: H.Heap, op: R.HeapOp, x: nat)
    requires H.HeapOk(h, {}) && R.Enabled(h, op) && (op.Malloc? || op.Free?)
    requires x < |h.mem| && R.OutsideSpans(h, x)
    ensures |R.Step(h, op).mem| == |h.mem| && R.Step(h, op).mem[x] == h.mem[x] && R.Step(h, op).spans == h.spans
  {
    R.OutsideUnused(h, x);
    match op
    case Malloc(size) =>
      R.NeededHoldsRequest(size);
      var i := H.FirstFit(h, R.Needed(size), 0);
      if i < |h.list| {
        hide H.HeapOk, H.FirstFit, H.Carve, R.Needed;
        H.CarveOk(h, i, R.Needed(size));
        R.CarveFrame(h, i, R.Needed(size), x);
      }
    case Free(b) =>
      H.TiledBlock(h, b);
      hide H.HeapOk, R.Release;
      R.ReleaseOk(h, b);
      R.ReleaseFrame(h, b, x);
  }

  /** ... and no word of a live block that stays. */
  lemma LiveWords(h: H.Heap, op: R.HeapOp, b: int)
    requires H.HeapOk(h, {}) && R.Enabled(h, op) && (op.Malloc? || op.Free?) && h.IsLive(b) && op != R.Free(b)
    ensures var h' := R.Step(h, op);
            && h.Has(b) && h'.IsLive(b) && h'.End(b) == h.End(b) && h.End(b) <= |h.mem| == |h'.mem|
            && forall x | b <= x < h.End(b) :: h'.mem[x] == h.mem[x]
  {
    H.TiledBlock(h, b);
    hide H.HeapOk, R.Step, R.Enabled;
    R.StepKeepsLive(h, op, b, b);
    forall x | b <= x < h.End(b) ensures x < |R.Step(h, op).mem| && R.Step(h, op).mem[x] == h.mem[x] {
      R.StepKeepsLive(h, op, b, x);
    }
  }

  lemma HeapTableWords(k: State, op: R.HeapOp)
    requires Sound(k) && R.Enabled(k.h, op) && MayChange(k, op)
    ensures TablesKept(k.a, k.w.mem, R.Step(k.h, op).mem)
    ensures |R.Step(k.h, op).mem| == |k.h.mem| == USER_MEM_START
  {
    SoundParts(k);
    R.StepOk(k.h, op);
    SoundTied(k);
    var m := R.Step(k.h, op).mem;
    assert |m| == |k.h.mem| == USER_MEM_START;
    hide K.Coherent, H.HeapOk, A.Inv, S.Inv, H.Tiled, Tied, K.AllBacked, StageOk, R.Step, R.Enabled;
    forall x | 0 <= x < |m| && m[x] != k.w.mem[x] ensures x / PAGE_SIZE !in k.a.owner {
      if R.OutsideSpans(k.h, x) {
        HeapWords(k.h, op, x);
      } else {
        var s :| s in k.h.spans && s.lo <= x < s.hi;
        assert OffTables(k.a, s.lo, s.hi);
      }
    }
  }

  lemma StackOutside(k: State, t: Word, x: int)
    requires Sound(k) && t in k.w.ring && t in k.w.stacks && k.w.stacks[t].lo <= x < k.w.stacks[t].hi
    ensures R.OutsideSpans(k.h, x)
  {
    assert K.TaskBacked(k.w, k.h, k.a.used, t);
  }

  lemma TcbLive(k: State, t: Word)
    requires Sound(k) && t in k.w.ring
    ensures var b := t - H.HEADER_SIZE;
            k.h.IsLive(b) && k.h.Has(b) && t + S.TCB_SIZE <= k.h.End(b) <= |k.h.mem| && b in Tcbs(k.w, k.stage)
  {
    assert K.TaskBacked(k.w, k.h, k.a.used, t);
    H.TiledBlock(k.h, t - H.HEADER_SIZE);
  }

  lemma HeapTcbWord(k: State, op: R.HeapOp, t: Word, x: int)
    requires Sound(k) && R.Enabled(k.h, op) && MayChange(k, op) && t in k.w.ring && t <= x < t + S.FDS && 0 <= x < |k.w.mem|
    ensures H.HeapOk(k.h, {}) && x < |R.Step(k.h, op).mem| && R.Step(k.h, op).mem[x] == k.w.mem[x]
  {
    SoundTied(k);
    TcbLive(k, t);
    hide Sound, R.Step, H.HeapOk;
    LiveWords(k.h, op, t - H.HEADER_SIZE);
  }

  lemma HeapStackWord(k: State, op: R.HeapOp, t: Word, x: int)
    requires Sound(k) && R.Enabled(k.h, op) && MayChange(k, op)
    requires t in k.w.ring && t in k.w.stacks && k.w.stacks[t].lo <= x < k.w.stacks[t].hi && 0 <= x < |k.w.mem|
    ensures H.HeapOk(k.h, {}) && x < |R.Step(k.h, op).mem| && R.Step(k.h, op).mem[x] == k.w.mem[x]
  {
    SoundTied(k);
    StackOutside(k, t, x);
    hide Sound, R.Step, H.HeapOk;
    HeapWords(k.h, op, x);
  }

  lemma HeapQuiet(k: State, op: R.HeapOp)
    requires Sound(k) && R.Enabled(k.h, op) && MayChange(k, op)
    ensures H.HeapOk(k.h, {}) && S.Quiet(k.w, R.Step(k.h, op).mem, k.w.regs)
    ensures SameBlocks(k.h, R.Step(k.h, op), Tcbs(k.w, k.stage))
  {
    hide Sound, H.HeapOk, A.Inv, S.Inv, H.Tiled, R.Step, R.Enabled, S.Placed, MayChange, A.ShapeOk;
    HeapTableWords(k, op);
    SoundParts(k);
    PlacedInv(k.w);
    SoundTied(k);
    var h' := R.Step(k.h, op);
    forall t, x | t in k.w.ring && t <= x < t + S.FDS && x < |h'.mem| ensures h'.mem[x] == k.w.mem[x] {
      HeapTcbWord(k, op, t, x);
    }
    forall t, x | t in k.w.ring && t != k.w.ring[0] && t in k.w.stacks && k.w.stacks[t].lo <= x < k.w.stacks[t].hi && 0 <= x < |h'.mem|
      ensures h'.mem[x] == k.w.mem[x]
    {
      HeapStackWord(k, op, t, x);
    }
    HeapBlocks(k, op);
  }

  lemma HeapBlocks(k: State, op: R.HeapOp)
    requires Sound(k) && R.Enabled(k.h, op) && MayChange(k, op) && H.HeapOk(k.h, {})
    ensures SameBlocks(k.h, R.Step(k.h, op), Tcbs(k.w, k.stage))
  {
    hide Sound, H.HeapOk, R.Step, R.Enabled;
    SpansStay(k.h, op);
    forall b | b in Tcbs(k.w, k.stage) && k.h.IsLive(b) ensures R.Step(k.h, op).IsLive(b) && R.Step(k.h, op).End(b) == k.h.End(b) {
      LiveWords(k.h, op, b);
    }
  }

  lemma SpansStay(h: H.Heap, op: R.HeapOp)
    requires H.HeapOk(h, {}) && R.Enabled(h, op) && (op.Malloc? || op.Free?)
    ensures R.Step(h, op).spans == h.spans
  {
    match op
    case Malloc(size) =>
      R.NeededHoldsRequest(size);
      var i := H.FirstFit(h, R.Needed(size), 0);
      if i < |h.list| { H.CarveOk(h, i, R.Needed(size)); }
    case Free(b) => R.ReleaseOk(h, b);
  }

  lemma HeapSound(k: State, op: R.HeapOp)
    requires Sound(k) && R.Enabled(k.h, op) && MayChange(k, op)
    ensures var h' := R.Step(k.h, op);
            && |h'.mem| == USER_MEM_START && Sound(WithHeap(k, h', k.a.used))
            && S.Inv(k.w) && S.Enabled(k.w, S.DoRun(h'.mem, k.w.regs)) && WithHeap(k, h', k.a.used).w == S.Step(k.w, S.DoRun(h'.mem, k.w.regs))
  {
    HeapTableWords(k, op);
    HeapQuiet(k, op);
    SoundParts(k);
    SoundTied(k);
    R.StepOk(k.h, op);
    var h' := R.Step(k.h, op);
    hide Sound, K.Coherent, H.HeapOk, S.Inv, A.Inv, Tied, A.ShapeOk, TablesKept, S.Quiet, R.Step, R.Enabled, SameBlocks;
    SyncKeepsInv(k.a, k.w.mem, h'.mem, k.a.used);
    S.QuietKeepsInv(k.w, h'.mem, k.w.regs);
    QuietFields(k.w, h'.mem, k.w.regs);
    var k' := WithHeap(k, h', k.a.used);
    CoherentKept(k.a, k.w, k'.a, k'.w);
    KeptOk(k, k');
  }

  // ----- growing the heap -----

  const EXPAND_PAGES := 4

  ghost function NewSpan(k: State): H.Span {
    var i := Answer(k.a.used, KernelRun(EXPAND_PAGES));
    H.Span(PageAddress(i), PageAddress(i + EXPAND_PAGES))
  }

  lemma NewSpanOk(k: State)
    requires Sound(k) && Answer(k.a.used, KernelRun(EXPAND_PAGES)) != -1
    ensures H.NewSpan(k.h, NewSpan(k))
    ensures OffTables(k.a, NewSpan(k).lo, NewSpan(k).hi)
    ensures forall t | t in k.w.ring && t in k.w.stacks :: k.w.stacks[t].hi <= NewSpan(k).lo || NewSpan(k).hi <= k.w.stacks[t].lo
  {
    SoundParts(k);
    var q := KernelRun(EXPAND_PAGES);
    GrantOff(k.a, q);
    hide Answer, A.Inv, S.Inv, H.HeapOk, K.Coherent, Tied, TablesApart, StageOk, K.RangeUsed;
    K.EmptyRange(k.a.used);
    K.GrantMisses(k.a.used, q, 0, 0);
    forall s | s in k.h.spans ensures NewSpan(k).hi <= s.lo || s.hi <= NewSpan(k).lo {
      K.SpanFacts(k.h, s);
      K.GrantMisses(k.a.used, q, s.lo, s.hi);
    }
    forall t | t in k.w.ring && t in k.w.stacks ensures k.w.stacks[t].hi <= NewSpan(k).lo || NewSpan(k).hi <= k.w.stacks[t].lo {
      K.OldTask(k.w, k.h, k.a.used, t);
      K.GrantMisses(k.a.used, q, k.w.stacks[t].lo, k.w.stacks[t].hi);
    }
    assert |k.h.mem| == USER_MEM_START && PageAddress(0) == MANAGED_BASE;
    PageAligned(Answer(k.a.used, q));
    PageAligned(Answer(k.a.used, q) + EXPAND_PAGES);
  }

  lemma PageAligned(i: int)
    ensures PageAddress(i) % PAGE_SIZE == 0
  {
    assert PageAddress(i) == (256 + i) * PAGE_SIZE;
  }

  /** `heap_expand`, when the page allocator answers. */
  ghost function Expanded(k: State): State
    requires Sound(k) && Answer(k.a.used, KernelRun(EXPAND_PAGES)) != -1
  {
    NewSpanOk(k);
    GrowSize(k.h, NewSpan(k));
    WithHeap(k, H.Grow(k.h, NewSpan(k)), After(k.a.used, KernelRun(EXPAND_PAGES)))
  }

  lemma GrowSize(h: H.Heap, s: H.Span)
    requires H.HeapOk(h, {}) && H.NewSpan(h, s)
    ensures (h.head == 0 || h.Has(h.head)) && |H.Grow(h, s).mem| == |h.mem| == USER_MEM_START
    ensures H.Grow(h, s).spans == h.spans + [s] && H.HeapOk(H.Grow(h, s), {})
  {
    H.GrowOk(h, s);
  }

  lemma GrowWord(h: H.Heap, s: H.Span, x: nat)
    requires H.HeapOk(h, {}) && H.NewSpan(h, s) && x < |h.mem| && R.OutsideSpans(h, x) && (x < s.lo || s.hi <= x)
    ensures (h.head == 0 || h.Has(h.head)) && |H.Grow(h, s).mem| == |h.mem| && H.Grow(h, s).mem[x] == h.mem[x]
  {
    hide H.HeapOk, H.Grow, H.NewSpan;
    GrowSize(h, s);
    R.OutsideUnused(h, x);
    R.GrowFrame(h, s, x);
  }

  lemma GrowLive(h: H.Heap, s: H.Span)
    requires H.HeapOk(h, {}) && H.NewSpan(h, s)
    ensures (h.head == 0 || h.Has(h.head)) && |H.Grow(h, s).mem| == |h.mem|
    ensures forall b | h.IsLive(b) :: H.Grow(h, s).IsLive(b) && H.Grow(h, s).End(b) == h.End(b)
    ensures forall b, x | h.IsLive(b) && b <= x < h.End(b) && x < |h.mem| :: H.Grow(h, s).mem[x] == h.mem[x]
  {
    hide H.HeapOk, H.Grow, H.NewSpan;
    GrowSize(h, s);
    forall b | h.IsLive(b)
      ensures H.Grow(h, s).IsLive(b) && H.Grow(h, s).End(b) == h.End(b)
      ensures forall x | b <= x < h.End(b) && x < |h.mem| :: H.Grow(h, s).mem[x] == h.mem[x]
    {
      R.GrowKeepsLive(h, s, b);
      LiveSize(h, b);
    }
  }

  lemma LiveSize(h: H.Heap, b: int)
    requires H.HeapOk(h, {}) && h.IsLive(b)
    ensures h.Has(b) && b < h.End(b) <= |h.mem|
  {
    H.TiledBlock(h, b);
  }

  lemma ExpandTables(k: State)
    requires Sound(k) && Answer(k.a.used, KernelRun(EXPAND_PAGES)) != -1
    ensures TablesKept(k.a, k.w.mem, Expanded(k).w.mem)
  {
    hide K.Coherent, H.HeapOk, A.Inv, S.Inv, H.Tiled, Tied, K.AllBacked, StageOk, Answer, H.Grow, H.NewSpan;
    SoundParts(k);
    NewSpanOk(k);
    var s := NewSpan(k);
    GrowSize(k.h, s);
    var m := Expanded(k).w.mem;
    forall x | 0 <= x < |m| && m[x] != k.w.mem[x] ensures x / PAGE_SIZE !in k.a.owner {
      if s.lo <= x < s.hi {
        assert OffTables(k.a, s.lo, s.hi);
      } else if R.OutsideSpans(k.h, x) {
        GrowWord(k.h, s, x);
      } else {
        var u :| u in k.h.spans && u.lo <= x < u.hi;
        assert OffTables(k.a, u.lo, u.hi);
      }
    }
  }

  lemma ExpandQuiet(k: State)
    requires Sound(k) && Answer(k.a.used, KernelRun(EXPAND_PAGES)) != -1
    ensures S.Quiet(k.w, Expanded(k).w.mem, k.w.regs)
  {
    hide Sound, H.HeapOk, A.Inv, S.Inv, H.Tiled, Answer, H.Grow, S.Placed, A.ShapeOk;
    SoundParts(k);
    SoundTied(k);
    PlacedInv(k.w);
    NewSpanOk(k);
    var s := NewSpan(k);
    GrowSize(k.h, s);
    GrowLive(k.h, s);
    var m := Expanded(k).w.mem;
    forall t, x | t in k.w.ring && t <= x < t + S.FDS && x < |m| ensures m[x] == k.w.mem[x] {
      TcbLive(k, t);
    }
    forall t, x | t in k.w.ring && t != k.w.ring[0] && t in k.w.stacks && k.w.stacks[t].lo <= x < k.w.stacks[t].hi && 0 <= x < |m|
      ensures m[x] == k.w.mem[x]
    {
      StackOutside(k, t, x);
      GrowWord(k.h, s, x);
    }
  }

  lemma ExpandBacked(k: State)
    requires Sound(k) && Answer(k.a.used, KernelRun(EXPAND_PAGES)) != -1
    ensures var k' := Expanded(k);
            K.AllBacked(k'.w, k'.h, k'.a.used) && TablesApart(k'.a, k'.w, k'.h) && StageOk(k')
  {
    hide H.HeapOk, A.Inv, S.Inv, H.Tiled, Answer, H.Grow, A.ShapeOk, K.AllBacked, K.StackReady, K.Coherent, Tied, After, H.NewSpan;
    SoundParts(k);
    NewSpanOk(k);
    var s := NewSpan(k);
    var q := KernelRun(EXPAND_PAGES);
    GrowSize(k.h, s);
    GrowLive(k.h, s);
    var k' := Expanded(k);
    assert H.Tiled(k'.h) by { H.Parts(k'.h, {}); }
    K.AllocationsKeep(k.w, k.h, k'.h, k.a.used, q);
    BackedKept(k.w, k'.w, k'.h, k'.h, k'.a.used, k'.a.used);
    StacksKnown(k.w);
    if k.stage.Stacked() {
      K.StackStaysReady(k.w, k.h, k'.h, k.a.used, q, k.stage.lo);
      ReadyKept(k.w, k'.w, k'.h, k'.h, k'.a.used, k'.a.used, k.stage.lo);
    }
  }

  lemma ExpandedSound(k: State)
    requires Sound(k) && Answer(k.a.used, KernelRun(EXPAND_PAGES)) != -1
    ensures Sound(Expanded(k))
    ensures S.Inv(k.w) && S.Enabled(k.w, S.DoRun(Expanded(k).w.mem, k.w.regs)) && Expanded(k).w == S.Step(k.w, S.DoRun(Expanded(k).w.mem, k.w.regs))
  {
    hide K.Coherent, H.HeapOk, S.Inv, A.Inv, Tied, A.ShapeOk, TablesKept, S.Quiet, K.AllBacked, TablesApart, StageOk, After, Answer, H.Grow, H.NewSpan;
    ExpandTables(k);
    ExpandQuiet(k);
    ExpandBacked(k);
    SoundParts(k);
    NewSpanOk(k);
    GrowSize(k.h, NewSpan(k));
    var k' := Expanded(k);
    TakeGrows(k.a.used, KernelRun(EXPAND_PAGES));
    SyncKeepsInv(k.a, k.w.mem, k'.w.mem, k'.a.used);
    S.QuietKeepsInv(k.w, k'.w.mem, k.w.regs);
    QuietFields(k.w, k'.w.mem, k.w.regs);
    CoherentKept(k.a, k.w, k'.a, k'.w);
  }

  // ----- yields and creations -----

  ghost function WithTasks(k: State, w: S.World, stage: Stage): State
    requires |w.mem| == USER_MEM_START
  {
    State(k.a.(m := Sync(k.a.m, w.mem)), w, k.h.(mem := w.mem), stage)
  }

  /** Neither the heap's structure nor a page table is at x. */
  ghost predicate Plain(k: State, x: int) {
    R.Unused(k.h, x) && x / PAGE_SIZE !in k.a.owner
  }

  lemma OffPlain(k: State, lo: int, hi: int, x: int)
    requires H.HeapOk(k.h, {}) && OffTables(k.a, lo, hi) && K.OutsideHeap(k.h, lo, hi) && lo <= x < hi && 0 <= x
    ensures Plain(k, x)
  {
    assert R.OutsideSpans(k.h, x);
    R.OutsideUnused(k.h, x);
    hide H.HeapOk, R.Unused;
  }

  lemma PayloadPlain(k: State, b: int, x: int)
    requires H.HeapOk(k.h, {}) && TablesApart(k.a, k.w, k.h) && R.InPayload(k.h, b, x) && 0 <= x
    ensures Plain(k, x)
  {
    R.PayloadUnused(k.h, b, x);
    H.TiledBlock(k.h, b);
    var s :| s in k.h.spans && s.lo <= b && k.h.End(b) <= s.hi;
    assert OffTables(k.a, s.lo, s.hi);
    hide H.HeapOk, R.Unused;
  }

  lemma TaskPlain(k: State, t: Word, x: nat)
    requires Sound(k) && t in k.w.ring && t in k.w.stacks
    requires t <= x < t + S.TCB_SIZE || k.w.stacks[t].lo <= x < k.w.stacks[t].hi
    ensures Plain(k, x)
  {
    assert K.TaskBacked(k.w, k.h, k.a.used, t);
    if t <= x < t + S.TCB_SIZE {
      TcbInSpan(k, t);
      hide Plain, H.HeapOk, K.Coherent, Tied;
      PayloadPlain(k, t - H.HEADER_SIZE, x);
    } else {
      hide Plain, H.HeapOk, K.Coherent, Tied;
      OffPlain(k, k.w.stacks[t].lo, k.w.stacks[t].hi, x);
    }
  }

  /** Plain stores keep the heap and the page tables. */
  lemma PlainStores(k: State, m: seq<Word>)
    requires Sound(k) && |m| == |k.w.mem| && forall x: nat | x < |m| && m[x] != k.w.mem[x] :: Plain(k, x)
    ensures H.HeapOk(k.h.(mem := m), {}) && (forall blocks :: SameBlocks(k.h, k.h.(mem := m), blocks))
    ensures A.Inv(k.a.(m := Sync(k.a.m, m))) && Tied(Sync(k.a.m, m), m) && |m| == USER_MEM_START
  {
    SoundParts(k);
    SoundTied(k);
    hide Sound, H.HeapOk, A.Inv, Tied, K.Coherent, A.ShapeOk, S.Inv, R.Unused;
    R.UnusedChanges(k.h, m);
    SyncKeepsInv(k.a, k.w.mem, m, k.a.used);
    assert k.a.(m := Sync(k.a.m, m)) == k.a.(m := Sync(k.a.m, m), used := k.a.used);
  }

  lemma YieldPlain(k: State, ret: Word, x: nat)
    requires Sound(k) && S.HasRoom(k.w) && S.Inv(k.w) && |k.w.ring| > 1 && x < |k.w.mem| && |S.Yield(k.w, ret).mem| == |k.w.mem| && S.Yield(k.w, ret).mem[x] != k.w.mem[x]
    ensures Plain(k, x)
  {
    PlacedInv(k.w);
    StacksKnown(k.w);
    var w := k.w;
    hide Sound, Plain, S.Inv, S.Placed, S.YieldMem;
    var c, n := w.ring[0], w.ring[1];
    assert c in w.ring && n in w.ring;
    if w.stacks[c].lo <= x < w.stacks[c].hi || c <= x < c + S.TCB_SIZE {
      TaskPlain(k, c, x);
    } else if n <= x < n + S.TCB_SIZE {
      TaskPlain(k, n, x);
    } else {
      S.YieldFrame(w, ret, x);
    }
  }

  lemma YieldSize(w: S.World, ret: Word)
    requires S.Inv(w) && S.HasRoom(w)
    ensures |S.Yield(w, ret).mem| == |w.mem| && S.Yield(w, ret).stacks == w.stacks
    ensures forall t | t in S.Yield(w, ret).ring :: t in w.ring
  {
    hide S.YieldMem;
  }

  lemma YieldSound(k: State, ret: Word)
    requires Sound(k) && S.Inv(k.w) && S.HasRoom(k.w)
    ensures var w' := S.Yield(k.w, ret); |w'.mem| == USER_MEM_START && Sound(WithTasks(k, w', k.stage))
  {
    SoundParts(k);
    SoundTied(k);
    var w' := S.Yield(k.w, ret);
    assert |k.w.ring| == 1 ==> w' == k.w;
    hide Sound, Plain, S.Inv, A.Inv, H.HeapOk, K.Coherent, Tied, A.ShapeOk, S.Yield, S.HasRoom;
    YieldSize(k.w, ret);
    forall x: nat | x < |w'.mem| && w'.mem[x] != k.w.mem[x] ensures Plain(k, x) { YieldPlain(k, ret, x); }
    PlainStores(k, w'.mem);
    K.ScheduleOk(K.Machine(k.a, k.w), S.DoYield(ret));
    var k' := WithTasks(k, w', k.stage);
    S.YieldKeepsInv(k.w, ret);
    CoherentKept(k.a, w', k'.a, w');
    KeptOk(k, k');
  }

  // ----- finishing a creation -----

  /** The new task gets the memory that was allocated for it, and a page directory that exists, or none. */
  ghost predicate Finishes(k: State, n: S.NewTask) {
    && k.stage.HasTcb? && n.t == k.stage.b + H.HEADER_SIZE && n.stack == S.Stack(k.stage.lo, k.stage.lo + K.KSTACK_SIZE)
    && (n.cr3 == 0 || K.SomeSpace(k.a, n.cr3))
  }

  /** The premise of the creation step is what the allocators have delivered. */
  lemma CreationSafe(k: State, n: S.NewTask)
    requires Sound(k) && Finishes(k, n)
    ensures S.CanCreate(k.w, n) && K.AllBacked(S.Create(k.w, n), k.h, k.a.used)
  {
    SoundParts(k);
    hide K.Coherent, S.Inv, A.Inv, H.HeapOk, Tied, K.AllBacked, K.StackReady, TablesApart;
    K.AllocationsSuffice(k.w, k.h, k.a.used, k.stage.lo, k.stage.b, n);
  }

  lemma CreatePlain(k: State, n: S.NewTask, x: nat)
    requires Sound(k) && Finishes(k, n) && S.CanCreate(k.w, n) && x < |k.w.mem| && S.CreateMem(k.w, n)[x] != k.w.mem[x]
    ensures Plain(k, x)
  {
    SoundParts(k);
    SoundTied(k);
    StacksKnown(k.w);
    assert k.w.ring[0] in k.w.ring;
    hide K.Coherent, S.Inv, A.Inv, H.HeapOk, Tied, K.AllBacked, Plain, S.CanCreate, S.CreateMem, A.ShapeOk;
    if n.stack.lo <= x < n.stack.hi {
      OffPlain(k, n.stack.lo, n.stack.hi, x);
    } else if n.t <= x < n.t + S.TCB_SIZE {
      LiveSize(k.h, k.stage.b);
      PayloadPlain(k, k.stage.b, x);
    } else if k.w.ring[0] <= x < k.w.ring[0] + S.TCB_SIZE {
      TaskPlain(k, k.w.ring[0], x);
    } else {
      S.CreateFrame(k.w, n, x);
    }
  }

  lemma FinishSound(k: State, n: S.NewTask)
    requires Sound(k) && Finishes(k, n) && S.CanCreate(k.w, n)
    ensures var w' := S.Create(k.w, n); |w'.mem| == USER_MEM_START && Sound(WithTasks(k, w', NoTask))
  {
    SoundParts(k);
    SoundTied(k);
    CreationSafe(k, n);
    var w' := S.Create(k.w, n);
    assert TablesApart(k.a, w', k.h) by { NewStackApart(k, n); }
    hide Sound, Plain, S.Inv, A.Inv, H.HeapOk, K.Coherent, Tied, A.ShapeOk, S.CanCreate, S.CreateMem, K.AllBacked, TablesApart;
    forall x: nat | x < |w'.mem| && w'.mem[x] != k.w.mem[x] ensures Plain(k, x) { CreatePlain(k, n, x); }
    PlainStores(k, w'.mem);
    K.ScheduleOk(K.Machine(k.a, k.w), S.DoCreate(n));
    var k' := WithTasks(k, w', NoTask);
    S.CreateKeepsInv(k.w, n);
    CoherentKept(k.a, w', k'.a, w');
    assert H.Tiled(k'.h) by { H.Parts(k'.h, {}); }
    BackedKept(w', w', k.h, k'.h, k.a.used, k.a.used);
    SameTables(k.a, w', w', k.h, k'.h);
    SameOwner(k.a, k'.a, w', k'.h);
    SoundIs(k');
  }

  lemma NewStackApart(k: State, n: S.NewTask)
    requires Sound(k) && Finishes(k, n) && S.CanCreate(k.w, n)
    ensures TablesApart(k.a, S.Create(k.w, n), k.h)
  {
    SoundParts(k);
    StacksKnown(k.w);
    hide K.Coherent, S.Inv, A.Inv, H.HeapOk, Tied, K.AllBacked, S.CanCreate, S.CreateMem, A.ShapeOk, OffTables;
  }

  lemma SameOwner(a: A.World, a': A.World, w: S.World, h: H.Heap)
    requires TablesApart(a, w, h) && a'.owner == a.owner
    ensures TablesApart(a', w, h)
  {
  }

  lemma SoundIs(k: State)
    requires K.Coherent(K.Machine(k.a, k.w)) && H.HeapOk(k.h, {}) && k.h.mem == k.w.mem && Tied(k.a.m, k.w.mem)
    requires K.AllBacked(k.w, k.h, k.a.used) && TablesApart(k.a, k.w, k.h) && k.stage == NoTask
    ensures Sound(k)
  {
  }

  // ----- stores above the kernel region -----

  /** A store of user-mode code, or of the kernel into a user page. */
  ghost predicate StoresHigh(a: A.World, op: A.Op) {
    A.Enabled(a, op) && (op.UserStore? || (op.KernelStore? && USER_FRAME <= op.f))
  }

  lemma HighTied(a: A.World, op: A.Op, mem: seq<Word>)
    requires A.Inv(a) && StoresHigh(a, op) && A.Step(a, op).Some? && Tied(a.m, mem)
    ensures var a' := A.Step(a, op).value;
            && Tied(a'.m, mem) && A.Inv(a') && a'.owner == a.owner && a'.used == a.used && a'.kpd == a.kpd && a'.spaces == a.spaces
  {
    A.StepKeepsInv(a, op);
    if op.UserStore? { A.UserStoreConfined(a, op.t, op.p, op.j, op.e); }
    hide A.Inv, Walk;
    PutHigh(a.m, if op.UserStore? then op.p.Number() else op.f, op.j, op.e, mem);
  }

  lemma PutHigh(m: Phys, f: nat, j: nat, e: Word, mem: seq<Word>)
    requires Tied(m, mem) && USER_FRAME <= f < |m| && j < ENTRIES
    ensures Tied(Put(m, f, j, e), mem)
  {
    forall g: nat, i: nat | g < |m| && g < USER_FRAME && i < ENTRIES
      ensures InKernel(g, i) && mem[Address(g, i)] == Put(m, f, j, e)[g][i]
    {
      assert mem[Address(g, i)] == m[g][i];
    }
  }

  lemma HighSound(k: State, op: A.Op)
    requires Sound(k) && StoresHigh(k.a, op) && A.Inv(k.a) && A.Step(k.a, op).Some?
    ensures Sound(k.(a := A.Step(k.a, op).value))
  {
    SoundParts(k);
    SoundTied(k);
    hide Sound, S.Inv, A.Inv, H.HeapOk, K.Coherent, Tied, A.ShapeOk, A.Step, StoresHigh;
    HighTied(k.a, op, k.w.mem);
    var k' := k.(a := A.Step(k.a, op).value);
    CoherentKept(k.a, k.w, k'.a, k'.w);
    KeptOk(k, k');
  }
}
