/** Every run of the whole kernel: what the scheduler, the address spaces and the software check promise
    holds with all components at work, and where the check and the hardware part. */
module MachineRuns {
  import opened Words
  import opened Options
  import opened PageRuns
  import opened PageTables
  import opened OneMemory
  import opened Machines
  import A = AddressSpaces
  import S = Switching
  import H = HeapState
  import R = HeapRuns
  import K = Kernel

  // ----- the steps -----

  datatype Op =
    | GetStack                                 // pmm_alloc_contiguous_pages(2), a new kernel stack
    | GetPages(q: Request)                     // any other pages
    | MakeDirectory                            // paging_clone_kernel_pd
    | MarkPage(i: nat, p: Page)                // paging_set_user_accessible_for_task
    | GetTcb                                   // kmalloc(sizeof(task_t))
    | Heap(h: R.HeapOp)                        // any other kmalloc, and kfree
    | Expand                                   // heap_expand
    | Store(m: seq<Word>, r: S.Regs)           // the running task computes and stores in the kernel region
    | StoreHigh(s: A.Op)                       // a store to user pages
    | Yield(ret: Word)                         // task_yield
    | Finish(n: S.NewTask)                     // the stores at the end of task_create_user_with_pages
    | GiveUp                                   // a creation that ran out of memory

  /** A block for a control block is at hand. */
  ghost predicate TcbFits(h: H.Heap) {
    H.HeapOk(h, {}) && H.FirstFit(h, R.Needed(S.TCB_SIZE), 0) < |h.list|
  }

  /** What the caller of each step owes.  No step demands anything about disjointness of what it gets. */
  ghost predicate Enabled(k: State, op: Op)
    requires Sound(k)
  {
    SoundParts(k);
    match op
    case GetStack => k.stage == NoTask
    case GetPages(q) => true
    case MakeDirectory => true
    case MarkPage(i, p) => A.Enabled(k.a, A.MarkPage(i, p)) && A.MarkStep(k.a, i, p).Some?
    case GetTcb => k.stage.HasStack? && TcbFits(k.h)
    case Heap(h) => R.Enabled(k.h, h) && MayChange(k, h)
    case Expand => Answer(k.a.used, KernelRun(EXPAND_PAGES)) != -1
    case Store(m, r) => Computes(k, m)
    case StoreHigh(s) => StoresHigh(k.a, s) && A.Step(k.a, s).Some?
    case Yield(ret) => S.HasRoom(k.w)
    case Finish(n) => Finishes(k, n)
    case GiveUp => true
  }

  /** `kmalloc(sizeof(task_t))` */
  ghost function WithTcb(k: State): State
    requires Sound(k) && k.stage.HasStack? && TcbFits(k.h)
  {
    HeapSound(k, R.Malloc(S.TCB_SIZE));
    WithHeap(k, R.Step(k.h, R.Malloc(S.TCB_SIZE)), k.a.used)
      .(stage := HasTcb(k.stage.lo, TcbBlock(k.h)))
  }

  ghost function TcbBlock(h: H.Heap): Word
    requires TcbFits(h)
  {
    LiveWord(h);
    h.list[H.FirstFit(h, R.Needed(S.TCB_SIZE), 0)]
  }

  lemma LiveWord(h: H.Heap)
    requires TcbFits(h)
    ensures 0 <= h.list[H.FirstFit(h, R.Needed(S.TCB_SIZE), 0)] < USER_MEM_START
  {
    var i := H.FirstFit(h, R.Needed(S.TCB_SIZE), 0);
    H.StartOf(h, i);
    H.TiledBlock(h, h.list[i]);
  }

  lemma WithTcbSound(k: State)
    requires Sound(k) && k.stage.HasStack? && TcbFits(k.h)
    ensures Sound(WithTcb(k))
    ensures S.Inv(k.w) && S.Enabled(k.w, S.DoRun(WithTcb(k).w.mem, k.w.regs)) && WithTcb(k).w == S.Step(k.w, S.DoRun(WithTcb(k).w.mem, k.w.regs))
  {
    SoundParts(k);
    var b := TcbBlock(k.h);
    NewTcb(k);
    HeapSound(k, R.Malloc(S.TCB_SIZE));
    hide Sound, S.Inv, A.Inv, H.HeapOk, R.Step, A.ShapeOk, H.Tiled, TcbFits, S.Step, S.Enabled;
    var k1 := WithHeap(k, R.Step(k.h, R.Malloc(S.TCB_SIZE)), k.a.used);
    StageParts(k1);
    StageSet(k1, HasTcb(k.stage.lo, b));
  }

  lemma StageParts(k: State)
    requires Sound(k)
    ensures StageOk(k)
  {
  }

  /** The new block is live, large enough, and no task's. */
  lemma NewTcb(k: State)
    requires Sound(k) && TcbFits(k.h)
    ensures var h', b := R.Step(k.h, R.Malloc(S.TCB_SIZE)), TcbBlock(k.h);
            && h'.IsLive(b) && b + H.HEADER_SIZE + S.TCB_SIZE <= h'.End(b)
            && b + H.HEADER_SIZE !in k.w.ring
  {
    SoundTied(k);
    var i := H.FirstFit(k.h, R.Needed(S.TCB_SIZE), 0);
    R.NeededHoldsRequest(S.TCB_SIZE);
    H.CarveOk(k.h, i, R.Needed(S.TCB_SIZE));
    var b := TcbBlock(k.h);
    if b + H.HEADER_SIZE in k.w.ring {
      TcbLive(k, b + H.HEADER_SIZE);
      R.LiveUnlisted(k.h, b);
    }
    hide Sound, H.HeapOk, H.FirstFit, H.Carve;
  }

  ghost function Step(k: State, op: Op): State
    requires Sound(k) && Enabled(k, op)
  {
    SoundParts(k);
    match op
    case GetStack => TakeStack(k)
    case GetPages(q) => WithPages(k, q)
    case MakeDirectory => Remapped(k, A.CloneStep(k.a))
    case MarkPage(i, p) => Remapped(k, A.MarkStep(k.a, i, p).value)
    case GetTcb => WithTcb(k)
    case Heap(h) => HeapSound(k, h); WithHeap(k, R.Step(k.h, h), k.a.used)
    case Expand => Expanded(k)
    case Store(m, r) => Stored(k, m, r)
    case StoreHigh(s) => k.(a := A.Step(k.a, s).value)
    case Yield(ret) => YieldSound(k, ret); WithTasks(k, S.Yield(k.w, ret), k.stage)
    case Finish(n) => CreationSafe(k, n); FinishSound(k, n); WithTasks(k, S.Create(k.w, n), NoTask)
    case GiveUp => k.(stage := NoTask)
  }

  lemma GiveUpSound(k: State)
    requires Sound(k)
    ensures Sound(k.(stage := NoTask))
  {
  }

  lemma StepSound(k: State, op: Op)
    requires Sound(k) && Enabled(k, op)
    ensures Sound(Step(k, op))
  {
    SoundParts(k);
    hide Sound, S.Inv, A.Inv, H.HeapOk, A.ShapeOk, H.Tiled, R.Step, R.Enabled, A.Enabled, A.Step, Computes, Finishes, StoresHigh, TcbFits, S.HasRoom, MayChange;
    match op
    case GetStack => TakeStackSound(k);
    case GetPages(q) => WithPagesSound(k, q);
    case MakeDirectory =>
      A.CloneKeepsInv(k.a);
      CloneOnlyTables(k.a);
      RemappedSound(k, A.CloneStep(k.a));
    case MarkPage(i, p) =>
      A.MarkKeepsInv(k.a, i, p);
      MarkOnlyTables(k.a, i, p);
      RemappedSound(k, A.MarkStep(k.a, i, p).value);
    case GetTcb => WithTcbSound(k);
    case Heap(h) => HeapSound(k, h);
    case Expand => ExpandedSound(k);
    case Store(m, r) => StoredSound(k, m, r);
    case StoreHigh(s) => HighSound(k, s);
    case Yield(ret) => YieldSound(k, ret);
    case Finish(n) => CreationSafe(k, n); FinishSound(k, n);
    case GiveUp => GiveUpSound(k);
  }

  // ----- every run -----

  ghost function Run(k: State, ops: seq<Op>): (r: Option<State>)
    requires Sound(k)
    ensures r.Some? ==> Sound(r.value)
    decreases |ops|
  {
    if ops == [] then Some(k)
    else if !Enabled(k, ops[0]) then None
    else
      StepSound(k, ops[0]);
      Run(Step(k, ops[0]), ops[1..])
  }

  /** What a step is to the scheduler. */
  ghost function Schedule1(k: State, op: Op): S.Op
    requires Sound(k) && Enabled(k, op)
  {
    match op
    case Yield(ret) => S.DoYield(ret)
    case Finish(n) => S.DoCreate(n)
    case _ => S.DoRun(Step(k, op).w.mem, Step(k, op).w.regs)
  }

  lemma SameQuiet(w: S.World)
    requires S.Inv(w)
    ensures S.Quiet(w, w.mem, w.regs) && w == w.(mem := w.mem, regs := w.regs)
  {
  }

  lemma StepProjects(k: State, op: Op)
    requires Sound(k) && Enabled(k, op)
    ensures S.Inv(k.w) && S.Enabled(k.w, Schedule1(k, op)) && Step(k, op).w == S.Step(k.w, Schedule1(k, op))
  {
    SoundParts(k);
    SameQuiet(k.w);
    hide Sound, S.Inv, A.Inv, H.HeapOk, A.ShapeOk, H.Tiled, R.Step, R.Enabled, A.Enabled, A.Step, Computes, Finishes, StoresHigh, TcbFits, S.HasRoom, MayChange, S.Quiet;
    match op
    case MakeDirectory =>
      A.CloneKeepsInv(k.a);
      CloneOnlyTables(k.a);
      RemappedSound(k, A.CloneStep(k.a));
    case MarkPage(i, p) =>
      A.MarkKeepsInv(k.a, i, p);
      MarkOnlyTables(k.a, i, p);
      RemappedSound(k, A.MarkStep(k.a, i, p).value);
    case GetTcb => WithTcbSound(k);
    case Heap(h) => HeapSound(k, h);
    case Expand => ExpandedSound(k);
    case Store(m, r) => StoredSound(k, m, r);
    case Finish(n) => CreationSafe(k, n);
    case _ =>
  }

  /** A run of the kernel as the scheduler sees it.  Its creations are enabled: that is a theorem here. */
  ghost function Schedule(k: State, ops: seq<Op>): (s: seq<S.Op>)
    requires Sound(k)
    decreases |ops|
  {
    if ops == [] || !Enabled(k, ops[0]) then []
    else
      StepSound(k, ops[0]);
      [Schedule1(k, ops[0])] + Schedule(Step(k, ops[0]), ops[1..])
  }

  ghost function Yields(ops: seq<Op>): nat {
    if ops == [] then 0 else (if ops[0].Yield? then 1 else 0) + Yields(ops[1..])
  }

  ghost function Creations(ops: seq<Op>): nat {
    if ops == [] then 0 else (if ops[0].Finish? then 1 else 0) + Creations(ops[1..])
  }

  lemma ScheduleKind(k: State, op: Op)
    requires Sound(k) && Enabled(k, op)
    ensures (Schedule1(k, op).DoYield? <==> op.Yield?) && (Schedule1(k, op).DoCreate? <==> op.Finish?)
  {
    hide Sound, Step, Enabled;
  }

  /** Every run of the kernel is a run of the scheduler. */
  lemma {:induction false} RunProjects(k: State, ops: seq<Op>)
    requires Sound(k) && Run(k, ops).Some?
    ensures S.Inv(k.w) && S.Run(k.w, Schedule(k, ops)) == Some(Run(k, ops).value.w)
    ensures S.YieldCount(Schedule(k, ops)) == Yields(ops) && S.CreateCount(Schedule(k, ops)) == Creations(ops)
    decreases |ops|
  {
    hide Sound, Step, Enabled, S.Inv, S.Step, S.Enabled, A.Inv, A.ShapeOk, H.Tiled, Schedule1;
    SoundParts(k);
    if ops != [] {
      StepSound(k, ops[0]);
      StepProjects(k, ops[0]);
      ScheduleKind(k, ops[0]);
      var k1 := Step(k, ops[0]);
      RunProjects(k1, ops[1..]);
      var s := Schedule(k, ops);
      assert s[0] == Schedule1(k, ops[0]) && s[1..] == Schedule(k1, ops[1..]);
      S.StepKeepsInv(k.w, s[0]);
    }
  }

  /** Task t waits during the whole run and is next at its end, when the running task yields. */
  ghost predicate NextAfter(k: State, ops: seq<Op>, t: Word, ret: Word)
    requires Sound(k)
  {
    && Run(k, ops).Some? && S.Inv(k.w) && S.Waits(k.w, Schedule(k, ops), t)
    && var k1 := Run(k, ops).value;
       Enabled(k1, Yield(ret)) && |k1.w.ring| > 1 && k1.w.ring[1] == t
  }

  /** The state in which t continues. */
  ghost function Resumed(k: State, ops: seq<Op>, t: Word, ret: Word): State
    requires Sound(k) && NextAfter(k, ops, t, ret)
  {
    Step(Run(k, ops).value, Yield(ret))
  }

  lemma YieldIs(k: State, ret: Word)
    requires Sound(k) && Enabled(k, Yield(ret))
    ensures S.Inv(k.w) && S.HasRoom(k.w) && Step(k, Yield(ret)).w == S.Yield(k.w, ret) && Sound(Step(k, Yield(ret)))
  {
    SoundParts(k);
    StepSound(k, Yield(ret));
    hide Sound, S.Inv;
  }

  lemma FinishIs(k: State, n: S.NewTask)
    requires Sound(k) && Enabled(k, Finish(n))
    ensures S.CanCreate(k.w, n) && Step(k, Finish(n)).w == S.Create(k.w, n) && Sound(Step(k, Finish(n)))
  {
    CreationSafe(k, n);
    StepSound(k, Finish(n));
    hide Sound, S.Inv;
  }

  /** Context preservation: a task that yields and is switched to again, after any run of allocations,
      creations, stores and yields in between, continues behind its call with its registers. */
  lemma ContextPreserved(k: State, ret: Word, ops: seq<Op>, ret2: Word)
    requires Sound(k) && Enabled(k, Yield(ret)) && |k.w.ring| > 1
    requires Sound(Step(k, Yield(ret))) && NextAfter(Step(k, Yield(ret)), ops, k.w.ring[0], ret2)
    ensures var r := Resumed(Step(k, Yield(ret)), ops, k.w.ring[0], ret2).w.regs;
            && r.ebx == k.w.regs.ebx && r.esi == k.w.regs.esi && r.edi == k.w.regs.edi && r.ebp == k.w.regs.ebp
            && r.esp == k.w.regs.esp - 8 && r.eip == ret
  {
    hide Sound, S.Inv, Step, Enabled, S.Waits, S.HasRoom, S.Yield;
    YieldIs(k, ret);
    var k1 := Step(k, Yield(ret));
    RunProjects(k1, ops);
    YieldIs(Run(k1, ops).value, ret2);
    S.ContextPreserved(k.w, ret, Schedule(k1, ops), ret2);
  }

  /** A task at its very beginning: cleared registers, at the address it was created with, and the words
      that `iret` pops on its stack. */
  ghost predicate AtEntry(w: S.World, n: S.NewTask) {
    && 20 <= n.stack.hi <= |w.mem| == USER_MEM_START
    && w.regs == S.Regs(0, 0, 0, 0, n.stack.hi - 20, n.returnToRing3)
    && forall j | 0 <= j < 5 :: w.mem[n.stack.hi - 20 + 4 * j] == S.IretFrame(n)[j]
  }

  /** The first switch to a task whose creation has been completed leads to its beginning. */
  lemma FirstRun(k: State, n: S.NewTask, ops: seq<Op>, ret2: Word)
    requires Sound(k) && Enabled(k, Finish(n))
    requires Sound(Step(k, Finish(n))) && NextAfter(Step(k, Finish(n)), ops, n.t, ret2)
    ensures var k3 := Resumed(Step(k, Finish(n)), ops, n.t, ret2);
            AtEntry(k3.w, n)
  {
    hide Sound, S.Inv, Step, Enabled, S.Waits, S.HasRoom, S.Yield, S.CanCreate, S.Create;
    FinishIs(k, n);
    var k1 := Step(k, Finish(n));
    RunProjects(k1, ops);
    YieldIs(Run(k1, ops).value, ret2);
    SoundParts(Resumed(k1, ops, n.t, ret2));
    S.FirstRun(k.w, n, Schedule(k1, ops), ret2);
  }

  /** Round robin: a task at distance d from the running one runs after exactly d plus the creations in
      between yields, and not before. */
  lemma WaitingTime(k: State, ops: seq<Op>, t: Word)
    requires Sound(k) && Run(k, ops).Some? && t in k.w.ring
    requires S.Inv(k.w) && S.WaitsUntilEnd(k.w, Schedule(k, ops), t)
    ensures var k' := Run(k, ops).value;
            && t in k'.w.ring && S.Distance(k'.w.ring, t) == S.Distance(k.w.ring, t) + Creations(ops) - Yields(ops)
            && |k'.w.ring| > 0 && (k'.w.ring[0] == t <==> Yields(ops) == S.Distance(k.w.ring, t) + Creations(ops))
  {
    RunProjects(k, ops);
    hide Sound, S.Inv, S.WaitsUntilEnd;
    S.WaitingTime(k.w, Schedule(k, ops), t);
  }

  /** After every run: a current task with a directory has it loaded and its ring-0 stack in the TSS, and
      then the software check decides for every page what the hardware would decide. */
  lemma AgreementOverRuns(k: State, ops: seq<Op>, p: Page)
    requires Sound(k) && Run(k, ops).Some? && p.Ok()
    ensures var k1 := Run(k, ops).value;
            var v := K.Machine(k1.a, k1.w);
            && K.Coherent(v)
            && (K.CurrentCr3(v) != 0 ==> k1.w.cr3 == K.CurrentCr3(v) && K.Checker(v, p) == K.Hardware(v, p))
            && var t := k1.w.ring[0];
               t + S.TCB_SIZE <= |k1.w.mem| && (k1.w.mem[t + S.KSTACK] != 0 ==> k1.w.esp0 == k1.w.mem[t + S.KSTACK])
  {
    var k1 := Run(k, ops).value;
    SoundTied(k1);
    hide Sound, Run, K.LoadedPage;
    K.CheckerAgrees(K.Machine(k1.a, k1.w));
    K.CurrentLoaded(K.Machine(k1.a, k1.w));
  }

  /** One step gives a page to a space only by marking it. */
  lemma StepGives(k: State, op: Op, i: nat, p: Page)
    requires Sound(k) && Enabled(k, op)
    ensures p in A.PagesOf(Step(k, op).a, i) <==> p in A.PagesOf(k.a, i) || op == MarkPage(i, p)
  {
    SoundParts(k);
    hide Sound, S.Inv, A.Inv, H.HeapOk, A.ShapeOk, H.Tiled, R.Step, R.Enabled, Computes, Finishes, TcbFits, S.HasRoom, MayChange;
    match op
    case MakeDirectory => A.StepGives(k.a, A.Clone, i, p);
    case MarkPage(j, q) => A.StepGives(k.a, A.MarkPage(j, q), i, p);
    case StoreHigh(s) => A.StepGives(k.a, s, i, p);
    case _ =>
  }

  lemma {:induction false} RunGives(k: State, ops: seq<Op>, i: nat, p: Page)
    requires Sound(k) && Run(k, ops).Some?
    ensures p in A.PagesOf(Run(k, ops).value.a, i) <==> p in A.PagesOf(k.a, i) || MarkPage(i, p) in ops
    decreases |ops|
  {
    hide Sound, Step, Enabled, A.PagesOf;
    if ops != [] {
      StepSound(k, ops[0]);
      StepGives(k, ops[0], i, p);
      RunGives(Step(k, ops[0]), ops[1..], i, p);
      assert ops == [ops[0]] + ops[1..];
    }
  }

  /** Isolation with everything running: a page is open to a task exactly if it has been marked for it. */
  lemma IsolationOverRuns(k: State, ops: seq<Op>, i: nat, p: Page)
    requires Sound(k) && k.a.spaces == [] && Run(k, ops).Some? && i < |Run(k, ops).value.a.spaces| && p.Ok()
    ensures var a := Run(k, ops).value.a;
            var r := Walk(a.m, a.spaces[i].pd, p);
            if MarkPage(i, p) in ops then r == Some(Mapping(p.Number(), true, true)) && USER_MEM_START <= p.Number() * PAGE_SIZE
            else r == Walk(a.m, a.kpd, p) && (r == None || r == Some(Mapping(p.Number(), false, true)))
  {
    hide Sound, A.Inv, Walk, Run, A.ShapeOk, S.Inv, H.Tiled, Step, Enabled;
    var k' := Run(k, ops).value;
    RunGives(k, ops, i, p);
    SoundParts(k');
    A.Isolation(k'.a, i, p);
    A.InvKernel(k'.a);
    A.KernelWalk(k'.a, p);
    if p in k'.a.spaces[i].pages { A.PageInRegion(k'.a, i, p); }
  }

  lemma {:induction false} SameFit(h: H.Heap, h': H.Heap, needed: Word, i: nat)
    requires H.Linked(h) && H.Linked(h') && h'.list == h.list && i <= |h.list|
    requires forall x | x in h.list :: h.Has(x) && h'.Has(x) && h'.mem[x] == h.mem[x]
    ensures H.FirstFit(h', needed, i) == H.FirstFit(h, needed, i)
    decreases |h.list| - i
  {
    if i < |h.list| {
      assert H.LinkOk(h, i) && H.LinkOk(h', i) && h.list[i] in h.list;
      SameFit(h, h', needed, i + 1);
    }
  }

  /** The first fit depends on the sizes of the free blocks only. */
  lemma FitKept(h: H.Heap, m: seq<Word>)
    requires TcbFits(h) && |m| == |h.mem| && H.HeapOk(h.(mem := m), {})
    requires forall x | x in h.starts :: h.Has(x) && m[x] == h.mem[x]
    ensures TcbFits(h.(mem := m))
  {
    hide H.HeapOk, H.FirstFit;
    H.Parts(h, {});
    H.Parts(h.(mem := m), {});
    hide H.Tiled, H.Linked, H.Flagged;
    forall x | x in h.list ensures x in h.starts { R.ListedStart(h, x); }
    SameFit(h, h.(mem := m), R.Needed(S.TCB_SIZE), 0);
  }

  // ----- the idle task in a foreign directory -----

  /** Only the idle task exists, it has no directory of its own, and there is room on its stack. */
  ghost predicate IdleAlone(k: State) {
    && Sound(k) && |k.w.ring| == 1 && k.w.ring[0] + S.TCB_SIZE <= |k.w.mem| && k.w.mem[k.w.ring[0] + S.CR3] == 0
    && S.HasRoom(k.w)
  }

  /** After a creation and two yields the idle task runs again, in the other task's directory. */
  lemma BackToIdle(w: S.World, n: S.NewTask, r1: Word, r2: Word)
    requires S.CanCreate(w, n) && |w.ring| == 1 && w.ring[0] + S.TCB_SIZE <= |w.mem| && w.mem[w.ring[0] + S.CR3] == 0 && S.HasRoom(w)
    requires n.stack.lo + 48 <= n.stack.hi && n.cr3 != 0
    ensures var w1 := S.Create(w, n);
            && S.Inv(w1) && S.HasRoom(w1)
            && var w2 := S.Yield(w1, r1);
            && S.Inv(w2) && S.HasRoom(w2)
            && var w3 := S.Yield(w2, r2);
            && S.Inv(w3) && w3.ring == [w.ring[0], n.t] && |w3.mem| == |w.mem| && w3.mem[w.ring[0] + S.CR3] == 0 && w3.cr3 == n.cr3
  {
    hide S.CreateMem, S.YieldMem, S.LinkOk, S.Apart;
    var idle := w.ring[0];
    var w1 := S.Create(w, n);
    S.CreateKeepsInv(w, n);
    S.CreateStores(w, n);
    S.CreateKeeps(w, n, idle);
    assert w1.ring == [idle, n.t] && idle != n.t;
    TwoYields(w1, idle, n, r1, r2);
  }

  lemma TwoYields(w: S.World, idle: Word, n: S.NewTask, r1: Word, r2: Word)
    requires S.Inv(w) && S.HasRoom(w) && w.ring == [idle, n.t] && idle + S.TCB_SIZE <= |w.mem| && n.t + S.TCB_SIZE <= |w.mem|
    requires w.mem[idle + S.CR3] == 0 && w.mem[n.t + S.CR3] == n.cr3 != 0
    requires n.t in w.stacks && w.stacks[n.t] == n.stack && n.t in w.saved && w.saved[n.t].esp == n.stack.hi - 20
    requires n.stack.lo + 48 <= n.stack.hi && n.stack.hi % 4 == 0
    ensures var w2 := S.Yield(w, r1);
            && S.Inv(w2) && S.HasRoom(w2)
            && var w3 := S.Yield(w2, r2);
            && S.Inv(w3) && w3.ring == [idle, n.t] && |w3.mem| == |w.mem| && w3.mem[idle + S.CR3] == 0 && w3.cr3 == n.cr3
  {
    hide S.YieldMem, S.LinkOk, S.Apart, S.Suspended, S.Inv;
    var w2 := S.Yield(w, r1);
    S.YieldKeepsInv(w, r1);
    S.YieldResumes(w, r1);
    PlacedInv(w);
    PlacedInv(w2);
    assert w2.ring == [n.t, idle];
    S.YieldKeepsTcb(w, r1, idle, S.CR3);
    assert S.HasRoom(w2);
    var w3 := S.Yield(w2, r2);
    S.YieldKeepsInv(w2, r2);
    S.YieldKeepsTcb(w2, r2, idle, S.CR3);
    assert w3.ring == [idle, n.t];
  }

  lemma RunCons(k: State, op: Op, rest: seq<Op>)
    requires Sound(k) && Enabled(k, op)
    ensures Sound(Step(k, op)) && Run(k, [op] + rest) == Run(Step(k, op), rest)
  {
    StepSound(k, op);
    assert ([op] + rest)[1..] == rest;
    hide Sound, Step, Enabled;
  }

  lemma RunNothing(k: State)
    requires Sound(k)
    ensures Run(k, []) == Some(k)
  {
  }

  ghost predicate StaleAt(k: State, p: Page) {
    && Sound(k) && K.Coherent(K.Machine(k.a, k.w)) && p.Ok()
    && K.CurrentCr3(K.Machine(k.a, k.w)) == 0 && K.LoadedPage(K.Machine(k.a, k.w), p)
    && K.Checker(K.Machine(k.a, k.w), p) != K.Hardware(K.Machine(k.a, k.w), p)
  }

  lemma SpacesSame(k: State, op: Op)
    requires Sound(k) && Enabled(k, op) && (op.Yield? || op.Finish?)
    ensures Step(k, op).a.spaces == k.a.spaces
  {
    hide Sound, S.Inv;
  }

  /** The input that `Kernel.CheckerAgrees` excludes: the first task is created with page p, the idle
      task yields to it, and it yields back.  The processor still lets user mode into p; the software
      check says no. */
  lemma StaleDirectory(k: State, n: S.NewTask, i: nat, p: Page, r1: Word, r2: Word)
    requires IdleAlone(k) && Finishes(k, n) && K.IsSpace(k.a, n.cr3, i) && n.cr3 != 0 && p in k.a.spaces[i].pages
    ensures Run(k, [Finish(n), Yield(r1), Yield(r2)]).Some? && StaleAt(Run(k, [Finish(n), Yield(r1), Yield(r2)]).value, p)
  {
    hide Sound, S.Inv, S.CanCreate, S.Create, S.Yield, S.HasRoom, Step, K.LoadedPage, K.Checker, K.Hardware, K.Coherent, A.Inv;
    FinishIs(k, n);
    BackToIdle(k.w, n, r1, r2);
    var k1 := Step(k, Finish(n));
    YieldIs(k1, r1);
    var k2 := Step(k1, Yield(r1));
    YieldIs(k2, r2);
    var k3 := Step(k2, Yield(r2));
    SpacesSame(k, Finish(n));
    SpacesSame(k1, Yield(r1));
    SpacesSame(k2, Yield(r2));
    RunThree(k, Finish(n), Yield(r1), Yield(r2));
    StaleIs(k3, i, p);
  }

  lemma StaleIs(k: State, i: nat, p: Page)
    requires Sound(k) && |k.w.ring| > 0 && k.w.ring[0] + S.TCB_SIZE <= |k.w.mem| && k.w.mem[k.w.ring[0] + S.CR3] == 0
    requires K.IsSpace(k.a, k.w.cr3, i) && p in k.a.spaces[i].pages
    ensures StaleAt(k, p)
  {
    var v := K.Machine(k.a, k.w);
    SoundTied(k);
    SoundParts(k);
    hide Sound, A.Inv, S.Inv, UserMayRead;
    K.PagesOk(v, i, p);
    assert K.LoadedPage(v, p);
    K.HardwareOpen(v, p);
    K.KernelClosed(v, p);
  }

  lemma RunThree(k: State, a: Op, b: Op, c: Op)
    requires Sound(k) && Enabled(k, a) && Sound(Step(k, a)) && Enabled(Step(k, a), b) && Sound(Step(Step(k, a), b)) && Enabled(Step(Step(k, a), b), c)
    ensures Run(k, [a, b, c]) == Some(Step(Step(Step(k, a), b), c))
  {
    hide Sound, Step, Enabled;
    var k1 := Step(k, a);
    var k2 := Step(k1, b);
    StepSound(k2, c);
    RunNothing(Step(k2, c));
    RunCons(k2, c, []);
    RunCons(k1, b, [c]);
    RunCons(k, a, [b, c]);
    assert [c] + [] == [c] && [b] + [c] == [b, c] && [a] + [b, c] == [a, b, c];
  }

  /** Memory enough for one creation. */
  ghost predicate MemoryForTask(used: seq<bool>) {
    && Answer(used, KernelRun(2)) != -1
    && var u1 := After(used, KernelRun(2));
       Answer(u1, KernelPage) != -1 && Answer(After(u1, KernelPage), KernelPage) != -1
  }

  lemma RemapFits(k: State, a': A.World)
    requires Sound(k) && A.Inv(a') && OnlyTables(k.a, a') && TcbFits(k.h)
    ensures TcbFits(Remapped(k, a').h)
  {
    SoundTied(k);
    RemappedSound(k, a');
    SoundTied(Remapped(k, a'));
    StillApart(k, a');
    FlatHarmless(k, a');
    var m := Flat(a'.m, k.w.mem);
    hide Sound, A.Inv, H.HeapOk, OnlyTables, Flat, Tied, K.Coherent, TablesApart, R.Unused, TcbFits;
    R.UnusedChanges(k.h, m);
    FitKept(k.h, m);
  }

  /** The allocations of a creation leave the idle task alone. */
  lemma StaysAlone(k: State, op: Op)
    requires IdleAlone(k) && Enabled(k, op) && (op.GetStack? || op.MakeDirectory? || op.MarkPage? || op.GetTcb?)
    ensures IdleAlone(Step(k, op)) && Step(k, op).w.ring == k.w.ring && Sound(k)
  {
    hide Sound, S.Inv, A.Inv, A.ShapeOk, H.Tiled, Enabled, S.Enabled, Step;
    SoundParts(k);
    StepSound(k, op);
    StepProjects(k, op);
    SameRegisters(k, op);
    SoundParts(Step(k, op));
    K.FieldStays(k.w, Schedule1(k, op), k.w.ring[0]);
  }

  lemma SameRegisters(k: State, op: Op)
    requires Sound(k) && Enabled(k, op) && (op.GetStack? || op.MakeDirectory? || op.MarkPage? || op.GetTcb?)
    ensures var w' := Step(k, op).w; w'.regs == k.w.regs && w'.ring == k.w.ring && w'.stacks == k.w.stacks
  {
    hide Sound;
  }

  /** Directory, stack and page of a first task. */
  ghost predicate Prepared(k: State, p: Page) {
    && IdleAlone(k) && k.stage.HasStack? && TcbFits(k.h) && |k.a.spaces| == 1 && p in k.a.spaces[0].pages
  }

  lemma StackThenDirectory(k: State, p: Page)
    requires IdleAlone(k) && k.stage == NoTask && k.a.spaces == [] && MemoryForTask(k.a.used) && TcbFits(k.h)
    requires p.Ok() && A.TakenUserFrame(k.a.used, p.Number())
    ensures Enabled(k, GetStack) && IdleAlone(Step(k, GetStack))
    ensures var k1 := Step(k, GetStack);
            && Enabled(k1, MakeDirectory) && IdleAlone(Step(k1, MakeDirectory))
            && var k2 := Step(k1, MakeDirectory);
            && k2.stage.HasStack? && TcbFits(k2.h) && |k2.a.spaces| == 1 && A.TakenUserFrame(k2.a.used, p.Number())
            && Answer(k2.a.used, KernelPage) != -1
  {
    hide Sound, S.Inv, A.Inv, A.ShapeOk, H.Tiled, TcbFits, Answer, After, S.HasRoom, H.HeapOk;
    StaysAlone(k, GetStack);
    var k1 := Step(k, GetStack);
    TakeGrows(k.a.used, KernelRun(2));
    StaysAlone(k1, MakeDirectory);
    TakeGrows(k1.a.used, KernelPage);
    FreshAnswer(k1.a.used);
    SoundParts(k1);
    A.CloneKeepsInv(k1.a);
    CloneOnlyTables(k1.a);
    RemapFits(k1, A.CloneStep(k1.a));
  }

  lemma DirectoryThenMark(k: State, p: Page)
    requires IdleAlone(k) && k.stage.HasStack? && TcbFits(k.h) && |k.a.spaces| == 1
    requires p.Ok() && A.TakenUserFrame(k.a.used, p.Number()) && Answer(k.a.used, KernelPage) != -1
    ensures Enabled(k, MarkPage(0, p)) && Prepared(Step(k, MarkPage(0, p)), p)
  {
    hide Sound, S.Inv, A.Inv, A.ShapeOk, H.Tiled, TcbFits, Answer, After, S.HasRoom, A.MarkStep;
    SoundParts(k);
    A.MarkGives(k.a, 0, p);
    FreshAnswer(k.a.used);
    StaysAlone(k, MarkPage(0, p));
    A.MarkKeepsInv(k.a, 0, p);
    MarkOnlyTables(k.a, 0, p);
    RemapFits(k, A.MarkStep(k.a, 0, p).value);
  }

  lemma FreshAnswer(used: seq<bool>)
    requires Answer(used, KernelPage) != -1
    ensures FreshFrame(used) != -1
  {
  }

  /** Everything is there for the control block and the last stores. */
  lemma MarkThenTcb(k: State, p: Page, id: Word, entry: Word, ustackTop: Word, toRing3: Word) returns (n: S.NewTask)
    requires Prepared(k, p)
    ensures n.entry == entry && n.id == id && n.ustackTop == ustackTop && n.returnToRing3 == toRing3
    ensures Enabled(k, GetTcb) && IdleAlone(Step(k, GetTcb))
    ensures var k1 := Step(k, GetTcb);
            Finishes(k1, n) && K.IsSpace(k1.a, n.cr3, 0) && n.cr3 != 0 && 0 < |k1.a.spaces| && p in k1.a.spaces[0].pages
  {
    hide Sound, S.Inv, A.Inv, A.ShapeOk, H.Tiled, TcbFits, S.HasRoom, R.Step, H.HeapOk;
    StaysAlone(k, GetTcb);
    SoundParts(k);
    var k1 := Step(k, GetTcb);
    DirectoryWord(k.a);
    StageParts(k1);
    TcbWord(k1);
    n := S.NewTask(k1.stage.b + H.HEADER_SIZE, S.Stack(k1.stage.lo, k1.stage.lo + K.KSTACK_SIZE), id,
                   k.a.spaces[0].pd * PAGE_SIZE, entry, ustackTop, toRing3);
    assert K.IsSpace(k1.a, n.cr3, 0);
  }

  lemma DirectoryWord(a: A.World)
    requires A.Inv(a) && |a.spaces| > 0
    ensures 0 < a.spaces[0].pd * PAGE_SIZE < TWO_TO_32
  {
    assert A.TaskOk(a, 0);
    assert A.TakenKernelFrame(a.used, a.spaces[0].pd);
  }

  lemma TcbWord(k: State)
    requires Sound(k) && k.stage.HasTcb?
    ensures k.stage.b + H.HEADER_SIZE < TWO_TO_32
  {
    H.TiledBlock(k.h, k.stage.b);
  }

  /** With memory for one task: a run that ends in the disagreement. */
  lemma StaleDirectoryRun(k: State, p: Page, id: Word, entry: Word, ustackTop: Word, toRing3: Word, r1: Word, r2: Word) returns (n: S.NewTask)
    requires IdleAlone(k) && k.stage == NoTask && k.a.spaces == [] && MemoryForTask(k.a.used) && TcbFits(k.h)
    requires p.Ok() && A.TakenUserFrame(k.a.used, p.Number())
    ensures n.entry == entry && n.id == id && n.ustackTop == ustackTop && n.returnToRing3 == toRing3
    ensures Sound(k)
    ensures var r := Run(k, [GetStack, MakeDirectory, MarkPage(0, p), GetTcb] + [Finish(n), Yield(r1), Yield(r2)]);
            r.Some? && StaleAt(r.value, p)
  {
    hide Sound, S.Inv, S.HasRoom, Step, Enabled, TcbFits, MemoryForTask, StaleAt, Finishes, A.TakenUserFrame, Run;
    StackThenDirectory(k, p);
    var k1 := Step(k, GetStack);
    var k2 := Step(k1, MakeDirectory);
    DirectoryThenMark(k2, p);
    var k3 := Step(k2, MarkPage(0, p));
    n := MarkThenTcb(k3, p, id, entry, ustackTop, toRing3);
    var k4 := Step(k3, GetTcb);
    StaleDirectory(k4, n, 0, p, r1, r2);
    var rest := [Finish(n), Yield(r1), Yield(r2)];
    RunCons(k3, GetTcb, rest);
    RunCons(k2, MarkPage(0, p), [GetTcb] + rest);
    RunCons(k1, MakeDirectory, [MarkPage(0, p)] + ([GetTcb] + rest));
    RunCons(k, GetStack, [MakeDirectory] + ([MarkPage(0, p)] + ([GetTcb] + rest)));
    assert [GetStack] + ([MakeDirectory] + ([MarkPage(0, p)] + ([GetTcb] + rest))) == [GetStack, MakeDirectory, MarkPage(0, p), GetTcb] + rest;
  }
}
