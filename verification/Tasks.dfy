/** sched/task.c and sched/switch.asm: the scheduler in place, the switch instruction by
    instruction. */
module Tasks {
  import opened Words
  import opened PageRuns
  import opened Switching

  /** The processor, the TSS and the kernel's memory. */
  class Scheduler {
    const mem: array<Word>
    var eax: Word
    var ebx: Word
    var esi: Word
    var edi: Word
    var ebp: Word
    var esp: Word
    var eip: Word
    var cr3: Word
    var esp0: Word        // TSS.esp0
    var current: Word     // g_current
    var nextId: Word      // g_next_id
    ghost var m: seq<Word>
    ghost var ring: seq<Word>
    ghost var stacks: map<Word, Stack>
    ghost var saved: map<Word, Regs>
    ghost var frames: map<Word, seq<Word>>

    ghost predicate Loaded()
      reads `m, mem
    {
      mem.Length == USER_MEM_START && m == mem[..]
    }

    ghost function R(): Regs
      reads this
    {
      Regs(ebx, esi, edi, ebp, esp, eip)
    }

    ghost function W(): World
      reads this
    {
      World(m, R(), cr3, esp0, ring, stacks, saved, frames)
    }

    ghost predicate Valid()
      reads this, mem
    {
      Loaded() && Inv(W()) && current == ring[0]
    }

    constructor (memory: array<Word>)
      requires memory.Length == USER_MEM_START
      ensures Loaded() && mem == memory && m == memory[..] && nextId == 1
    {
      mem := memory;
      m := memory[..];
      nextId := 1;
      eax, ebx, esi, edi, ebp, esp, eip, cr3, esp0, current := 0, 0, 0, 0, 0, 0, 0, 0, 0, 0;
      ring, stacks, saved, frames := [], map[], map[], map[];
    }

    method Store(a: int, v: Word)
      requires Loaded() && 0 <= a < |m|
      modifies mem, this`m
      ensures Loaded() && m == old(m)[a := v]
    {
      mem[a] := v;
      m := m[a := v];
    }

    // ----- instructions -----

    method Push(v: Word)
      requires Loaded() && 4 <= esp <= |m|
      modifies mem, this`m, this`esp
      ensures Loaded() && esp == old(esp) - 4 && m == old(m)[esp := v]
    {
      esp := esp - 4;
      Store(esp, v);
    }

    method Pop() returns (v: Word)
      requires Loaded() && esp + 4 <= |m|
      modifies this`esp
      ensures Loaded() && esp == old(esp) + 4 && v == m[old(esp)]
    {
      v := mem[esp];
      esp := esp + 4;
    }

    /** `switch_to`, lines 23-30: the callee-saved registers go on the stack, the stack pointer
        into the control block that is the first argument. */
    method SaveContext(ghost cur: Word)
      requires Loaded() && 16 <= esp && esp + 12 <= |m| && m[esp + 4] == cur && cur < |m|
      modifies mem, this`m, this`eax, this`esp
      ensures Loaded() && esp == old(esp) - 16 && m == SavedMem(old(m), old(R()), cur)
    {
      Push(ebp);
      Push(edi);
      Push(esi);
      Push(ebx);
      eax := mem[esp + 0x14];
      Store(eax, esp);
    }

    /** `switch_to`, lines 33-45: the stack and the page directory of the second argument. */
    method LoadContext(ghost next: Word)
      requires Loaded() && esp + 0x18 < |m| && m[esp + 0x18] == next && next + TCB_SIZE <= |m|
      modifies this`eax, this`esp, this`cr3
      ensures esp == m[next + ESP]
      ensures cr3 == if m[next + CR3] != 0 then m[next + CR3] else old(cr3)
    {
      eax := mem[esp + 0x18];
      esp := mem[eax];
      eax := mem[eax + 0x14];
      if eax != 0 {
        cr3 := eax;
      }
    }

    /** `switch_to`, lines 48-53: the callee-saved registers and the return. */
    method RestoreContext()
      requires Loaded() && esp + 20 <= |m|
      modifies this`ebx, this`esi, this`edi, this`ebp, this`esp, this`eip
      ensures Loaded()
      ensures var e := old(esp); R() == Regs(m[e], m[e + 4], m[e + 8], m[e + 12], e + 20, m[e + 16])
    {
      ebx := Pop();
      esi := Pop();
      edi := Pop();
      ebp := Pop();
      eip := Pop();
    }

    /** `switch_to(current, next)`, entered by a call: the return address and the two arguments
        are on the stack. */
    method SwitchTo(ghost cur: Word, ghost next: Word)
      requires Loaded() && 16 <= esp && esp + 12 <= |m| && m[esp + 4] == cur && m[esp + 8] == next
      requires cur + TCB_SIZE <= |m| && next + TCB_SIZE <= |m|
      requires esp + 12 <= cur || cur + TCB_SIZE <= esp - 16
      requires esp + 12 <= next || next + TCB_SIZE <= esp - 16
      requires cur + TCB_SIZE <= next || next + TCB_SIZE <= cur
      requires m[next + ESP] + 20 <= |m|
      modifies mem, this`m, this`eax, this`ebx, this`esi, this`edi, this`ebp, this`esp, this`eip, this`cr3
      ensures Loaded() && m == SavedMem(old(m), old(R()), cur)
      ensures var e := old(m)[next + ESP]; R() == Regs(m[e], m[e + 4], m[e + 8], m[e + 12], e + 20, m[e + 16])
      ensures cr3 == if old(m)[next + CR3] != 0 then old(m)[next + CR3] else old(cr3)
    {
      SaveContext(cur);
      LoadContext(next);
      RestoreContext();
    }

    /** `task_yield` up to the call: states, current task, TSS, arguments and return address. */
    method CallSwitch(cur: Word, next: Word, ret: Word)
      requires Loaded() && 12 <= esp <= |m| && cur + TCB_SIZE <= |m| && next + TCB_SIZE <= |m|
      modifies mem, this`m, this`esp, this`esp0, this`current
      ensures Loaded() && m == CallMem(old(m), old(esp), cur, next, ret) && esp == old(esp) - 12 && current == next
      ensures esp0 == if old(m)[next + KSTACK] != 0 then old(m)[next + KSTACK] else old(esp0)
    {
      var kstack := mem[next + KSTACK];
      Store(cur + STATE, READY);
      Store(next + STATE, RUNNING);
      current := next;
      if kstack != 0 { esp0 := kstack; }
      Push(next);
      Push(cur);
      Push(ret);
    }

    /** The switching half of `task_yield`. */
    method SwitchAway(cur: Word, next: Word, ret: Word)
      requires Loaded() && 28 <= esp <= |m| && cur + TCB_SIZE <= |m| && next + TCB_SIZE <= |m|
      requires cur + TCB_SIZE <= next || next + TCB_SIZE <= cur
      requires esp <= cur || cur + TCB_SIZE <= esp - 28
      requires esp <= next || next + TCB_SIZE <= esp - 28
      requires m[next + ESP] + 20 <= |m|
      modifies mem, this`m, this`eax, this`ebx, this`esi, this`edi, this`ebp, this`esp, this`eip, this`cr3, this`esp0, this`current
      ensures Loaded() && current == next
      ensures m == SavedMem(CallMem(old(m), old(esp), cur, next, ret), old(R()).(esp := old(esp) - 12), cur)
      ensures var e := old(m)[next + ESP]; R() == Regs(m[e], m[e + 4], m[e + 8], m[e + 12], e + 20, m[e + 16])
      ensures cr3 == if old(m)[next + CR3] != 0 then old(m)[next + CR3] else old(cr3)
      ensures esp0 == if old(m)[next + KSTACK] != 0 then old(m)[next + KSTACK] else old(esp0)
    {
      hide CallMem, SavedMem;
      CallStores(m, esp, cur, next, ret);
      CallSwitch(cur, next, ret);
      SwitchTo(cur, next);
    }

    /** The same, with the ring and the saved registers brought up to date. */
    method SwitchTasks(cur: Word, next: Word, ret: Word)
      requires Loaded() && SwitchOk(W()) && cur == ring[0] && next == ring[1]
      modifies this, mem
      ensures Loaded() && W() == AfterSwitch(old(W()), ret) && current == next
    {
      hide CallMem, SavedMem, Scheduler.Loaded;
      ghost var w := W();
      SwitchAway(cur, next, ret);
      ring := ring[1..] + [ring[0]];
      saved := saved[cur := w.regs.(esp := w.regs.esp - 8, eip := ret)];
      frames := frames - {next};
    }

    /** `task_yield`, called where `ret` follows the call of `switch_to`; it returns when the next
        task continues. */
    method TaskYield(ret: Word)
      requires Valid() && HasRoom(W())
      modifies this, mem
      ensures Valid() && W() == Yield(old(W()), ret)
    {
      hide Inv, AfterSwitch, SwitchOk, Yield, HasRoom;
      ghost var w := W();
      YieldKeepsInv(w, ret);
      YieldPlaces(w);
      var cur := current;
      var next := mem[current + NEXT];
      if cur == next {
        YieldAlone(w, ret);
        return;
      }
      YieldIs(w, ret);
      SwitchTasks(cur, next, ret);
    }

    // ----- creation -----

    /** `for (i ...) t->fd_table[i] = NULL` */
    method ClearFdTable(t: Word)
      requires Loaded() && t + TCB_SIZE <= |m|
      modifies mem, this`m
      ensures Loaded() && m == ClearFds(old(m), t, MAX_FD)
    {
      var i := 0;
      while i < MAX_FD
        invariant 0 <= i <= MAX_FD && Loaded() && |m| == |old(m)| && m == ClearFds(old(m), t, i)
      {
        Store(t + FDS + 4 * i, 0);
        i := i + 1;
      }
    }

    /** `task_init`, with the control block that `kmalloc` returned. */
    method TaskInit(idle: Word, ghost stack: Stack)
      requires Loaded() && 0 < idle && idle % 4 == 0 && idle + TCB_SIZE <= |m|
      requires 0 < stack.lo < stack.hi <= |m| && stack.lo % 4 == 0 && stack.hi % 4 == 0
      requires idle + TCB_SIZE <= stack.lo || stack.hi <= idle
      modifies this, mem
      ensures Valid() && W() == Boot(old(m), idle, stack, old(R()), old(cr3), old(esp0))
    {
      hide Inv, ClearFds;
      BootOk(m, idle, stack, R(), cr3, esp0);
      InitIdle(idle);
      current := idle;
      ring, stacks, saved, frames := [idle], map[idle := stack], map[], map[];
    }

    /** The fields of the idle task's control block. */
    method InitIdle(idle: Word)
      requires Loaded() && idle + TCB_SIZE <= |m|
      modifies mem, this`m
      ensures Loaded()
      ensures m == ClearFds(old(m)[idle + ESP := 0][idle + ID := 0][idle + STATE := RUNNING][idle + KSTACK := 0][idle + CR3 := 0][idle + NEXT := idle], idle, MAX_FD)
    {
      hide ClearFds;
      Store(idle + ESP, 0);
      Store(idle + ID, 0);
      Store(idle + STATE, RUNNING);
      Store(idle + KSTACK, 0);
      Store(idle + CR3, 0);
      Store(idle + NEXT, idle);
      ClearFdTable(idle);
    }

    /** The ten words of the initial stack frame, in address order. */
    method BuildFrame(kstackTop: Word, returnToRing3: Word, entry: Word, ustackTop: Word)
      requires Loaded() && 40 <= kstackTop <= |m|
      modifies mem, this`m
      ensures Loaded() && m == FrameMem(old(m), kstackTop, returnToRing3, entry, ustackTop)
    {
      var sp := kstackTop - 40;
      Store(sp, 0);
      Store(sp + 4, 0);
      Store(sp + 8, 0);
      Store(sp + 12, 0);
      Store(sp + 16, returnToRing3);
      Store(sp + 20, entry);
      Store(sp + 24, 0x1B);
      Store(sp + 28, 0x202);
      Store(sp + 32, ustackTop);
      Store(sp + 36, 0x23);
    }

    /** The fields of the new control block and its insertion after the current one. */
    method InsertTcb(t: Word, sp: Word, id: Word, kstackTop: Word, taskPd: Word)
      requires Loaded() && current + TCB_SIZE <= |m| && t + TCB_SIZE <= |m|
      requires t + TCB_SIZE <= current || current + TCB_SIZE <= t
      modifies mem, this`m
      ensures Loaded() && m == TcbMem(old(m), current, t, sp, id, kstackTop, taskPd)
    {
      Store(t + ESP, sp);
      Store(t + ID, id);
      Store(t + STATE, READY);
      Store(t + KSTACK, kstackTop);
      Store(t + CR3, taskPd);
      ClearFdTable(t);
      var next := mem[current + NEXT];
      Store(t + NEXT, next);
      Store(current + NEXT, t);
    }

    method StoreTask(t: Word, kstackTop: Word, taskPd: Word, entry: Word, ustackTop: Word, returnToRing3: Word)
      requires Loaded() && current + TCB_SIZE <= |m| && t + TCB_SIZE <= |m| && 40 <= kstackTop <= |m|
      requires t + TCB_SIZE <= current || current + TCB_SIZE <= t
      modifies mem, this`m
      ensures Loaded()
      ensures m == TcbMem(FrameMem(old(m), kstackTop, returnToRing3, entry, ustackTop), current, t, kstackTop - 40, nextId, kstackTop, taskPd)
    {
      hide FrameMem, TcbMem;
      BuildFrame(kstackTop, returnToRing3, entry, ustackTop);
      InsertTcb(t, kstackTop - 40, nextId, kstackTop, taskPd);
    }

    /** The stores of the creation, with the ring and the saved registers brought up to date. */
    method AddTask(t: Word, kstackTop: Word, taskPd: Word, entry: Word, ustackTop: Word, returnToRing3: Word, ghost n: NewTask)
      requires Loaded() && |ring| > 0 && current == ring[0] && NewTaskFits(W(), n)
      requires n == NewTask(t, n.stack, nextId, taskPd, entry, ustackTop, returnToRing3) && kstackTop == n.stack.hi
      modifies this, mem
      ensures Loaded() && W() == AfterCreate(old(W()), n)
      ensures current == old(current) && nextId == Wrap(old(nextId) + 1)
    {
      hide FrameMem, TcbMem, IretFrame, Scheduler.Loaded;
      StoreTask(t, kstackTop, taskPd, entry, ustackTop, returnToRing3);
      nextId := if nextId == 0xFFFF_FFFF then 0 else nextId + 1;
      ring := [ring[0], t] + ring[1..];
      stacks := stacks[t := n.stack];
      saved := saved[t := Regs(0, 0, 0, 0, kstackTop - 20, returnToRing3)];
      frames := frames[t := IretFrame(n)];
    }

    /** `task_create_user_with_pages` after its allocations: kernel stack, page directory and
        control block are given. */
    method CreateTask(t: Word, kstackBase: Word, taskPd: Word, entry: Word, ustackTop: Word, returnToRing3: Word)
      requires Valid() && kstackBase + 2 * PAGE_SIZE < TWO_TO_32
      requires CanCreate(W(), NewTask(t, Stack(kstackBase, kstackBase + 2 * PAGE_SIZE), nextId, taskPd, entry, ustackTop, returnToRing3))
      modifies this, mem
      ensures Valid() && nextId == Wrap(old(nextId) + 1)
      ensures W() == Create(old(W()), NewTask(t, Stack(kstackBase, kstackBase + 2 * PAGE_SIZE), old(nextId), taskPd, entry, ustackTop, returnToRing3))
    {
      hide Inv, CanCreate, NewTaskFits, AfterCreate, Create;
      ghost var n := NewTask(t, Stack(kstackBase, kstackBase + 2 * PAGE_SIZE), nextId, taskPd, entry, ustackTop, returnToRing3);
      CreateKeepsInv(W(), n);
      CreateIs(W(), n);
      AddTask(t, kstackBase + 2 * PAGE_SIZE, taskPd, entry, ustackTop, returnToRing3, n);
    }
  }

  /** The new control block and stack lie in memory, apart from the current control block. */
  ghost predicate NewTaskFits(w: World, n: NewTask) {
    && |w.mem| == USER_MEM_START && |w.ring| > 0 && w.ring[0] + TCB_SIZE <= |w.mem|
    && n.t + TCB_SIZE <= |w.mem| && 40 <= n.stack.hi <= |w.mem|
    && (n.t + TCB_SIZE <= w.ring[0] || w.ring[0] + TCB_SIZE <= n.t)
  }

  ghost function AfterCreate(w: World, n: NewTask): World
    requires NewTaskFits(w, n)
  {
    w.(mem := TcbMem(FrameMem(w.mem, n.stack.hi, n.returnToRing3, n.entry, n.ustackTop),
                     w.ring[0], n.t, n.stack.hi - 40, n.id, n.stack.hi, n.cr3),
       ring := [w.ring[0], n.t] + w.ring[1..],
       stacks := w.stacks[n.t := n.stack],
       saved := w.saved[n.t := Regs(0, 0, 0, 0, n.stack.hi - 20, n.returnToRing3)],
       frames := w.frames[n.t := IretFrame(n)])
  }

  lemma CreateIs(w: World, n: NewTask)
    requires CanCreate(w, n)
    ensures NewTaskFits(w, n) && Create(w, n) == AfterCreate(w, n)
    ensures |w.ring| > 0 && |Create(w, n).ring| > 0 && Create(w, n).ring[0] == w.ring[0]
  {
    assert |w.ring| > 0;
    CreatePlaces(w, n, w.ring[0]);
  }

  /** Room on the current stack, apart from both control blocks. */
  ghost predicate SwitchOk(w: World) {
    && |w.ring| > 1 && |w.mem| == USER_MEM_START
    && var cur, next := w.ring[0], w.ring[1];
    && cur + TCB_SIZE <= |w.mem| && next + TCB_SIZE <= |w.mem|
    && (cur + TCB_SIZE <= next || next + TCB_SIZE <= cur)
    && 28 <= w.regs.esp <= |w.mem|
    && (w.regs.esp <= cur || cur + TCB_SIZE <= w.regs.esp - 28)
    && (w.regs.esp <= next || next + TCB_SIZE <= w.regs.esp - 28)
    && w.mem[next + ESP] + 20 <= |w.mem|
  }

  /** Where the current and the next task lie. */
  lemma YieldPlaces(w: World)
    requires Inv(w) && HasRoom(w)
    ensures |w.ring| > 0 && w.ring[0] + TCB_SIZE <= |w.mem| == USER_MEM_START
    ensures |w.ring| == 1 <==> w.mem[w.ring[0] + NEXT] == w.ring[0]
    ensures |w.ring| > 1 ==> SwitchOk(w) && w.mem[w.ring[0] + NEXT] == w.ring[1]
  {
    assert TaskPlaced(w, w.ring[0]) && LinkOk(w, 0) && Apart(w, w.ring[0], w.ring[0]);
    if |w.ring| > 1 {
      assert TaskPlaced(w, w.ring[1]) && Suspended(w, w.ring[1]) && Apart(w, w.ring[0], w.ring[1]) && Apart(w, w.ring[1], w.ring[0]);
    }
  }

  /** The world after the switch, in terms of the stores. */
  ghost function AfterSwitch(w: World, ret: Word): World
    requires SwitchOk(w)
  {
    var m := SavedMem(CallMem(w.mem, w.regs.esp, w.ring[0], w.ring[1], ret), w.regs.(esp := w.regs.esp - 12), w.ring[0]);
    var e, next := w.mem[w.ring[1] + ESP], w.ring[1];
    World(m, Regs(m[e], m[e + 4], m[e + 8], m[e + 12], e + 20, m[e + 16]),
          if w.mem[next + CR3] != 0 then w.mem[next + CR3] else w.cr3,
          if w.mem[next + KSTACK] != 0 then w.mem[next + KSTACK] else w.esp0,
          w.ring[1..] + [w.ring[0]], w.stacks,
          w.saved[w.ring[0] := w.regs.(esp := w.regs.esp - 8, eip := ret)], w.frames - {next})
  }

  lemma YieldIs(w: World, ret: Word)
    requires Inv(w) && HasRoom(w) && SwitchOk(w)
    ensures Yield(w, ret) == AfterSwitch(w, ret) && Yield(w, ret).ring[0] == w.ring[1]
  {
  }

  /** What `switch_to` finds on the stack and in the control blocks. */
  lemma CallStores(m0: seq<Word>, esp: Word, cur: Word, next: Word, ret: Word)
    requires 28 <= esp <= |m0| && cur + TCB_SIZE <= |m0| && next + TCB_SIZE <= |m0|
    requires cur + TCB_SIZE <= next || next + TCB_SIZE <= cur
    requires (esp <= cur || cur + TCB_SIZE <= esp - 28) && (esp <= next || next + TCB_SIZE <= esp - 28)
    ensures var m := CallMem(m0, esp, cur, next, ret);
            && |m| == |m0| && m[esp - 8] == cur && m[esp - 4] == next
            && m[next + ESP] == m0[next + ESP] && m[next + CR3] == m0[next + CR3]
  {
  }

  lemma YieldAlone(w: World, ret: Word)
    requires Inv(w) && HasRoom(w) && |w.ring| == 1
    ensures Yield(w, ret) == w
  {
  }
}
