/** Task control blocks, kernel stacks and the context switch as values, and what every run of
    task creations, yields and task activity preserves. */
module Switching {
  import opened Words
  import opened Options
  import opened PageRuns

  // task_t, by byte offset
  const ESP := 0
  const ID := 4
  const STATE := 8
  const NEXT := 12
  const KSTACK := 16
  const CR3 := 20
  const FDS := 24
  const MAX_FD := 16
  const TCB_SIZE := FDS + 4 * MAX_FD

  const READY := 0
  const RUNNING := 1

  /** The registers that a switch preserves, and where execution continues. */
  datatype Regs = Regs(ebx: Word, esi: Word, edi: Word, ebp: Word, esp: Word, eip: Word)

  datatype Stack = Stack(lo: int, hi: int)

  /** mem[a] is the word at byte address a (a multiple of 4) of the kernel region.  ring lists the
      control blocks from the current task on; saved holds the registers that each suspended task
      must see again, frames the five words that a task before its first run must find. */
  datatype World = World(
    mem: seq<Word>, regs: Regs, cr3: Word, esp0: Word,
    ring: seq<Word>, stacks: map<Word, Stack>, saved: map<Word, Regs>, frames: map<Word, seq<Word>>)

  // ----- the invariant -----

  ghost predicate TaskPlaced(w: World, t: Word) {
    && |w.mem| == USER_MEM_START
    && t in w.stacks && 0 < t && t % 4 == 0 && t + TCB_SIZE <= |w.mem|
    && 0 < w.stacks[t].lo < w.stacks[t].hi <= |w.mem| && w.stacks[t].lo % 4 == 0 && w.stacks[t].hi % 4 == 0
  }

  /** Control blocks and stacks are disjoint from each other. */
  ghost predicate Apart(w: World, t: Word, u: Word)
    requires t in w.stacks && u in w.stacks
  {
    && (t + TCB_SIZE <= w.stacks[u].lo || w.stacks[u].hi <= t)
    && (t != u ==>
          && (t + TCB_SIZE <= u || u + TCB_SIZE <= t)
          && (w.stacks[t].hi <= w.stacks[u].lo || w.stacks[u].hi <= w.stacks[t].lo))
  }

  ghost predicate Placed(w: World) {
    && |w.mem| == USER_MEM_START && |w.ring| > 0
    && (forall t {:trigger TaskPlaced(w, t)} | t in w.ring :: TaskPlaced(w, t))
    && (forall i, j | 0 <= i < j < |w.ring| :: w.ring[i] != w.ring[j])
    && (forall t, u {:trigger Apart(w, t, u)} | t in w.ring && u in w.ring && t in w.stacks && u in w.stacks :: Apart(w, t, u))
  }

  function Next(ring: seq<Word>, i: nat): Word
    requires i < |ring|
  {
    if i + 1 == |ring| then ring[0] else ring[i + 1]
  }

  /** The i-th control block: its link closes the ring, and only the current task is RUNNING. */
  ghost predicate LinkOk(w: World, i: nat)
    requires i < |w.ring| && w.ring[i] + TCB_SIZE <= |w.mem|
  {
    && w.mem[w.ring[i] + NEXT] == Next(w.ring, i)
    && w.mem[w.ring[i] + STATE] == if i == 0 then RUNNING else READY
  }

  /** The stack of a suspended task holds what a switch to it must pop. */
  ghost predicate Suspended(w: World, t: Word)
    requires TaskPlaced(w, t)
  {
    var e := w.mem[t + ESP];
    && w.stacks[t].lo <= e && e + 20 <= w.stacks[t].hi && e % 4 == 0
    && t in w.saved && w.saved[t] == Regs(w.mem[e], w.mem[e + 4], w.mem[e + 8], w.mem[e + 12], e + 20, w.mem[e + 16])
    && (t in w.frames ==>
          && |w.frames[t]| == 5 && w.saved[t].esp == w.stacks[t].hi - 20
          && forall k | 0 <= k < 5 :: w.mem[w.stacks[t].hi - 20 + 4 * k] == w.frames[t][k])
  }

  /** The processor agrees with the current task's control block. */
  ghost predicate CurrentOk(w: World, t: Word)
    requires TaskPlaced(w, t)
  {
    && (w.mem[t + CR3] != 0 ==> w.cr3 == w.mem[t + CR3])
    && (w.mem[t + KSTACK] != 0 ==> w.esp0 == w.mem[t + KSTACK])
  }

  ghost predicate Inv(w: World) {
    && Placed(w)
    && (forall i {:trigger LinkOk(w, i)} | 0 <= i < |w.ring| && TaskPlaced(w, w.ring[i]) :: LinkOk(w, i))
    && w.ring[0] !in w.frames
    && (forall i {:trigger Suspended(w, w.ring[i])} | 1 <= i < |w.ring| && TaskPlaced(w, w.ring[i]) :: Suspended(w, w.ring[i]))
    && (TaskPlaced(w, w.ring[0]) ==> CurrentOk(w, w.ring[0]))
  }

  // ----- steps -----

  /** `switch_to` saves the registers on the stack and the stack pointer in the control block. */
  ghost function SavedMem(m: seq<Word>, r: Regs, cur: Word): (m': seq<Word>)
    requires 16 <= r.esp <= |m| && cur < |m|
    ensures |m'| == |m|
  {
    m[r.esp - 4 := r.ebp][r.esp - 8 := r.edi][r.esp - 12 := r.esi][r.esp - 16 := r.ebx][cur + ESP := r.esp - 16]
  }

  /** `task_yield` up to the call of `switch_to`: the states, then the arguments and the return address. */
  ghost function CallMem(m: seq<Word>, esp: Word, cur: Word, nxt: Word, ret: Word): (m': seq<Word>)
    requires 12 <= esp <= |m| && cur + TCB_SIZE <= |m| && nxt + TCB_SIZE <= |m|
    ensures |m'| == |m|
  {
    m[cur + STATE := READY][nxt + STATE := RUNNING][esp - 4 := nxt][esp - 8 := cur][esp - 12 := ret]
  }

  /** The current task has 28 bytes of its stack left. */
  ghost predicate HasRoom(w: World) {
    && |w.ring| > 0 && w.ring[0] in w.stacks
    && w.stacks[w.ring[0]].lo + 28 <= w.regs.esp <= w.stacks[w.ring[0]].hi && w.regs.esp % 4 == 0
  }

  ghost function YieldMem(w: World, ret: Word): (m: seq<Word>)
    requires Placed(w) && |w.ring| > 1 && HasRoom(w)
    ensures |m| == |w.mem|
  {
    assert TaskPlaced(w, w.ring[0]) && TaskPlaced(w, w.ring[1]);
    SavedMem(CallMem(w.mem, w.regs.esp, w.ring[0], w.ring[1], ret), w.regs.(esp := w.regs.esp - 12), w.ring[0])
  }

  /** `task_yield`, up to the point where the next task continues. */
  ghost function Yield(w: World, ret: Word): World
    requires Inv(w) && HasRoom(w)
  {
    if |w.ring| == 1 then w
    else
      var cur, t := w.ring[0], w.ring[1];
      assert TaskPlaced(w, cur) && TaskPlaced(w, t) && Suspended(w, t);
      var m := YieldMem(w, ret);
      var e := w.mem[t + ESP];
      World(m,
            Regs(m[e], m[e + 4], m[e + 8], m[e + 12], e + 20, m[e + 16]),
            if w.mem[t + CR3] != 0 then w.mem[t + CR3] else w.cr3,
            if w.mem[t + KSTACK] != 0 then w.mem[t + KSTACK] else w.esp0,
            w.ring[1..] + [w.ring[0]],
            w.stacks,
            w.saved[cur := w.regs.(esp := w.regs.esp - 8, eip := ret)],
            w.frames - {t})
  }

  /** What a yield leaves alone: all but three words of control blocks and 28 bytes of stack. */
  lemma YieldFrame(w: World, ret: Word, k: nat)
    requires Placed(w) && |w.ring| > 1 && HasRoom(w) && k < |w.mem|
    requires k < w.regs.esp - 28 || w.regs.esp <= k
    requires k != w.ring[0] + ESP && k != w.ring[0] + STATE && k != w.ring[1] + STATE
    ensures YieldMem(w, ret)[k] == w.mem[k]
  {
    assert TaskPlaced(w, w.ring[0]) && TaskPlaced(w, w.ring[1]);
  }

  /** What a yield stores on the stack and in the control blocks. */
  lemma YieldStores(w: World, ret: Word)
    requires Placed(w) && |w.ring| > 1 && HasRoom(w)
    ensures var m, cur, nxt, e := YieldMem(w, ret), w.ring[0], w.ring[1], w.regs.esp - 28;
            && cur + TCB_SIZE <= |m| && nxt + TCB_SIZE <= |m| && 0 <= e && e + 28 <= |m|
            && m[e] == w.regs.ebx && m[e + 4] == w.regs.esi && m[e + 8] == w.regs.edi && m[e + 12] == w.regs.ebp
            && m[e + 16] == ret && m[cur + ESP] == e
            && m[cur + STATE] == READY && m[nxt + STATE] == RUNNING
  {
    var cur, nxt := w.ring[0], w.ring[1];
    assert TaskPlaced(w, cur) && TaskPlaced(w, nxt) && Apart(w, cur, nxt) && Apart(w, cur, cur) && Apart(w, nxt, cur);
  }

  lemma PlacedAfterYield(w: World, ret: Word)
    requires Inv(w) && HasRoom(w) && |w.ring| > 1
    ensures Placed(Yield(w, ret))
  {
    var w' := Yield(w, ret);
    forall t | t in w'.ring ensures TaskPlaced(w', t) { assert t in w.ring && TaskPlaced(w, t); }
    forall t, u | t in w'.ring && u in w'.ring && t in w'.stacks && u in w'.stacks ensures Apart(w', t, u) {
      assert t in w.ring && u in w.ring && Apart(w, t, u);
    }
    forall i, j | 0 <= i < j < |w'.ring| ensures w'.ring[i] != w'.ring[j] {
      assert j < |w.ring| - 1 ==> w'.ring[j] == w.ring[j + 1];
    }
  }

  /** Words of a control block (but its stack pointer and state) that a yield keeps. */
  lemma YieldKeepsTcb(w: World, ret: Word, t: Word, d: nat)
    requires Placed(w) && HasRoom(w) && |w.ring| > 1 && t in w.ring && d < TCB_SIZE && d % 4 == 0
    requires d != STATE && (d != ESP || t != w.ring[0])
    ensures t + TCB_SIZE <= |w.mem| && YieldMem(w, ret)[t + d] == w.mem[t + d]
  {
    var cur, nxt := w.ring[0], w.ring[1];
    assert TaskPlaced(w, t) && TaskPlaced(w, cur) && TaskPlaced(w, nxt) && Apart(w, t, cur) && Apart(w, t, nxt);
    YieldFrame(w, ret, t + d);
  }

  lemma YieldState(w: World, ret: Word, t: Word)
    requires Placed(w) && HasRoom(w) && |w.ring| > 1 && t in w.ring && t != w.ring[0] && t != w.ring[1]
    ensures t + TCB_SIZE <= |w.mem| && YieldMem(w, ret)[t + STATE] == w.mem[t + STATE]
  {
    var cur, nxt := w.ring[0], w.ring[1];
    assert TaskPlaced(w, t) && TaskPlaced(w, cur) && TaskPlaced(w, nxt) && Apart(w, t, cur) && Apart(w, t, nxt);
    YieldFrame(w, ret, t + STATE);
  }

  lemma YieldKeepsStack(w: World, ret: Word, t: Word, k: int)
    requires Placed(w) && HasRoom(w) && |w.ring| > 1 && t in w.ring && t != w.ring[0]
    requires t in w.stacks && w.stacks[t].lo <= k < w.stacks[t].hi
    ensures 0 <= k < |w.mem| && YieldMem(w, ret)[k] == w.mem[k]
  {
    var cur, nxt := w.ring[0], w.ring[1];
    assert TaskPlaced(w, t) && TaskPlaced(w, cur) && TaskPlaced(w, nxt) && Apart(w, t, cur) && Apart(w, cur, t) && Apart(w, nxt, t);
    YieldFrame(w, ret, k);
  }

  /** The i-th control block after a yield was the (i+1)-st before. */
  lemma YieldLink(w: World, ret: Word, i: nat)
    requires Inv(w) && HasRoom(w) && |w.ring| > 1 && i < |w.ring|
    ensures TaskPlaced(w, Yield(w, ret).ring[i]) && LinkOk(Yield(w, ret), i)
  {
    hide YieldMem;
    var w' := Yield(w, ret);
    var o := if i + 1 == |w.ring| then 0 else i + 1;
    var t := w'.ring[i];
    assert t == w.ring[o] && TaskPlaced(w, t) && LinkOk(w, o);
    YieldKeepsTcb(w, ret, t, NEXT);
    YieldStores(w, ret);
    if t != w.ring[0] && t != w.ring[1] { YieldState(w, ret, t); }
  }

  /** A task that stays suspended over a yield. */
  lemma YieldSuspended(w: World, ret: Word, i: nat)
    requires Inv(w) && HasRoom(w) && 2 <= i < |w.ring|
    ensures TaskPlaced(Yield(w, ret), w.ring[i]) && Suspended(Yield(w, ret), w.ring[i])
  {
    hide YieldMem;
    var w', t := Yield(w, ret), w.ring[i];
    assert TaskPlaced(w, t) && Suspended(w, t) && TaskPlaced(w', t);
    YieldKeepsTcb(w, ret, t, ESP);
    forall k | w.stacks[t].lo <= k < w.stacks[t].hi ensures w'.mem[k] == w.mem[k] { YieldKeepsStack(w, ret, t, k); }
  }

  /** The task that yields is suspended with the registers of the call. */
  lemma YieldSuspends(w: World, ret: Word)
    requires Inv(w) && HasRoom(w) && |w.ring| > 1
    ensures TaskPlaced(Yield(w, ret), w.ring[0]) && Suspended(Yield(w, ret), w.ring[0])
  {
    hide YieldMem;
    assert TaskPlaced(w, w.ring[0]) && TaskPlaced(Yield(w, ret), w.ring[0]);
    YieldStores(w, ret);
  }

  /** The next task continues with exactly the registers it was suspended with. */
  lemma YieldResumes(w: World, ret: Word)
    requires Inv(w) && HasRoom(w) && |w.ring| > 1
    ensures w.ring[1] in w.saved && Yield(w, ret).regs == w.saved[w.ring[1]]
  {
    hide YieldMem;
    var t := w.ring[1];
    assert TaskPlaced(w, t) && Suspended(w, t);
    forall k | w.stacks[t].lo <= k < w.stacks[t].hi ensures YieldMem(w, ret)[k] == w.mem[k] { YieldKeepsStack(w, ret, t, k); }
  }

  /** After a yield the processor has the next task's page directory and ring-0 stack, if it has any. */
  lemma YieldCurrent(w: World, ret: Word)
    requires Inv(w) && HasRoom(w) && |w.ring| > 1
    ensures TaskPlaced(Yield(w, ret), w.ring[1]) && CurrentOk(Yield(w, ret), w.ring[1])
  {
    hide YieldMem;
    assert TaskPlaced(w, w.ring[1]);
    YieldKeepsTcb(w, ret, w.ring[1], CR3);
    YieldKeepsTcb(w, ret, w.ring[1], KSTACK);
  }

  lemma YieldKeepsInv(w: World, ret: Word)
    requires Inv(w) && HasRoom(w)
    ensures Inv(Yield(w, ret))
  {
    if |w.ring| > 1 {
      hide YieldMem, Suspended, LinkOk, Apart, CurrentOk, Placed, TaskPlaced, HasRoom;
      var w' := Yield(w, ret);
      PlacedAfterYield(w, ret);
      assert w'.ring == w.ring[1..] + [w.ring[0]] && w'.frames == w.frames - {w.ring[1]};
      hide Yield;
      forall i | 0 <= i < |w'.ring| && TaskPlaced(w', w'.ring[i]) ensures LinkOk(w', i) { YieldLink(w, ret, i); }
      forall i | 1 <= i < |w'.ring| && TaskPlaced(w', w'.ring[i]) ensures Suspended(w', w'.ring[i]) {
        if i + 1 == |w.ring| { YieldSuspends(w, ret); } else { YieldSuspended(w, ret, i + 1); }
      }
      YieldCurrent(w, ret);
    }
  }

  // ----- task creation -----

  /** Ten words below the top of the new kernel stack: what `switch_to` and then `iret` pop. */
  ghost function FrameMem(m: seq<Word>, hi: int, returnToRing3: Word, entry: Word, ustackTop: Word): (m': seq<Word>)
    requires 40 <= hi <= |m|
    ensures |m'| == |m|
  {
    m[hi - 40 := 0][hi - 36 := 0][hi - 32 := 0][hi - 28 := 0][hi - 24 := returnToRing3]
     [hi - 20 := entry][hi - 16 := 0x1B][hi - 12 := 0x202][hi - 8 := ustackTop][hi - 4 := 0x23]
  }

  /** `t->fd_table[i] = NULL` for the first n slots */
  ghost function ClearFds(m: seq<Word>, t: int, n: nat): (m': seq<Word>)
    requires 0 <= t && t + FDS + 4 * n <= |m|
    ensures |m'| == |m|
    ensures forall k | 0 <= k < |m| && (k < t + FDS || t + FDS + 4 * n <= k) :: m'[k] == m[k]
    ensures forall i | 0 <= i < n :: m'[t + FDS + 4 * i] == 0
  {
    if n == 0 then m else ClearFds(m, t, n - 1)[t + FDS + 4 * (n - 1) := 0]
  }

  /** The new control block, and its insertion after the current one. */
  ghost function TcbMem(m: seq<Word>, cur: int, t: Word, esp: Word, id: Word, kstack: Word, cr3: Word): (m': seq<Word>)
    requires 0 <= cur && cur + TCB_SIZE <= |m| && t + TCB_SIZE <= |m| && (t + TCB_SIZE <= cur || cur + TCB_SIZE <= t)
    ensures |m'| == |m|
  {
    var m1 := m[t + ESP := esp][t + ID := id][t + STATE := READY][t + KSTACK := kstack][t + CR3 := cr3];
    var m2 := ClearFds(m1, t, MAX_FD);
    m2[t + NEXT := m2[cur + NEXT]][cur + NEXT := t]
  }

  /** What a task is created with. */
  datatype NewTask = NewTask(t: Word, stack: Stack, id: Word, cr3: Word, entry: Word, ustackTop: Word, returnToRing3: Word)

  ghost function IretFrame(n: NewTask): seq<Word> {
    [n.entry, 0x1B, 0x202, n.ustackTop, 0x23]
  }

  /** Memory for the control block and the stack that nobody else has; `Machines.CreationSafe` derives it
      from the allocators. */
  ghost predicate CanCreate(w: World, n: NewTask) {
    && Inv(w) && n.t !in w.ring && n.stack.lo + 40 <= n.stack.hi
    && var w1 := w.(stacks := w.stacks[n.t := n.stack]);
    && TaskPlaced(w1, n.t) && Apart(w1, n.t, n.t)
    && forall u {:trigger Apart(w1, n.t, u)} | u in w.ring && u in w1.stacks :: Apart(w1, n.t, u) && Apart(w1, u, n.t)
  }

  ghost function CreateMem(w: World, n: NewTask): (m: seq<Word>)
    requires CanCreate(w, n)
    ensures |m| == |w.mem|
  {
    var cur := w.ring[0];
    assert TaskPlaced(w, cur) && Apart(w.(stacks := w.stacks[n.t := n.stack]), n.t, cur);
    TcbMem(FrameMem(w.mem, n.stack.hi, n.returnToRing3, n.entry, n.ustackTop),
           cur, n.t, n.stack.hi - 40, n.id, n.stack.hi, n.cr3)
  }

  /** `task_create_user_with_pages`, once its allocations succeeded. */
  ghost function Create(w: World, n: NewTask): World
    requires CanCreate(w, n)
  {
    w.(mem := CreateMem(w, n),
       ring := [w.ring[0], n.t] + w.ring[1..],
       stacks := w.stacks[n.t := n.stack],
       saved := w.saved[n.t := Regs(0, 0, 0, 0, n.stack.hi - 20, n.returnToRing3)],
       frames := w.frames[n.t := IretFrame(n)])
  }

  lemma CreateFrame(w: World, n: NewTask, k: nat)
    requires CanCreate(w, n) && k < |w.mem| && k != w.ring[0] + NEXT
    requires (k < n.t || n.t + TCB_SIZE <= k) && (k < n.stack.lo || n.stack.hi <= k)
    ensures CreateMem(w, n)[k] == w.mem[k]
  {
  }

  lemma TcbWords(m: seq<Word>, cur: int, t: Word, esp: Word, id: Word, kstack: Word, cr3: Word)
    requires 0 <= cur && cur + TCB_SIZE <= |m| && t + TCB_SIZE <= |m| && (t + TCB_SIZE <= cur || cur + TCB_SIZE <= t)
    ensures var m' := TcbMem(m, cur, t, esp, id, kstack, cr3);
            && m'[t + ESP] == esp && m'[t + ID] == id && m'[t + STATE] == READY && m'[t + KSTACK] == kstack && m'[t + CR3] == cr3
            && m'[t + NEXT] == m[cur + NEXT] && m'[cur + NEXT] == t
            && (forall i | 0 <= i < MAX_FD :: m'[t + FDS + 4 * i] == 0)
            && forall k | 0 <= k < |m| && k != cur + NEXT && (k < t || t + TCB_SIZE <= k) :: m'[k] == m[k]
  {
  }

  lemma FrameWords(m: seq<Word>, hi: int, returnToRing3: Word, entry: Word, ustackTop: Word)
    requires 40 <= hi <= |m|
    ensures var m' := FrameMem(m, hi, returnToRing3, entry, ustackTop);
            && m'[hi - 40] == 0 && m'[hi - 36] == 0 && m'[hi - 32] == 0 && m'[hi - 28] == 0 && m'[hi - 24] == returnToRing3
            && (forall i | 0 <= i < 5 :: m'[hi - 20 + 4 * i] == [entry, 0x1B, 0x202, ustackTop, 0x23][i])
            && forall k | 0 <= k < |m| && (k < hi - 40 || hi <= k) :: m'[k] == m[k]
  {
  }

  /** What the creation stores. */
  ghost predicate Created(w: World, n: NewTask, m: seq<Word>)
    requires |w.ring| > 0 && w.ring[0] + TCB_SIZE <= |m| && n.t + TCB_SIZE <= |m| == |w.mem| && 40 <= n.stack.hi <= |m|
  {
    var t, hi := n.t, n.stack.hi;
    && m[t + ESP] == hi - 40 && m[t + STATE] == READY && m[t + KSTACK] == hi && m[t + CR3] == n.cr3
    && m[t + NEXT] == w.mem[w.ring[0] + NEXT] && m[w.ring[0] + NEXT] == t
    && (forall i | 0 <= i < MAX_FD :: m[t + FDS + 4 * i] == 0)
    && m[hi - 40] == 0 && m[hi - 36] == 0 && m[hi - 32] == 0 && m[hi - 28] == 0 && m[hi - 24] == n.returnToRing3
    && forall i | 0 <= i < 5 :: m[hi - 20 + 4 * i] == IretFrame(n)[i]
  }

  /** The new control block and stack against a task u of the ring. */
  lemma CreatePlaces(w: World, n: NewTask, u: Word)
    requires CanCreate(w, n) && u in w.ring
    ensures |w.ring| > 0 && TaskPlaced(w, u) && TaskPlaced(w, w.ring[0])
    ensures n.t + TCB_SIZE <= |w.mem| && 40 <= n.stack.hi <= |w.mem| && 0 < n.t && n.stack.lo + 40 <= n.stack.hi
    ensures n.t + TCB_SIZE <= u || u + TCB_SIZE <= n.t
    ensures n.stack.hi <= u || u + TCB_SIZE <= n.stack.lo
    ensures n.t + TCB_SIZE <= n.stack.lo || n.stack.hi <= n.t
    ensures n.stack.hi <= w.stacks[u].lo || w.stacks[u].hi <= n.stack.lo
    ensures n.t + TCB_SIZE <= w.stacks[u].lo || w.stacks[u].hi <= n.t
    ensures w.ring[0] + TCB_SIZE <= w.stacks[u].lo || w.stacks[u].hi <= w.ring[0]
    ensures u != w.ring[0] ==> u + TCB_SIZE <= w.ring[0] || w.ring[0] + TCB_SIZE <= u
  {
    var w1 := w.(stacks := w.stacks[n.t := n.stack]);
    assert TaskPlaced(w, u) && TaskPlaced(w, w.ring[0]);
    assert Apart(w1, n.t, u) && Apart(w1, u, n.t) && Apart(w1, n.t, n.t) && Apart(w, w.ring[0], u);
  }

  lemma HasCurrent(w: World, n: NewTask)
    requires CanCreate(w, n)
    ensures |w.ring| > 0 && |w.mem| == USER_MEM_START
  {
  }

  lemma CreateTcb(w: World, n: NewTask)
    requires CanCreate(w, n) && n.t + TCB_SIZE <= |w.mem| == USER_MEM_START && |w.ring| > 0 && w.ring[0] + TCB_SIZE <= |w.mem|
    requires n.t + TCB_SIZE <= w.ring[0] || w.ring[0] + TCB_SIZE <= n.t
    requires n.stack.hi <= w.ring[0] || w.ring[0] + TCB_SIZE <= n.stack.lo
    requires n.stack.lo + 40 <= n.stack.hi && 40 <= n.stack.hi <= |w.mem|
    ensures var m, t, hi := CreateMem(w, n), n.t, n.stack.hi;
            && m[t + ESP] == hi - 40 && m[t + STATE] == READY && m[t + KSTACK] == hi && m[t + CR3] == n.cr3
            && m[t + NEXT] == w.mem[w.ring[0] + NEXT] && m[w.ring[0] + NEXT] == t
            && (forall i | 0 <= i < MAX_FD :: m[t + FDS + 4 * i] == 0)
  {
    hide CanCreate, FrameMem, TcbMem;
    var m1 := FrameMem(w.mem, n.stack.hi, n.returnToRing3, n.entry, n.ustackTop);
    FrameWords(w.mem, n.stack.hi, n.returnToRing3, n.entry, n.ustackTop);
    TcbWords(m1, w.ring[0], n.t, n.stack.hi - 40, n.id, n.stack.hi, n.cr3);
  }

  lemma CreateFrameWord(w: World, n: NewTask, k: nat)
    requires CanCreate(w, n) && n.t + TCB_SIZE <= |w.mem| == USER_MEM_START && |w.ring| > 0 && w.ring[0] + TCB_SIZE <= |w.mem|
    requires n.t + TCB_SIZE <= w.ring[0] || w.ring[0] + TCB_SIZE <= n.t
    requires n.stack.hi <= w.ring[0] || w.ring[0] + TCB_SIZE <= n.stack.lo
    requires n.t + TCB_SIZE <= n.stack.lo || n.stack.hi <= n.t
    requires n.stack.lo + 40 <= n.stack.hi && 40 <= n.stack.hi <= |w.mem| && n.stack.hi - 40 <= k < n.stack.hi
    ensures CreateMem(w, n)[k] == FrameMem(w.mem, n.stack.hi, n.returnToRing3, n.entry, n.ustackTop)[k]
  {
    hide CanCreate, FrameMem, TcbMem;
    TcbWords(FrameMem(w.mem, n.stack.hi, n.returnToRing3, n.entry, n.ustackTop), w.ring[0], n.t,
             n.stack.hi - 40, n.id, n.stack.hi, n.cr3);
  }

  lemma CreateStores(w: World, n: NewTask)
    requires CanCreate(w, n)
    ensures |w.ring| > 0 && w.ring[0] + TCB_SIZE <= |w.mem| && n.t + TCB_SIZE <= |w.mem| && 40 <= n.stack.hi <= |w.mem|
    ensures Created(w, n, CreateMem(w, n))
  {
    hide CanCreate, FrameMem, CreateMem, TaskPlaced;
    HasCurrent(w, n);
    CreatePlaces(w, n, w.ring[0]);
    CreateTcb(w, n);
    var m1 := FrameMem(w.mem, n.stack.hi, n.returnToRing3, n.entry, n.ustackTop);
    FrameWords(w.mem, n.stack.hi, n.returnToRing3, n.entry, n.ustackTop);
    var m := CreateMem(w, n);
    forall k: nat | n.stack.hi - 40 <= k < n.stack.hi ensures m[k] == m1[k] { CreateFrameWord(w, n, k); }
  }

  /** What the creation leaves alone: every task's control block (but the current one's link) and stack. */
  lemma CreateKeeps(w: World, n: NewTask, u: Word)
    requires CanCreate(w, n) && u in w.ring
    ensures TaskPlaced(w, u)
    ensures forall k | u <= k < u + TCB_SIZE && k != w.ring[0] + NEXT :: CreateMem(w, n)[k] == w.mem[k]
    ensures forall k | w.stacks[u].lo <= k < w.stacks[u].hi :: CreateMem(w, n)[k] == w.mem[k]
  {
    hide Inv, CanCreate, CreateMem;
    CreatePlaces(w, n, u);
    forall k | u <= k < u + TCB_SIZE && k != w.ring[0] + NEXT ensures CreateMem(w, n)[k] == w.mem[k] {
      CreateFrame(w, n, k);
    }
    forall k | w.stacks[u].lo <= k < w.stacks[u].hi ensures CreateMem(w, n)[k] == w.mem[k] {
      CreateFrame(w, n, k);
    }
  }

  lemma CreatePlaced(w: World, n: NewTask)
    requires CanCreate(w, n)
    ensures Placed(Create(w, n))
  {
    hide CreateMem;
    var w' := Create(w, n);
    var w1 := w.(stacks := w.stacks[n.t := n.stack]);
    forall t | t in w'.ring ensures t == n.t || t in w.ring {}
    forall t | t in w'.ring ensures TaskPlaced(w', t) {
      assert t != n.t ==> TaskPlaced(w, t);
      assert t == n.t ==> TaskPlaced(w1, t);
    }
    forall t, u | t in w'.ring && u in w'.ring && t in w'.stacks && u in w'.stacks ensures Apart(w', t, u) {
      if t != n.t && u != n.t { assert Apart(w, t, u); }
      else if t == n.t { assert Apart(w1, n.t, u); }
      else { assert Apart(w1, n.t, t) && Apart(w1, t, n.t); }
    }
    assert w.ring == [w.ring[0]] + w.ring[1..];
    forall i, j | 0 <= i < j < |w'.ring| ensures w'.ring[i] != w'.ring[j] {
      var oi, oj := if i == 0 then 0 else i - 1, j - 1;
      assert i != 1 ==> w'.ring[i] == w.ring[oi];
      assert j != 1 ==> w'.ring[j] == w.ring[oj];
    }
  }

  lemma CreateLink(w: World, n: NewTask, i: nat)
    requires CanCreate(w, n) && i < |w.ring| + 1 && TaskPlaced(Create(w, n), Create(w, n).ring[i])
    ensures LinkOk(Create(w, n), i)
  {
    hide CreateMem, Apart, Suspended;
    var w' := Create(w, n);
    CreateStores(w, n);
    CreatePlaces(w, n, w.ring[0]);
    assert LinkOk(w, 0);
    if i != 1 {
      var o := if i == 0 then 0 else i - 1;
      assert w'.ring[i] == w.ring[o];
      CreatePlaces(w, n, w.ring[o]);
      CreateKeeps(w, n, w.ring[o]);
      assert LinkOk(w, o);
    }
  }

  lemma CreateSuspended(w: World, n: NewTask, i: nat)
    requires CanCreate(w, n) && 1 <= i < |w.ring| + 1 && TaskPlaced(Create(w, n), Create(w, n).ring[i])
    ensures Suspended(Create(w, n), Create(w, n).ring[i])
  {
    hide CreateMem, Apart, LinkOk;
    var w' := Create(w, n);
    if i == 1 {
      CreateStores(w, n);
    } else {
      var u := w.ring[i - 1];
      assert w'.ring[i] == u && u in w.ring;
      CreatePlaces(w, n, u);
      CreateKeeps(w, n, u);
      assert Suspended(w, u) && TaskPlaced(w, u);
      assert w'.mem[u + ESP] == w.mem[u + ESP];
    }
  }

  lemma CreateKeepsInv(w: World, n: NewTask)
    requires CanCreate(w, n)
    ensures Inv(Create(w, n))
  {
    var w' := Create(w, n);
    var cur := w.ring[0];
    assert TaskPlaced(w, cur) && CurrentOk(w, cur);
    hide CreateMem, Placed, TaskPlaced, LinkOk, Suspended, Apart;
    CreatePlaced(w, n);
    CreateKeeps(w, n, cur);
    assert w'.mem[cur + CR3] == w.mem[cur + CR3] && w'.mem[cur + KSTACK] == w.mem[cur + KSTACK];
    forall i | 0 <= i < |w'.ring| && TaskPlaced(w', w'.ring[i]) ensures LinkOk(w', i) { CreateLink(w, n, i); }
    forall i | 1 <= i < |w'.ring| && TaskPlaced(w', w'.ring[i]) ensures Suspended(w', w'.ring[i]) { CreateSuspended(w, n, i); }
  }

  // ----- task activity -----

  /** What the running task may do: change its own registers and stack, and memory that is
      neither a control block nor another task's stack. */
  ghost predicate Quiet(w: World, m: seq<Word>, r: Regs) {
    && Placed(w) && |m| == |w.mem|
    && (forall t, k | t in w.ring && t <= k < t + FDS && k < |m| :: m[k] == w.mem[k])
    && (forall t, k | t in w.ring && t != w.ring[0] && t in w.stacks && w.stacks[t].lo <= k < w.stacks[t].hi && 0 <= k < |m| :: m[k] == w.mem[k])
  }

  lemma QuietKeepsInv(w: World, m: seq<Word>, r: Regs)
    requires Inv(w) && Quiet(w, m, r)
    ensures Inv(w.(mem := m, regs := r))
  {
    var w' := w.(mem := m, regs := r);
    assert Placed(w') by {
      forall t | t in w.ring ensures TaskPlaced(w', t) { assert TaskPlaced(w, t); }
      forall t, u | t in w.ring && u in w.ring && t in w.stacks && u in w.stacks ensures Apart(w', t, u) { assert Apart(w, t, u); }
    }
    QuietTask(w, m, r, 0);
    hide Apart, LinkOk, Suspended, Quiet, TaskPlaced, CurrentOk;
    forall i | 0 <= i < |w.ring| && TaskPlaced(w', w.ring[i]) ensures LinkOk(w', i) { QuietTask(w, m, r, i); }
    forall i | 1 <= i < |w.ring| && TaskPlaced(w', w.ring[i]) ensures Suspended(w', w.ring[i]) { QuietTask(w, m, r, i); }
  }

  lemma QuietTask(w: World, m: seq<Word>, r: Regs, i: nat)
    requires Inv(w) && Quiet(w, m, r) && i < |w.ring| && TaskPlaced(w.(mem := m, regs := r), w.ring[i])
    ensures LinkOk(w.(mem := m, regs := r), i)
    ensures i > 0 ==> Suspended(w.(mem := m, regs := r), w.ring[i])
    ensures i == 0 ==> CurrentOk(w.(mem := m, regs := r), w.ring[i])
  {
    hide Apart;
    assert w.ring[i] in w.ring && TaskPlaced(w, w.ring[i]) && LinkOk(w, i);
    if i > 0 { assert Suspended(w, w.ring[i]); } else { assert CurrentOk(w, w.ring[0]); }
  }

  // ----- boot -----

  /** `task_init`: the idle task runs on the boot stack and has no address space of its own. */
  ghost function Boot(m: seq<Word>, t: Word, stack: Stack, r: Regs, cr3: Word, esp0: Word): World
    requires t + TCB_SIZE <= |m|
  {
    var m1 := m[t + ESP := 0][t + ID := 0][t + STATE := RUNNING][t + KSTACK := 0][t + CR3 := 0][t + NEXT := t];
    World(ClearFds(m1, t, MAX_FD), r, cr3, esp0, [t], map[t := stack], map[], map[])
  }

  lemma BootOk(m: seq<Word>, t: Word, stack: Stack, r: Regs, cr3: Word, esp0: Word)
    requires |m| == USER_MEM_START && 0 < t && t % 4 == 0 && t + TCB_SIZE <= |m|
    requires 0 < stack.lo < stack.hi <= |m| && stack.lo % 4 == 0 && stack.hi % 4 == 0
    requires t + TCB_SIZE <= stack.lo || stack.hi <= t
    ensures Inv(Boot(m, t, stack, r, cr3, esp0))
  {
  }

  // ----- every run -----

  datatype Op =
    | DoYield(ret: Word)                   // task_yield, called with this return address
    | DoCreate(n: NewTask)                 // task_create_user_with_pages
    | DoRun(m: seq<Word>, r: Regs)         // the current task computes

  ghost predicate Enabled(w: World, op: Op)
    requires Inv(w)
  {
    match op
    case DoYield(ret) => HasRoom(w)
    case DoCreate(n) => CanCreate(w, n)
    case DoRun(m, r) => Quiet(w, m, r)
  }

  ghost function Step(w: World, op: Op): World
    requires Inv(w) && Enabled(w, op)
  {
    match op
    case DoYield(ret) => Yield(w, ret)
    case DoCreate(n) => Create(w, n)
    case DoRun(m, r) => w.(mem := m, regs := r)
  }

  lemma StepKeepsInv(w: World, op: Op)
    requires Inv(w) && Enabled(w, op)
    ensures Inv(Step(w, op))
  {
    match op
    case DoYield(ret) => YieldKeepsInv(w, ret);
    case DoCreate(n) => CreateKeepsInv(w, n);
    case DoRun(m, r) => QuietKeepsInv(w, m, r);
  }

  ghost function Run(w: World, ops: seq<Op>): (r: Option<World>)
    requires Inv(w)
    ensures r.Some? ==> Inv(r.value)
    decreases |ops|
  {
    if ops == [] then Some(w)
    else if !Enabled(w, ops[0]) then None
    else
      StepKeepsInv(w, ops[0]);
      Run(Step(w, ops[0]), ops[1..])
  }

  /** Task t waits in the ring in every state of the run. */
  ghost predicate Waits(w: World, ops: seq<Op>, t: Word)
    requires Inv(w)
    decreases |ops|
  {
    && t in w.ring[1..]
    && (ops != [] && Enabled(w, ops[0]) ==> (StepKeepsInv(w, ops[0]); Waits(Step(w, ops[0]), ops[1..], t)))
  }

  /** One step does not disturb a waiting task's saved registers and first frame. */
  lemma StepKeepsSaved(w: World, op: Op, t: Word)
    requires Inv(w) && Enabled(w, op) && t in w.ring[1..] && t in Step(w, op).ring[1..]
    ensures t in w.saved && t in Step(w, op).saved && Step(w, op).saved[t] == w.saved[t]
    ensures t in w.frames ==> t in Step(w, op).frames && Step(w, op).frames[t] == w.frames[t]
    ensures t in w.stacks && t in Step(w, op).stacks && Step(w, op).stacks[t] == w.stacks[t]
  {
    var i :| 1 <= i < |w.ring| && w.ring[i] == t;
    assert t in w.ring && TaskPlaced(w, t) && TaskPlaced(w, w.ring[i]) && Suspended(w, w.ring[i]);
    hide Suspended, LinkOk, Apart, YieldMem, CreateMem;
    if op.DoYield? && |w.ring| > 1 {
      var w' := Yield(w, op.ret);
      var k :| 1 <= k < |w'.ring| && w'.ring[k] == t;
      assert w.ring[1] != t by { assert k < |w.ring| - 1 ==> w'.ring[k] == w.ring[k + 1]; }
    }
  }

  lemma {:induction false} RunKeepsSaved(w: World, ops: seq<Op>, t: Word)
    requires Inv(w) && Run(w, ops).Some? && Waits(w, ops, t)
    ensures var w' := Run(w, ops).value;
            && t in w'.ring[1..]
            && t in w.saved && t in w'.saved && w'.saved[t] == w.saved[t]
            && (t in w.frames ==> t in w'.frames && w'.frames[t] == w.frames[t])
            && t in w.stacks && t in w'.stacks && w'.stacks[t] == w.stacks[t]
    decreases |ops|
  {
    if ops == [] {
      var i :| 1 <= i < |w.ring| && w.ring[i] == t;
      assert t in w.ring && TaskPlaced(w, w.ring[i]) && Suspended(w, w.ring[i]);
    } else {
      hide Step, Inv, Enabled;
      StepKeepsInv(w, ops[0]);
      var w1 := Step(w, ops[0]);
      assert t in w1.ring[1..] by { assert Waits(w1, ops[1..], t); }
      StepKeepsSaved(w, ops[0], t);
      RunKeepsSaved(w1, ops[1..], t);
    }
  }

  /** Context preservation: a task that yields and is switched to again, after any run in between,
      continues behind its call with the ebx, esi, edi, ebp and esp of the call. */
  lemma ContextPreserved(w: World, ret: Word, ops: seq<Op>, ret2: Word)
    requires Inv(w) && HasRoom(w) && |w.ring| > 1 && Inv(Yield(w, ret))
    requires Run(Yield(w, ret), ops).Some? && Waits(Yield(w, ret), ops, w.ring[0])
    requires var w2 := Run(Yield(w, ret), ops).value; HasRoom(w2) && |w2.ring| > 1 && w2.ring[1] == w.ring[0]
    ensures var r := Yield(Run(Yield(w, ret), ops).value, ret2).regs;
            && r.ebx == w.regs.ebx && r.esi == w.regs.esi && r.edi == w.regs.edi && r.ebp == w.regs.ebp
            && r.esp == w.regs.esp - 8 && r.eip == ret
  {
    var w1 := Yield(w, ret);
    RunKeepsSaved(w1, ops, w.ring[0]);
    var w2 := Run(w1, ops).value;
    hide Suspended, LinkOk, Apart, YieldMem, Inv;
    YieldResumes(w2, ret2);
  }

  /** A task's first switch reaches the return address it was created with, with `iret`'s five
      words on top of its stack and nothing above them. */
  lemma FirstRun(w: World, n: NewTask, ops: seq<Op>, ret2: Word)
    requires CanCreate(w, n) && Inv(Create(w, n))
    requires Run(Create(w, n), ops).Some? && Waits(Create(w, n), ops, n.t)
    requires var w2 := Run(Create(w, n), ops).value; HasRoom(w2) && |w2.ring| > 1 && w2.ring[1] == n.t
    ensures var w3 := Yield(Run(Create(w, n), ops).value, ret2);
            && w3.regs == Regs(0, 0, 0, 0, n.stack.hi - 20, n.returnToRing3)
            && 20 <= n.stack.hi <= |w3.mem|
            && forall k | 0 <= k < 5 :: w3.mem[n.stack.hi - 20 + 4 * k] == IretFrame(n)[k]
  {
    hide CreateMem, YieldMem, LinkOk, CurrentOk, Apart;
    var w1 := Create(w, n);
    RunKeepsSaved(w1, ops, n.t);
    var w2 := Run(w1, ops).value;
    YieldResumes(w2, ret2);
    var t := n.t;
    assert t in w2.ring && TaskPlaced(w2, w2.ring[1]) && Suspended(w2, w2.ring[1]);
    forall k | 0 <= k < 5 ensures YieldMem(w2, ret2)[n.stack.hi - 20 + 4 * k] == IretFrame(n)[k] {
      YieldKeepsStack(w2, ret2, t, n.stack.hi - 20 + 4 * k);
    }
  }

  // ----- round robin -----

  ghost function Distance(ring: seq<Word>, t: Word): (d: nat)
    requires t in ring
    ensures d < |ring| && ring[d] == t && forall k | 0 <= k < d :: ring[k] != t
  {
    if ring[0] == t then 0 else 1 + Distance(ring[1..], t)
  }

  lemma DistanceIs(ring: seq<Word>, t: Word, d: nat)
    requires d < |ring| && ring[d] == t && forall k | 0 <= k < d :: ring[k] != t
    ensures Distance(ring, t) == d
  {
  }

  ghost function YieldCount(ops: seq<Op>): nat {
    if ops == [] then 0 else (if ops[0].DoYield? then 1 else 0) + YieldCount(ops[1..])
  }

  ghost function CreateCount(ops: seq<Op>): nat {
    if ops == [] then 0 else (if ops[0].DoCreate? then 1 else 0) + CreateCount(ops[1..])
  }

  /** Every yield brings a waiting task one place nearer, every creation puts one task before it. */
  lemma StepDistance(w: World, op: Op, t: Word)
    requires Inv(w) && Enabled(w, op) && t in w.ring[1..]
    ensures t in w.ring && t in Step(w, op).ring
    ensures Distance(Step(w, op).ring, t) == Distance(w.ring, t)
              + (if op.DoCreate? then 1 else 0) - (if op.DoYield? then 1 else 0)
  {
    hide Inv, CanCreate, YieldMem, CreateMem;
    NotCurrent(w, t);
    match op
    case DoYield(ret) => Rotated(w.ring, t);
    case DoCreate(n) =>
      assert n.t !in w.ring by { NotYetThere(w, n); }
      Inserted(w.ring, n.t, t);
    case DoRun(m, r) =>
  }

  lemma NotCurrent(w: World, t: Word)
    requires Inv(w) && t in w.ring[1..]
    ensures |w.ring| > 1 && t in w.ring && t != w.ring[0]
  {
    var i :| 1 <= i < |w.ring| && w.ring[i] == t;
  }

  lemma NotYetThere(w: World, n: NewTask)
    requires CanCreate(w, n)
    ensures n.t !in w.ring
  {
  }

  lemma Rotated(ring: seq<Word>, t: Word)
    requires |ring| > 1 && t in ring && t != ring[0]
    ensures var ring' := ring[1..] + [ring[0]]; t in ring' && Distance(ring', t) == Distance(ring, t) - 1
  {
    var d := Distance(ring, t);
    var ring' := ring[1..] + [ring[0]];
    assert ring'[d - 1] == t && forall k | 0 <= k < d - 1 :: ring'[k] == ring[k + 1];
    DistanceIs(ring', t, d - 1);
  }

  lemma Inserted(ring: seq<Word>, x: Word, t: Word)
    requires |ring| > 0 && t in ring && t != ring[0] && x != t
    ensures var ring' := [ring[0], x] + ring[1..]; t in ring' && Distance(ring', t) == Distance(ring, t) + 1
  {
    var d := Distance(ring, t);
    var ring' := [ring[0], x] + ring[1..];
    assert ring'[d + 1] == t && forall k | 2 <= k < d + 1 :: ring'[k] == ring[k - 1];
    DistanceIs(ring', t, d + 1);
  }

  /** In every state but the last one t waits. */
  ghost predicate WaitsUntilEnd(w: World, ops: seq<Op>, t: Word)
    requires Inv(w)
    decreases |ops|
  {
    ops != [] ==>
      && t in w.ring[1..]
      && (Enabled(w, ops[0]) ==> (StepKeepsInv(w, ops[0]); WaitsUntilEnd(Step(w, ops[0]), ops[1..], t)))
  }

  /** Round robin with exact waiting time: a task at distance d from the current one runs after
      exactly d plus the number of creations in between yields, and not before. */
  lemma {:induction false} WaitingTime(w: World, ops: seq<Op>, t: Word)
    requires Inv(w) && t in w.ring && Run(w, ops).Some? && WaitsUntilEnd(w, ops, t)
    ensures t in Run(w, ops).value.ring
    ensures Distance(Run(w, ops).value.ring, t) == Distance(w.ring, t) + CreateCount(ops) - YieldCount(ops)
    ensures Run(w, ops).value.ring[0] == t <==> YieldCount(ops) == Distance(w.ring, t) + CreateCount(ops)
    decreases |ops|
  {
    if ops != [] {
      hide Step, Inv, Enabled;
      StepKeepsInv(w, ops[0]);
      StepDistance(w, ops[0], t);
      WaitingTime(Step(w, ops[0]), ops[1..], t);
    }
  }

  /** The ring is always one cycle through every task, with exactly one task RUNNING. */
  lemma OneCycle(w: World, i: nat)
    requires Inv(w) && i < |w.ring|
    ensures w.ring[i] + TCB_SIZE <= |w.mem|
    ensures w.mem[w.ring[i] + NEXT] == Next(w.ring, i)
    ensures w.mem[w.ring[i] + STATE] == RUNNING <==> i == 0
    ensures forall j | 0 <= j < |w.ring| && j != i :: w.ring[j] != w.ring[i]
  {
    assert w.ring[i] in w.ring && TaskPlaced(w, w.ring[i]) && LinkOk(w, i);
  }
}
