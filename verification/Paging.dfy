/** arch/x86/paging.c on physical memory: tables are written entry by entry, in place. */
module Paging {
  import opened Words
  import opened Options
  import opened PageRuns
  import opened PageTables
  import opened AddressSpaces
  import opened Pmm

  // ----- how many kernel-region pages are left -----

  /** The pages of the kernel region. */
  function Window(used: seq<bool>): seq<bool> {
    if |used| < KERNEL_END_IDX then used else used[..KERNEL_END_IDX]
  }

  function KernelFree(used: seq<bool>): nat {
    FreeCount(Window(used))
  }

  /** The kernel-region allocator succeeds exactly while a kernel-region page is free, and takes one. */
  lemma KernelPageSupply(used: seq<bool>)
    ensures Answer(used, KernelPage) >= -1 && (Answer(used, KernelPage) != -1 <==> KernelFree(used) > 0)
    ensures KernelFree(used) > 0 ==> KernelFree(After(used, KernelPage)) == KernelFree(used) - 1
  {
    var window := Window(used);
    var a := Answer(used, KernelPage);
    if KernelFree(used) > 0 {
      assert false in multiset(window);
      assert false in window;
      var i :| 0 <= i < |window| && !window[i];
      assert RunFree(used, i, 1);
    }
    if a != -1 {
      WindowTaken(used);
    }
  }

  lemma WindowTaken(used: seq<bool>)
    requires Answer(used, KernelPage) != -1
    ensures KernelFree(used) == KernelFree(After(used, KernelPage)) + 1
  {
    var a := Answer(used, KernelPage);
    var window := Window(used);
    assert !used[a] && !window[a];
    hide Answer, FreeCount;
    TakeOne(window, a);
    assert Window(After(used, KernelPage)) == window[a := true];
  }

  /** The table with which `paging_init` maps the 4 MB block i of a memory of n frames to itself. */
  function IdentityTable(i: nat, n: nat): Table
    requires i < ENTRIES && n < TWO_TO_32 / PAGE_SIZE
  {
    seq(ENTRIES, j requires 0 <= j < ENTRIES =>
      if Page(i, j).Number() < n then Entry(Page(i, j).Number(), FLAGS_KERNEL) else 0)
  }

  function ZeroTable(): Table {
    seq(ENTRIES, _ => 0)
  }

  /** `paging_init` after n page tables: the first n blocks map themselves, the rest is empty. */
  ghost predicate Built(w: World, n: nat) {
    && ShapeOk(w) && n <= ENTRIES && w.spaces == []
    && (forall i | n <= i < ENTRIES :: w.m[w.kpd][i] == 0)
    && forall i | 0 <= i < n :: BuiltEntry(w, i)
  }

  ghost predicate BuiltEntry(w: World, i: nat)
    requires ShapeOk(w) && i < ENTRIES
  {
    var e := w.m[w.kpd][i];
    && e % PAGE_SIZE == FLAGS_KERNEL && FrameOf(e) in w.owner && w.owner[FrameOf(e)] == KernelPt(i)
    && w.m[FrameOf(e)] == IdentityTable(i, |w.m|)
  }

  lemma BuiltShape(w: World, n: nat)
    requires Built(w, n)
    ensures ShapeOk(w) && w.spaces == []
  {
  }

  lemma BuildOneMore(w: World, n: nat, f: nat, used: seq<bool>)
    requires Built(w, n) && n < ENTRIES && Fresh(w, f, used)
    ensures Built(World(Put(w.m, w.kpd, n, Entry(f, FLAGS_KERNEL))[f := IdentityTable(n, |w.m|)], used, w.kpd,
                        w.owner[f := KernelPt(n)], []), n + 1)
  {
    var w' := World(Put(w.m, w.kpd, n, Entry(f, FLAGS_KERNEL))[f := IdentityTable(n, |w.m|)], used, w.kpd,
                    w.owner[f := KernelPt(n)], []);
    assert ShapeOk(w');
    forall i | 0 <= i < n + 1 ensures BuiltEntry(w', i) {
      assert i < n ==> BuiltEntry(w, i);
    }
  }

  /** Memory is mapped to itself, nothing else is mapped, and nothing is open to user mode. */
  ghost predicate IdentityMapped(w: World) {
    forall p: Page | p.Ok() ::
      Walk(w.m, w.kpd, p) == if p.Number() < |w.m| then Some(Mapping(p.Number(), false, true)) else None
  }

  lemma BuiltIsIdentity(w: World, n: nat)
    requires Built(w, n) && |w.m| <= n * ENTRIES
    ensures Inv(w) && IdentityMapped(w)
  {
    forall i | 0 <= i < ENTRIES ensures KernelEntryOk(w, i) {
      assert i < n ==> BuiltEntry(w, i);
    }
    forall i, j | 0 <= i < ENTRIES && 0 <= j < ENTRIES ensures KernelTableOk(w, i, j) {
      assert i < n ==> BuiltEntry(w, i);
    }
    forall p: Page | p.Ok()
      ensures Walk(w.m, w.kpd, p) == if p.Number() < |w.m| then Some(Mapping(p.Number(), false, true)) else None
    {
      if p.dir < n {
        assert BuiltEntry(w, p.dir);
        FlagBits(w.m[w.kpd][p.dir]);
        if p.Number() < |w.m| {
          FlagBits(Entry(p.Number(), FLAGS_KERNEL));
        }
      }
    }
  }

  /** A store into a kernel page table before any task exists changes one translation. */
  lemma KernelTableStore(w: World, p: Page, e: Word)
    requires Inv(w) && w.spaces == [] && p.Ok() && w.m[w.kpd][p.dir] != 0
    requires !Present(e) || e == Entry(p.Number(), FLAGS_KERNEL)
    ensures FrameOf(w.m[w.kpd][p.dir]) < |w.m|
    ensures var w' := w.(m := Put(w.m, FrameOf(w.m[w.kpd][p.dir]), p.entry, e));
            && Inv(w')
            && (forall q: Page | q.Ok() && q != p :: Walk(w'.m, w'.kpd, q) == Walk(w.m, w.kpd, q))
            && Walk(w'.m, w'.kpd, p) == if Present(e) then Some(Mapping(p.Number(), false, true)) else None
  {
    assert KernelEntryOk(w, p.dir);
    var w' := w.(m := Put(w.m, FrameOf(w.m[w.kpd][p.dir]), p.entry, e));
    forall i | 0 <= i < ENTRIES ensures KernelEntryOk(w', i) {
      assert KernelEntryOk(w, i);
    }
    forall i, j | 0 <= i < ENTRIES && 0 <= j < ENTRIES ensures KernelTableOk(w', i, j) {
      assert KernelTableOk(w, i, j) && KernelEntryOk(w, i);
    }
    forall q: Page | q.Ok() && q != p ensures Walk(w'.m, w'.kpd, q) == Walk(w.m, w.kpd, q) {
      assert KernelEntryOk(w, q.dir);
    }
    FlagBits(w.m[w.kpd][p.dir]);
    FlagBits(e);
  }

  /** The kernel's directory with an empty table in frame f for block i. */
  ghost function KernelTableAdded(w: World, i: nat, f: nat, used: seq<bool>): World
    requires w.kpd < |w.m| && f < |w.m| && i < ENTRIES && f < TWO_TO_32 / PAGE_SIZE
  {
    World(Put(w.m[f := ZeroTable()], w.kpd, i, Entry(f, FLAGS_KERNEL)), used, w.kpd, w.owner[f := KernelPt(i)], [])
  }

  lemma AddedWorld(w: World, i: nat, f: nat, used: seq<bool>)
    requires w.kpd < |w.m| && f < |w.m| < TWO_TO_32 / PAGE_SIZE && i < ENTRIES
    ensures KernelTableAdded(w, i, f, used) ==
            World(Put(w.m[f := ZeroTable()], w.kpd, i, f * PAGE_SIZE + FLAGS_KERNEL), used, w.kpd, w.owner[f := KernelPt(i)], [])
    ensures KernelTableAdded(w, i, f, used).m[w.kpd][i] != 0
  {
  }

  lemma EmptyOrLinked(w: World, i: nat)
    requires Inv(w) && i < ENTRIES
    ensures ShapeOk(w) && w.kpd < |w.m| && (w.m[w.kpd][i] == 0 || Present(w.m[w.kpd][i]))
  {
    assert KernelEntryOk(w, i);
    FlagBits(w.m[w.kpd][i]);
  }

  /** Hanging an empty table into the kernel's directory changes no translation. */
  lemma KernelTableAdd(w: World, i: nat, f: nat, used: seq<bool>)
    requires Inv(w) && w.spaces == [] && i < ENTRIES && w.kpd < |w.m| < TWO_TO_32 / PAGE_SIZE && w.m[w.kpd][i] == 0 && Fresh(w, f, used)
    ensures f < |w.m|
    ensures var w' := KernelTableAdded(w, i, f, used);
            && Inv(w')
            && forall q: Page | q.Ok() :: Walk(w'.m, w'.kpd, q) == Walk(w.m, w.kpd, q)
  {
    var w' := KernelTableAdded(w, i, f, used);
    assert ShapeOk(w');
    forall k | 0 <= k < ENTRIES ensures KernelEntryOk(w', k) {
      assert KernelEntryOk(w, k);
    }
    forall k, j | 0 <= k < ENTRIES && 0 <= j < ENTRIES ensures KernelTableOk(w', k, j) {
      assert KernelTableOk(w, k, j) && KernelEntryOk(w, k);
    }
    forall q: Page | q.Ok() ensures Walk(w'.m, w'.kpd, q) == Walk(w.m, w.kpd, q) {
      assert KernelEntryOk(w, q.dir);
    }
  }

  /** Every directory that a task runs on leads to frames of physical memory. */
  lemma DirectoryFrames(w: World, pd: nat, i: nat)
    requires Inv(w) && i < ENTRIES && (pd == w.kpd || exists t :: 0 <= t < |w.spaces| && w.spaces[t].pd == pd)
    ensures pd < |w.m| && FrameOf(w.m[pd][i]) < |w.m|
  {
    assert KernelEntryOk(w, i);
    if pd != w.kpd {
      var t :| 0 <= t < |w.spaces| && w.spaces[t].pd == pd;
      EntryFrames(w, t, i);
    }
  }

  // ----- creating tasks -----

  /** What `task_create_user_with_pages` ends in.  The three refusals return NULL and keep what
      they had allocated; Faulted stands for the null-pointer store that halts the machine. */
  datatype Creation =
    | NoKernelStack
    | NoDirectory
    | NoUserStack
    | Faulted
    | Created(kstackTop: Word, cr3: Word, ustackTop: Word, ustackPage: Word)

  /** A page of the user region that the allocator has granted to somebody. */
  ghost predicate IsUserPage(used: seq<bool>, address: Word) {
    address % PAGE_SIZE == 0 && TakenUserFrame(used, address / PAGE_SIZE)
  }

  ghost function PageSet(addresses: seq<Word>): set<Page> {
    set k | 0 <= k < |addresses| :: PageAt(addresses[k])
  }

  lemma PageSetStep(addresses: seq<Word>, i: nat)
    requires i < |addresses|
    ensures PageSet(addresses[..i + 1]) == PageSet(addresses[..i]) + {PageAt(addresses[i])}
  {
    hide PageAt;
    var a, b := addresses[..i], addresses[..i + 1];
    forall p | p in PageSet(b) ensures p in PageSet(a) + {PageAt(addresses[i])} {
      var k :| 0 <= k < |b| && p == PageAt(b[k]);
      assert k < i ==> a[k] == b[k];
    }
    forall p | p in PageSet(a) ensures p in PageSet(b) {
      var k :| 0 <= k < |a| && p == PageAt(a[k]);
      assert b[k] == a[k];
    }
    assert b[i] == addresses[i];
  }

  lemma NoPages(addresses: seq<Word>)
    ensures PageSet(addresses[..0]) == {} && |Dirs({})| == 0
  {
    assert Dirs({}) == {};
  }

  /** The n pages from `address` on were free. */
  ghost predicate FreshPages(used: seq<bool>, address: int, n: nat) {
    address % PAGE_SIZE == 0 && RunFree(used, (address - MANAGED_BASE) / PAGE_SIZE, n)
  }

  /** A taken frame of the kernel region that is no page table. */
  ghost predicate Reserved(w: World, f: nat) {
    TakenKernelFrame(w.used, f) && f !in w.owner
  }

  lemma MarkStepSpaces(w: World, t: nat, p: Page, f: nat)
    requires Inv(w) && Enabled(w, MarkPage(t, p)) && MarkStep(w, t, p).Some? && Reserved(w, f)
    ensures var w' := MarkStep(w, t, p).value;
            && w'.spaces == w.spaces[t := Space(w.spaces[t].pd, w.spaces[t].pages + {p})]
            && |w'.m| == |w.m| && Reserved(w', f) && KeepsUsed(w.used, w'.used)
  {
    hide OpenPage, Privatise;
  }

  ghost predicate KeepsUsed(used: seq<bool>, used': seq<bool>) {
    |used'| == |used| && forall i | 0 <= i < |used| && used[i] :: used'[i]
  }

  lemma StillUserPages(used: seq<bool>, used': seq<bool>, addresses: seq<Word>)
    requires KeepsUsed(used, used') && forall k | 0 <= k < |addresses| :: IsUserPage(used, addresses[k])
    ensures forall k | 0 <= k < |addresses| :: IsUserPage(used', addresses[k])
  {
  }

  lemma CloneKeepsReserved(w: World, f: nat)
    requires Inv(w) && Reserved(w, f)
    ensures var w' := CloneStep(w);
            && Reserved(w', f) && |w'.m| == |w.m| && KeepsUsed(w.used, w'.used)
  {
  }

  lemma CloneUsed(w: World)
    requires Inv(w)
    ensures CloneStep(w).used == After(w.used, KernelPage) && (FreshFrame(w.used) == -1 <==> Answer(w.used, KernelPage) == -1)
    ensures FreshFrame(w.used) == -1 ==> After(w.used, KernelPage) == w.used
  {
  }

  lemma Replies(used: seq<bool>, q: Request)
    ensures Reply(used, q) == 0 <==> Answer(used, q) == -1
    ensures Answer(used, q) == -1 ==> After(used, q) == used
  {
  }

  lemma TakeGrows(used: seq<bool>, q: Request)
    ensures KeepsUsed(used, After(used, q))
  {
  }

  lemma TakeNothing(used: seq<bool>, q: Request)
    requires Reply(used, q) == 0
    ensures After(used, q) == used
  {
  }

  lemma StackReserved(w: World)
    requires Inv(w) && Reply(w.used, KernelRun(2)) != 0
    ensures var base := Reply(w.used, KernelRun(2));
            && Reserved(w.(used := After(w.used, KernelRun(2))), base / PAGE_SIZE + 1)
            && base % PAGE_SIZE == 0 && FreshPages(w.used, base, 2)
  {
  }

  lemma UserPageFresh(used0: seq<bool>, used1: seq<bool>)
    requires KeepsUsed(used0, used1) && FIRST_FRAME + |used0| < TWO_TO_32 / PAGE_SIZE
    ensures 0 <= Reply(used1, UserPage) < TWO_TO_32 - PAGE_SIZE
    ensures Reply(used1, UserPage) != 0 ==>
              FreshPages(used0, Reply(used1, UserPage), 1) && IsUserPage(After(used1, UserPage), Reply(used1, UserPage))
  {
  }

  // ----- when a creation succeeds -----

  /** The page tables that the pages lie in. */
  ghost function Dirs(pages: set<Page>): set<nat> {
    set p | p in pages :: p.dir
  }

  lemma DirsTouched(pages: set<Page>, i: nat)
    ensures i in Dirs(pages) <==> Touched(pages, i)
  {
    if p :| p in pages && p.dir == i {
      assert Page(i, p.entry) in pages;
    }
    if j :| Page(i, j) in pages {
      assert Page(i, j).dir == i;
    }
  }

  lemma DirsUnion(a: set<Page>, b: set<Page>)
    ensures Dirs(a + b) == Dirs(a) + Dirs(b)
  {
    forall i | i in Dirs(a) + Dirs(b) ensures i in Dirs(a + b) {
      var p :| p in a + b && p.dir == i;
    }
  }

  lemma DirsOne(p: Page)
    ensures Dirs({p}) == {p.dir}
  {
    assert p in {p};
  }

  lemma SubsetSize(a: set<nat>, b: set<nat>)
    requires a <= b
    ensures |a| <= |b|
  {
    assert b == a + (b - a);
  }

  /** A marking takes a frame exactly for the first page of a table, and fails exactly if there is
      none then. */
  lemma MarkSupply(w: World, t: nat, p: Page)
    requires Inv(w) && Enabled(w, MarkPage(t, p))
    ensures var r := MarkStep(w, t, p);
            && (r.None? <==> p.dir !in Dirs(w.spaces[t].pages) && KernelFree(w.used) == 0)
            && (r.Some? ==> KernelFree(r.value.used) + (if p.dir in Dirs(w.spaces[t].pages) then 0 else 1) == KernelFree(w.used))
  {
    hide OpenPage, Privatise, Answer, After, KernelFree, Dirs;
    DirsTouched(w.spaces[t].pages, p.dir);
    SharedIffUntouched(w, t, p.dir);
    KernelPageSupply(w.used);
  }

  /** The tables that marking one page more needs. */
  lemma OneTableMore(owned: set<Page>, marked: set<Page>, p: Page)
    ensures |Dirs(marked + {p}) - Dirs(owned)| == |Dirs(marked) - Dirs(owned)| + if p.dir in Dirs(owned + marked) then 0 else 1
  {
    hide Dirs;
    DirsUnion(marked, {p});
    DirsUnion(owned, marked);
    DirsOne(p);
    var a, b := Dirs(marked) - Dirs(owned), Dirs(marked + {p}) - Dirs(owned);
    assert b == if p.dir in Dirs(owned + marked) then a else a + {p.dir};
  }

  lemma MoreTables(owned: set<Page>, addresses: seq<Word>, i: nat)
    requires i <= |addresses|
    ensures |Dirs(PageSet(addresses[..i])) - Dirs(owned)| <= |Dirs(PageSet(addresses)) - Dirs(owned)|
  {
    hide PageAt;
    var a, b := PageSet(addresses[..i]), PageSet(addresses);
    forall p | p in a ensures p in b {
      var k :| 0 <= k < i && p == PageAt(addresses[..i][k]);
      assert addresses[k] == addresses[..i][k];
    }
    SubsetSize(Dirs(a) - Dirs(owned), Dirs(b) - Dirs(owned));
  }

  /** A granted run of the kernel region takes its length off the free pages of that region. */
  lemma KernelRunTakes(used: seq<bool>, n: nat)
    requires Answer(used, KernelRun(n)) != -1
    ensures KernelFree(After(used, KernelRun(n))) == KernelFree(used) - n
  {
    hide FreeCount;
    var a := Answer(used, KernelRun(n));
    MarkTakesFree(Window(used), a, n);
    assert Window(Mark(used, a, n)) == Mark(Window(used), a, n);
  }

  /** A request of one region leaves the other one as it is. */
  lemma RegionsApart(used: seq<bool>, q: Request)
    ensures q.ForUser() ==> KernelFree(After(used, q)) == KernelFree(used)
    ensures !q.ForUser() ==> Answer(After(used, q), UserPage) == Answer(used, UserPage)
  {
    if q.ForUser() {
      assert Window(After(used, q)) == Window(used);
    } else {
      var used' := After(used, q);
      forall a ensures Wanted(used', UserPage, a) <==> Wanted(used, UserPage, a) { }
      RefusedExactly(used, UserPage);
      RefusedExactly(used', UserPage);
    }
  }

  /** Two pages in a row for the kernel stack, and a third one for the directory. */
  ghost predicate HasDirectory(used: seq<bool>) {
    Answer(used, KernelRun(2)) != -1 && 3 <= KernelFree(used)
  }

  /** Also a page for the user stack, unless the caller brings one. */
  ghost predicate HasStacks(used: seq<bool>, userEsp: Word) {
    HasDirectory(used) && (userEsp == 0 ==> Answer(used, UserPage) != -1)
  }

  /** The pages that are marked once the stacks and the directory are there. */
  ghost function Marks(c: Creation, userPages: seq<Word>): set<Page>
    requires c.Created?
  {
    PageSet(userPages) + if c.ustackPage != 0 then {PageAt(c.ustackPage)} else {}
  }

  lemma OnlyPage(address: Word)
    ensures PageSet([address]) == {PageAt(address)}
  {
    assert [address][0] == address;
  }

  /** Two sets of marks one after the other need the tables of their union. */
  lemma TablesOfBoth(a: set<Page>, b: set<Page>)
    ensures |Dirs(a) - Dirs({})| == |Dirs(a)| && a + {} == a == {} + a
    ensures |Dirs(a)| + |Dirs(b) - Dirs(a)| == |Dirs(a + b)|
  {
    assert Dirs({}) == {} && Dirs(a) - {} == Dirs(a);
    DirsUnion(a, b);
    assert Dirs(a) + (Dirs(b) - Dirs(a)) == Dirs(a) + Dirs(b);
  }

  /** The pages that a creation marks. */
  ghost function MarkedPages(used: seq<bool>, userEsp: Word, userPages: seq<Word>): set<Page> {
    PageSet(userPages) + if userEsp == 0 && 0 <= Reply(used, UserPage) < TWO_TO_32 then {PageAt(Reply(used, UserPage))} else {}
  }

  /** The page bitmap after the allocations of a creation other than its page tables. */
  ghost function AfterStacks(used: seq<bool>, userEsp: Word): seq<bool> {
    var used2 := After(After(used, KernelRun(2)), KernelPage);
    if userEsp == 0 then After(used2, UserPage) else used2
  }

  /** What the three allocations of a creation find and leave. */
  lemma StackSupply(used: seq<bool>, userEsp: Word)
    ensures Answer(used, KernelRun(2)) != -1 ==>
              KernelFree(After(used, KernelRun(2))) == KernelFree(used) - 2
    ensures Answer(used, KernelRun(2)) != -1 ==>
              (Answer(After(used, KernelRun(2)), KernelPage) == -1 <==> !HasDirectory(used))
    ensures Answer(After(After(used, KernelRun(2)), KernelPage), UserPage) == Answer(used, UserPage)
    ensures Reply(After(After(used, KernelRun(2)), KernelPage), UserPage) == Reply(used, UserPage)
    ensures HasDirectory(used) ==> Answer(used, KernelRun(2)) != -1
    ensures HasDirectory(used) ==> KernelFree(AfterStacks(used, userEsp)) == KernelFree(used) - 3
  {
    hide Answer, After, KernelFree;
    var used1 := After(used, KernelRun(2));
    var used2 := After(used1, KernelPage);
    if Answer(used, KernelRun(2)) != -1 { KernelRunTakes(used, 2); }
    KernelPageSupply(used1);
    RegionsApart(used, KernelRun(2));
    RegionsApart(used1, KernelPage);
    RegionsApart(used2, UserPage);
  }

  /** The translation of page q once [start, addr) has been mapped. */
  ghost predicate MappedUpTo(m0: Phys, m: Phys, kpd: nat, q: Page, start: int, addr: int)
    requires q.Ok()
  {
    Walk(m, kpd, q) == if start <= q.Number() * PAGE_SIZE < addr then Some(Mapping(q.Number(), false, true)) else Walk(m0, kpd, q)
  }

  /** `free` pages are enough for the tables of the blocks from addr on. */
  ghost predicate SupplyLeft(physAddr: int, size: int, addr: int, free: int) {
    free + addr / 0x40_0000 >= (physAddr + size) / 0x40_0000 + if addr == PageBase(physAddr) || addr % 0x40_0000 == 0 then 1 else 0
  }

  /** What `pmm_alloc_page` answers, in frames. */
  lemma FrameReply(used: seq<bool>)
    requires FIRST_FRAME + |used| < TWO_TO_32 / PAGE_SIZE
    ensures var r := Reply(used, KernelPage);
            if r == 0 then FreshFrame(used) == -1 && After(used, KernelPage) == used
            else
              && r % PAGE_SIZE == 0 && 0 < r < TWO_TO_32 && FrameOf(r) == FreshFrame(used) < FIRST_FRAME + |used|
              && FreshFrame(used) != -1 && TakenKernelFrame(After(used, KernelPage), FrameOf(r))
  {
  }

  const PT_SPAN := 0x40_0000

  lemma FirstSupply(physAddr: Word, size: Word, free: nat)
    requires free > (physAddr + size) / PT_SPAN - physAddr / PT_SPAN
    ensures SupplyLeft(physAddr, size, PageBase(physAddr), free)
  {
  }

  lemma SupplySuffices(physAddr: Word, size: Word, addr: int, free: nat)
    requires addr % PAGE_SIZE == 0 && PageBase(physAddr) <= addr < PageBase(physAddr + size + PAGE_SIZE - 1) < TWO_TO_32
    requires SupplyLeft(physAddr, size, addr, free)
    ensures addr / PT_SPAN < ENTRIES
    ensures addr == PageBase(physAddr) || addr % PT_SPAN == 0 ==> free > 0
  {
    assert addr < physAddr + size by {
      var top: int := physAddr + size + PAGE_SIZE - 1;
      PageStep(addr, PageBase(top));
      assert PageBase(top) <= top;
    }
    hide PageBase;
    DivMono(addr, physAddr + size);
    DivMono(addr, TWO_TO_32 - 1);
  }

  lemma DivMono(x: int, y: int)
    requires x <= y
    ensures x / PT_SPAN <= y / PT_SPAN
  {
    var q, r := x / PT_SPAN, y / PT_SPAN;
    assert x == q * PT_SPAN + x % PT_SPAN && y == r * PT_SPAN + y % PT_SPAN;
    assert (r - q) * PT_SPAN > -PT_SPAN;
  }

  lemma SupplyNext(physAddr: Word, size: Word, addr: int, free: nat, taken: int)
    requires addr % PAGE_SIZE == 0 && PageBase(physAddr) <= addr && SupplyLeft(physAddr, size, addr, free)
    requires taken <= if addr == PageBase(physAddr) || addr % PT_SPAN == 0 then 1 else 0
    ensures SupplyLeft(physAddr, size, addr + PAGE_SIZE, free - taken)
    ensures (addr + PAGE_SIZE) % PAGE_SIZE == 0
    ensures (addr + PAGE_SIZE) % PT_SPAN != 0 ==> (addr + PAGE_SIZE) / PT_SPAN == addr / PT_SPAN
  {
    var q, r := addr / PT_SPAN, addr % PT_SPAN;
    assert addr == q * PT_SPAN + r;
    RestInPages(addr);
    NextPage(addr, PageBase(physAddr));
    hide PageBase;
    if r + PAGE_SIZE < PT_SPAN {
      Quotient(addr + PAGE_SIZE, q, r + PAGE_SIZE);
    } else {
      assert r == PT_SPAN - PAGE_SIZE;
      Quotient(addr + PAGE_SIZE, q + 1, 0);
    }
  }

  lemma RestInPages(addr: int)
    requires addr % PAGE_SIZE == 0
    ensures addr % PT_SPAN % PAGE_SIZE == 0
    ensures addr % PT_SPAN + PAGE_SIZE >= PT_SPAN ==> addr % PT_SPAN == PT_SPAN - PAGE_SIZE
  {
    var q, n := addr / PT_SPAN, addr / PAGE_SIZE;
    assert addr % PT_SPAN == (n - q * 1024) * PAGE_SIZE;
  }

  lemma NextPage(addr: int, base: int)
    requires addr % PAGE_SIZE == 0 && base <= addr
    ensures (addr + PAGE_SIZE) % PAGE_SIZE == 0 && addr + PAGE_SIZE != base
  {
  }

  lemma PageBases(physAddr: Word, size: Word)
    requires physAddr + size + PAGE_SIZE - 1 < TWO_TO_32
    ensures var start, end := PageBase(physAddr), PageBase(physAddr + size + PAGE_SIZE - 1);
            0 <= start <= end < TWO_TO_32 && start % PAGE_SIZE == 0 && end % PAGE_SIZE == 0
  {
  }

  lemma PageStep(addr: int, end: int)
    requires addr % PAGE_SIZE == 0 && end % PAGE_SIZE == 0 && addr < end
    ensures addr + PAGE_SIZE <= end
  {
  }

  lemma PageBelow(n: nat, physAddr: Word, size: Word)
    ensures n * PAGE_SIZE < PageBase(physAddr + size + PAGE_SIZE - 1) <==> n * PAGE_SIZE < physAddr + size
  {
  }

  lemma Quotient(x: int, q: int, r: int)
    requires x == q * PT_SPAN + r && 0 <= r < PT_SPAN
    ensures x / PT_SPAN == q && x % PT_SPAN == r
  {
  }

  class Mmu {
    const mem: array2<Word>    // mem[f, j]: the word at physical address f * 4096 + 4 * j
    const pmm: Allocator
    var pdPhys: Word
    ghost var m: Phys
    ghost var owner: map<nat, Role>
    ghost var spaces: seq<Space>

    ghost predicate Valid()
      reads this, mem, pmm, pmm.bitmap
    {
      && mem.Length1 == ENTRIES && |m| == mem.Length0
      && (forall f, j | 0 <= f < |m| && 0 <= j < ENTRIES :: m[f][j] == mem[f, j])
      && pmm.Valid() && |m| == FIRST_FRAME + |pmm.used| && |m| < TWO_TO_32 / PAGE_SIZE
    }

    ghost function W(): World
      reads this, pmm
    {
      World(m, pmm.used, FrameOf(pdPhys), owner, spaces)
    }

    /** After boot: the kernel's tables stand and every task is isolated. */
    ghost predicate Booted()
      reads this, mem, pmm, pmm.bitmap
    {
      Valid() && pdPhys % PAGE_SIZE == 0 && Inv(W())
    }

    constructor (memory: array2<Word>, allocator: Allocator)
      requires memory.Length1 == ENTRIES && allocator.Valid()
      requires memory.Length0 == FIRST_FRAME + |allocator.used| < TWO_TO_32 / PAGE_SIZE
      ensures Valid() && mem == memory && pmm == allocator
    {
      mem := memory;
      pmm := allocator;
      pdPhys := 0;
      m := seq(memory.Length0, f requires 0 <= f < memory.Length0 reads memory =>
        seq(ENTRIES, j requires 0 <= j < ENTRIES reads memory => memory[f, j]));
      owner := map[];
      spaces := [];
    }

    // ----- single loads and stores -----

    /** `table[j]` for the table at a page-aligned physical address. */
    method Load(table: Word, j: nat) returns (e: Word)
      requires Valid() && FrameOf(table) < |m| && j < ENTRIES
      ensures e == m[FrameOf(table)][j]
    {
      e := mem[table / PAGE_SIZE, j];
    }

    /** `table[j] = e` */
    method Store(table: Word, j: nat, e: Word)
      requires Valid() && FrameOf(table) < |m| && j < ENTRIES
      modifies mem, this`m
      ensures Valid() && m == Put(old(m), FrameOf(table), j, e)
    {
      mem[table / PAGE_SIZE, j] := e;
      m := Put(m, FrameOf(table), j, e);
    }

    // ----- whole tables -----

    method Clear(table: Word)
      requires Valid() && FrameOf(table) < |m|
      modifies mem, this`m
      ensures Valid() && m == old(m)[FrameOf(table) := ZeroTable()]
    {
      var f := FrameOf(table);
      var i := 0;
      while i < ENTRIES
        invariant 0 <= i <= ENTRIES && Valid()
        invariant |m| == |old(m)| && m == old(m)[f := m[f]]
        invariant forall j | 0 <= j < i :: m[f][j] == 0
      {
        Store(table, i, 0);
        i := i + 1;
      }
      assert m[f] == ZeroTable();
    }

    method FillIdentity(table: Word, ptIdx: nat, top: Word)
      requires Valid() && FrameOf(table) < |m| && ptIdx < ENTRIES && top == |m| * PAGE_SIZE
      modifies mem, this`m
      ensures Valid() && m == old(m)[FrameOf(table) := IdentityTable(ptIdx, |m|)]
    {
      var f := FrameOf(table);
      var pteIdx := 0;
      while pteIdx < ENTRIES
        invariant 0 <= pteIdx <= ENTRIES && Valid()
        invariant |m| == |old(m)| && m == old(m)[f := m[f]]
        invariant forall j | 0 <= j < pteIdx :: m[f][j] == IdentityTable(ptIdx, |m|)[j]
      {
        var phys := ptIdx * 0x40_0000 + pteIdx * PAGE_SIZE;
        if phys < top {
          Store(table, pteIdx, phys + FLAGS_KERNEL);
        } else {
          Store(table, pteIdx, 0);
        }
        pteIdx := pteIdx + 1;
      }
      assert m[f] == IdentityTable(ptIdx, |m|);
    }

    /** The two copying loops of `paging_clone_kernel_pd` and `paging_set_user_accessible_for_task`. */
    method Copy(dst: Word, src: Word)
      requires Valid() && FrameOf(dst) < |m| && FrameOf(src) < |m|
      modifies mem, this`m
      ensures Valid() && m == old(m)[FrameOf(dst) := old(m)[FrameOf(src)]]
    {
      var d, s := FrameOf(dst), FrameOf(src);
      var i := 0;
      while i < ENTRIES
        invariant 0 <= i <= ENTRIES && Valid()
        invariant |m| == |old(m)| && m == old(m)[d := m[d]]
        invariant forall j | 0 <= j < i :: m[d][j] == old(m)[s][j]
        invariant forall j | i <= j < ENTRIES :: m[d][j] == old(m)[d][j]
      {
        var e := Load(src, i);
        Store(dst, i, e);
        i := i + 1;
      }
      assert m[d] == old(m)[s];
    }

    // ----- boot -----

    /** One round of the loop of `paging_init`. */
    method BuildTable(ptIdx: nat, top: Word)
      requires Valid() && pdPhys % PAGE_SIZE == 0 && Built(W(), ptIdx) && ptIdx < ENTRIES
      requires top == |m| * PAGE_SIZE && KernelFree(pmm.used) > 0
      modifies this`m, this`owner, mem, pmm, pmm.bitmap
      ensures Valid() && Built(W(), ptIdx + 1) && |m| == |old(m)|
      ensures KernelFree(pmm.used) == KernelFree(old(pmm.used)) - 1
    {
      hide After, Answer, Allocator.BitmapOk, KernelFree, Built, IdentityTable;
      ghost var w := W();
      KernelPageSupply(w.used);
      assert ShapeOk(w) && w.spaces == [] by { BuiltShape(w, ptIdx); }
      var ptPhys := AllocFrame();
      FreshFrameOk(w);
      BuildOneMore(w, ptIdx, FrameOf(ptPhys), pmm.used);
      Store(pdPhys, ptIdx, ptPhys + FLAGS_KERNEL);
      FillIdentity(ptPhys, ptIdx, top);
      owner := owner[FrameOf(ptPhys) := KernelPt(ptIdx)];
    }

    /** `paging_init`: builds the kernel's tables for the memory [0, top). */
    method Init(top: Word)
      requires Valid() && spaces == [] && owner == map[]
      requires top == |m| * PAGE_SIZE && top <= TWO_TO_32 - 0x40_0000
      requires KernelFree(pmm.used) > (top + 0x3F_FFFF) / 0x40_0000
      modifies this, mem, pmm, pmm.bitmap
      ensures Booted() && IdentityMapped(W()) && spaces == []
    {
      hide After, Answer, Allocator.BitmapOk, KernelFree, IdentityTable;
      var numPt := (top + 0x40_0000 - 1) / 0x40_0000;
      KernelPageSupply(pmm.used);
      pdPhys := AllocFrame();
      Clear(pdPhys);
      owner := map[FrameOf(pdPhys) := KernelPd];
      var ptIdx := 0;
      while ptIdx < numPt
        invariant 0 <= ptIdx <= numPt && Valid() && pdPhys % PAGE_SIZE == 0 && |m| == |old(m)|
        invariant KernelFree(pmm.used) >= numPt - ptIdx
        invariant Built(W(), ptIdx) && spaces == []
      {
        BuildTable(ptIdx, top);
        ptIdx := ptIdx + 1;
      }
      BuiltIsIdentity(W(), ptIdx);
    }

    /** `paging_unmap_null_page` */
    method UnmapNullPage()
      requires Booted() && spaces == []
      modifies mem, this`m
      ensures Booted() && Walk(m, W().kpd, Page(0, 0)) == None
      ensures forall q: Page | q.Ok() && q != Page(0, 0) :: Walk(m, W().kpd, q) == Walk(old(m), W().kpd, q)
    {
      ghost var w := W();
      assert KernelEntryOk(w, 0) && KernelTableOk(w, 0, 0);
      var pde := Load(pdPhys, 0);
      if !Present(pde) {
        return;
      }
      var pte := Load(PageBase(pde), 0);
      KernelTableStore(w, Page(0, 0), pte - pte % 2);
      Store(PageBase(pde), 0, pte - pte % 2);
    }

    /** The kernel's directory has a table for the 4 MB block i. */
    ghost predicate Linked(i: nat)
      reads this
    {
      FrameOf(pdPhys) < |m| && i < ENTRIES && m[FrameOf(pdPhys)][i] != 0
    }

    /** The body of `paging_map_phys_range` up to the new page table. */
    method EnsureTable(pdIdx: nat)
      requires Booted() && spaces == [] && pdIdx < ENTRIES
      requires Linked(pdIdx) || KernelFree(pmm.used) > 0
      modifies this`m, this`owner, mem, pmm, pmm.bitmap
      ensures Booted() && Linked(pdIdx)
      ensures KernelFree(pmm.used) == KernelFree(old(pmm.used)) - if old(Linked(pdIdx)) then 0 else 1
      ensures forall q: Page | q.Ok() :: Walk(m, W().kpd, q) == Walk(old(m), W().kpd, q)
    {
      hide After, Answer, Allocator.BitmapOk, KernelFree, Inv, Walk, Fresh, KernelTableAdded;
      ghost var w := W();
      EmptyOrLinked(w, pdIdx);
      var pde := Load(pdPhys, pdIdx);
      if !Present(pde) {
        KernelPageSupply(w.used);
        FreshFrameOk(w);
        var newPt := AllocFrame();
        KernelTableAdd(w, pdIdx, FrameOf(newPt), pmm.used);
        AddedWorld(w, pdIdx, FrameOf(newPt), pmm.used);
        Clear(newPt);
        Store(pdPhys, pdIdx, newPt + FLAGS_KERNEL);
        owner := owner[FrameOf(newPt) := KernelPt(pdIdx)];
      }
    }

    /** The rest of the body: the page is entered into its table. */
    method EnterPage(addr: Word)
      requires Booted() && spaces == [] && addr % PAGE_SIZE == 0 && Linked(PageAt(addr).dir)
      modifies this`m, mem
      ensures Booted() && Linked(PageAt(addr).dir)
      ensures Walk(m, W().kpd, PageAt(addr)) == Some(Mapping(addr / PAGE_SIZE, false, true))
      ensures forall q: Page | q.Ok() && q != PageAt(addr) :: Walk(m, W().kpd, q) == Walk(old(m), W().kpd, q)
    {
      hide Allocator.BitmapOk, KernelTableOk, Walk;
      var pdIdx := addr / 0x40_0000;
      var ptIdx := addr / PAGE_SIZE % ENTRIES;
      FlagBits(addr + FLAGS_KERNEL);
      KernelTableStore(W(), PageAt(addr), addr + FLAGS_KERNEL);
      assert KernelEntryOk(W(), pdIdx);
      var pde := Load(pdPhys, pdIdx);
      Store(PageBase(pde), ptIdx, addr + FLAGS_KERNEL);
    }

    /** `paging_map_phys_range`: maps the pages of [physAddr, physAddr + size) to themselves. */
    method MapPhysRange(physAddr: Word, size: Word)
      requires Booted() && spaces == []
      requires physAddr + size + PAGE_SIZE - 1 < TWO_TO_32
      requires KernelFree(pmm.used) > (physAddr + size) / 0x40_0000 - physAddr / 0x40_0000
      modifies this`m, this`owner, mem, pmm, pmm.bitmap
      ensures Booted()
      ensures forall q: Page | q.Ok() :: Walk(m, W().kpd, q) ==
                if PageBase(physAddr) <= q.Number() * PAGE_SIZE < physAddr + size
                then Some(Mapping(q.Number(), false, true)) else Walk(old(m), W().kpd, q)
    {
      hide KernelFree, Inv, Walk, Booted, Linked, SupplyLeft, PageBase;
      FirstSupply(physAddr, size, KernelFree(pmm.used));
      PageBases(physAddr, size);
      var start := PageBase(physAddr);
      var end := PageBase(physAddr + size + PAGE_SIZE - 1);
      ghost var m0 := m;
      var addr: int := start;
      while addr < end
        invariant start <= addr && addr % PAGE_SIZE == 0 && (addr <= end || addr == start)
        invariant Booted() && spaces == []
        invariant addr != start && addr % 0x40_0000 != 0 ==> Linked(addr / 0x40_0000)
        invariant SupplyLeft(physAddr, size, addr, KernelFree(pmm.used))
        invariant forall q: Page | q.Ok() :: MappedUpTo(m0, m, W().kpd, q, start, addr)
      {
        ghost var free := KernelFree(pmm.used);
        SupplySuffices(physAddr, size, addr, free);
        PageStep(addr, end);
        EnsureTable(addr / 0x40_0000);
        ghost var m1 := m;
        SupplyNext(physAddr, size, addr, free, free - KernelFree(pmm.used));
        EnterPage(addr);
        forall q: Page | q.Ok() ensures MappedUpTo(m0, m, W().kpd, q, start, addr + PAGE_SIZE) {
          assert MappedUpTo(m0, m1, W().kpd, q, start, addr);
        }
        addr := addr + PAGE_SIZE;
      }
      forall q: Page | q.Ok()
        ensures Walk(m, W().kpd, q) ==
                if start <= q.Number() * PAGE_SIZE < physAddr + size
                then Some(Mapping(q.Number(), false, true)) else Walk(m0, W().kpd, q)
      {
        PageBelow(q.Number(), physAddr, size);
        assert MappedUpTo(m0, m, W().kpd, q, start, addr);
      }
    }

    // ----- address spaces -----

    /** A page-table frame from the allocator; 0 if there is none. */
    method AllocFrame() returns (page: Word)
      requires Valid()
      modifies pmm, pmm.bitmap
      ensures Valid() && pmm.used == After(old(pmm.used), KernelPage)
      ensures page == 0 <==> FreshFrame(old(pmm.used)) == -1
      ensures page == 0 ==> pmm.used == old(pmm.used)
      ensures page != 0 ==> page % PAGE_SIZE == 0 && FrameOf(page) == FreshFrame(old(pmm.used)) < |m|
      ensures page != 0 ==> TakenKernelFrame(pmm.used, FrameOf(page))
    {
      hide After, Reply, FreshFrame, TakenKernelFrame, Allocator.BitmapOk;
      FrameReply(pmm.used);
      page := pmm.AllocPage();
    }

    /** `paging_clone_kernel_pd` */
    method CloneKernelPd() returns (newPd: Word)
      requires Booted()
      modifies this`m, this`owner, this`spaces, mem, pmm, pmm.bitmap
      ensures Booted() && W() == CloneStep(old(W()))
      ensures newPd == 0 <==> FreshFrame(old(pmm.used)) == -1
      ensures newPd == 0 ==> W() == old(W())
      ensures newPd != 0 ==> newPd % PAGE_SIZE == 0 && spaces == old(spaces) + [Space(FrameOf(newPd), {})]
    {
      hide After, Answer;
      ghost var w := W();
      CloneKeepsInv(w);
      newPd := AllocFrame();
      if newPd == 0 {
        return;
      }
      FreshFrameOk(w);
      Copy(newPd, pdPhys);
      owner := owner[FrameOf(newPd) := TaskPd(|spaces|)];
      spaces := spaces + [Space(FrameOf(newPd), {})];
    }

    /** The first half of `paging_set_user_accessible_for_task`: make the table private. */
    method MakePrivate(taskPd: Word, pdIdx: nat) returns (newPt: Word)
      requires Valid() && pdPhys % PAGE_SIZE == 0 && FrameOf(pdPhys) < |m| && FrameOf(taskPd) < |m| && pdIdx < ENTRIES
      requires FrameOf(m[FrameOf(pdPhys)][pdIdx]) < |m|
      modifies this`m, mem, pmm, pmm.bitmap
      ensures Valid() && pmm.used == After(old(pmm.used), KernelPage)
      ensures newPt == 0 <==> FreshFrame(old(pmm.used)) == -1
      ensures newPt != 0 ==>
                && 0 <= FreshFrame(old(pmm.used)) < |m|
                && m == Privatise(old(m), FrameOf(pdPhys), FrameOf(taskPd), pdIdx, FreshFrame(old(pmm.used)))
    {
      hide After, Answer;
      newPt := AllocFrame();
      if newPt != 0 {
        var sharedPt := Load(pdPhys, pdIdx);
        Copy(newPt, PageBase(sharedPt));
        Store(taskPd, pdIdx, newPt + FLAGS_KERNEL);
      }
    }

    /** The second half: enter the page and open the directory entry. */
    method Open(taskPd: Word, physAddr: Word)
      requires Valid() && FrameOf(taskPd) < |m| && physAddr % PAGE_SIZE == 0
      requires FrameOf(m[FrameOf(taskPd)][PageAt(physAddr).dir]) < |m|
      modifies this`m, mem
      ensures Valid() && m == OpenPage(old(m), FrameOf(taskPd), PageAt(physAddr))
    {
      var pdIdx := physAddr / 0x40_0000;
      var ptIdx := physAddr / PAGE_SIZE % ENTRIES;
      var pde := Load(taskPd, pdIdx);
      Store(PageBase(pde), ptIdx, physAddr + FLAGS_USER);
      pde := Load(taskPd, pdIdx);
      Store(taskPd, pdIdx, WithUser(pde));
    }

    /** `paging_set_user_accessible_for_task`.  `ok` is false when no page is left for the private
        table: the store through the null pointer faults and the machine halts. */
    method SetUserAccessibleForTask(taskPd: Word, physAddr: Word, ghost t: nat) returns (ok: bool)
      requires Booted() && t < |spaces| && FrameOf(taskPd) == spaces[t].pd && physAddr % PAGE_SIZE == 0
      requires Enabled(W(), MarkPage(t, PageAt(physAddr)))
      modifies this`m, this`owner, this`spaces, mem, pmm, pmm.bitmap
      ensures ok <==> MarkStep(old(W()), t, PageAt(physAddr)).Some?
      ensures ok ==> Booted() && W() == MarkStep(old(W()), t, PageAt(physAddr)).value
    {
      hide After, Answer, OpenPage, Inv, Allocator.BitmapOk;
      ghost var w := W();
      ghost var p := PageAt(physAddr);
      EntryFrames(w, t, p.dir);
      var pdIdx := physAddr / 0x40_0000;
      var taskPde := Load(taskPd, pdIdx);
      var kernelPde := Load(pdPhys, pdIdx);
      if PageBase(taskPde) == PageBase(kernelPde) {
        var newPt := MakePrivate(taskPd, pdIdx);
        if newPt == 0 {
          return false;
        }
        owner := owner[FreshFrame(w.used) := TaskPt(t, p.dir)];
      }
      assert FrameOf(m[FrameOf(taskPd)][p.dir]) < |m|;
      Open(taskPd, physAddr);
      spaces := spaces[t := Space(spaces[t].pd, spaces[t].pages + {p})];
      MarkKeepsInv(w, t, p);
      ok := true;
    }

    /** `page_is_user_accessible` with the `cr3` of the current task: 0 stands for a task without
        a directory of its own, for which the kernel's directory is consulted. */
    method PageIsUserAccessible(vaddr: Word, cr3: Word) returns (yes: bool)
      requires Booted() && (cr3 == 0 || exists t :: 0 <= t < |spaces| && spaces[t].pd == FrameOf(cr3))
      ensures yes <==> UserMayRead(m, FrameOf(if cr3 != 0 then cr3 else pdPhys), PageAt(vaddr))
    {
      var pdIndex := vaddr / 0x40_0000;
      var ptIndex := vaddr / PAGE_SIZE % ENTRIES;
      var pd := if cr3 != 0 then cr3 else pdPhys;
      DirectoryFrames(W(), FrameOf(pd), pdIndex);
      var pde := Load(pd, pdIndex);
      if !Present(pde) { return false; }
      if !User(pde) { return false; }
      var pte := Load(PageBase(pde), ptIndex);
      if !Present(pte) { return false; }
      if !User(pte) { return false; }
      return true;
    }

    /** Any page allocation for other purposes than page tables. */
    method TakePages(q: Request) returns (address: Word)
      requires Booted()
      modifies pmm, pmm.bitmap
      ensures Booted() && W() == old(W()).(used := After(old(pmm.used), q))
      ensures address == Reply(old(pmm.used), q)
    {
      StepKeepsInv(W(), Take(q));
      match q
      case KernelPage => address := pmm.AllocPage();
      case KernelRun(n) => address := pmm.AllocContiguousPages(n);
      case UserPage => address := pmm.AllocUserPage();
      case UserRun(n) => address := pmm.AllocContiguousUserPages(n);
    }

    /** The marking loop of `task_create_user_with_pages`. */
    method MarkAll(taskPd: Word, userPages: seq<Word>, ghost t: nat, ghost stack: nat) returns (ok: bool)
      requires Booted() && t < |spaces| && FrameOf(taskPd) == spaces[t].pd && Reserved(W(), stack)
      requires forall k | 0 <= k < |userPages| :: IsUserPage(pmm.used, userPages[k])
      modifies this`m, this`owner, this`spaces, mem, pmm, pmm.bitmap
      ensures ok <==> |Dirs(PageSet(userPages)) - Dirs(old(spaces)[t].pages)| <= KernelFree(old(pmm.used))
      ensures ok ==> KernelFree(pmm.used) == KernelFree(old(pmm.used)) - |Dirs(PageSet(userPages)) - Dirs(old(spaces)[t].pages)|
      ensures ok ==> KeepsUsed(old(pmm.used), pmm.used)
      ensures ok ==> Booted() && Reserved(W(), stack) && |m| == |old(m)| && |spaces| == |old(spaces)|
      ensures ok ==> spaces == old(spaces)[t := Space(spaces[t].pd, spaces[t].pages)]
      ensures ok ==> spaces[t] == Space(FrameOf(taskPd), old(spaces)[t].pages + PageSet(userPages))
    {
      hide Inv, MarkStep, Allocator.BitmapOk, PageAt, Dirs, KernelFree, PageSet;
      ghost var owned := spaces[t].pages;
      var i := 0;
      NoPages(userPages);
      while i < |userPages|
        invariant 0 <= i <= |userPages| && Booted() && Reserved(W(), stack) && |m| == |old(m)|
        invariant KeepsUsed(old(pmm.used), pmm.used)
        invariant forall k | 0 <= k < |userPages| :: IsUserPage(pmm.used, userPages[k])
        invariant t < |spaces| && spaces == old(spaces)[t := Space(spaces[t].pd, spaces[t].pages)]
        invariant spaces[t] == Space(FrameOf(taskPd), owned + PageSet(userPages[..i]))
        invariant KernelFree(old(pmm.used)) == KernelFree(pmm.used) + |Dirs(PageSet(userPages[..i])) - Dirs(owned)|
      {
        ghost var w := W();
        assert IsUserPage(w.used, userPages[i]);
        MarkSupply(w, t, PageAt(userPages[i]));
        OneTableMore(owned, PageSet(userPages[..i]), PageAt(userPages[i]));
        PageSetStep(userPages, i);
        MoreTables(owned, userPages, i + 1);
        ok := SetUserAccessibleForTask(taskPd, userPages[i], t);
        if !ok { return; }
        MarkStepSpaces(w, t, PageAt(userPages[i]), stack);
        StillUserPages(w.used, pmm.used, userPages);
        i := i + 1;
      }
      assert userPages[..i] == userPages;
      ok := true;
    }

    /** The ten words below the top of a new kernel stack. */
    method BuildFrame(kstackTop: Word, words: seq<Word>)
      requires Booted() && kstackTop % PAGE_SIZE == 0 && kstackTop > 0 && Reserved(W(), FrameOf(kstackTop) - 1)
      requires |words| == 10
      modifies this`m, mem
      ensures Booted() && |m| == |old(m)|
      ensures m == old(m)[FrameOf(kstackTop) - 1 := old(m)[FrameOf(kstackTop) - 1][..1014] + words]
    {
      hide Inv, Allocator.BitmapOk;
      var f := FrameOf(kstackTop) - 1;
      var i := 0;
      while i < 10
        invariant 0 <= i <= 10 && Booted() && |m| == |old(m)| && m == old(m)[f := m[f]]
        invariant forall j | 0 <= j < ENTRIES ::
                    m[f][j] == if 1014 <= j < 1014 + i then words[j - 1014] else old(m)[f][j]
      {
        StepKeepsInv(W(), KernelStore(f, 1014 + i, words[i]));
        Store(kstackTop - PAGE_SIZE, 1014 + i, words[i]);
        i := i + 1;
      }
      assert m[f] == old(m)[f][..1014] + words;
    }

    /** The allocations of `task_create_user_with_pages`. */
    method AllocateTask(userEsp: Word) returns (c: Creation)
      requires Booted()
      modifies this`m, this`owner, this`spaces, mem, pmm, pmm.bitmap
      ensures Booted() && |m| == |old(m)| && !c.Faulted? && KeepsUsed(old(pmm.used), pmm.used)
      ensures c.NoKernelStack? <==> Answer(old(pmm.used), KernelRun(2)) == -1
      ensures c.NoDirectory? <==> Answer(old(pmm.used), KernelRun(2)) != -1 && !HasDirectory(old(pmm.used))
      ensures c.NoUserStack? <==> HasDirectory(old(pmm.used)) && !HasStacks(old(pmm.used), userEsp)
      ensures c.NoKernelStack? ==> W() == old(W())
      ensures c.NoDirectory? ==> W() == old(W()).(used := After(old(pmm.used), KernelRun(2)))
      ensures c.NoUserStack? ==> exists pd :: spaces == old(spaces) + [Space(pd, {})]
      ensures c.NoUserStack? || c.Created? ==> pmm.used == AfterStacks(old(pmm.used), userEsp)
      ensures c.Created? ==>
                && c.kstackTop == Reply(old(pmm.used), KernelRun(2)) + 2 * PAGE_SIZE
                && c.ustackPage == if userEsp == 0 then Reply(old(pmm.used), UserPage) else 0
      ensures c.Created? ==>
                && c.cr3 != 0 && c.cr3 % PAGE_SIZE == 0
                && spaces == old(spaces) + [Space(FrameOf(c.cr3), {})]
                && c.kstackTop > 2 * PAGE_SIZE && FreshPages(old(pmm.used), c.kstackTop - 2 * PAGE_SIZE, 2)
                && Reserved(W(), FrameOf(c.kstackTop) - 1)
                && c.kstackTop % PAGE_SIZE == 0 && FrameOf(c.kstackTop) <= |m|
      ensures c.Created? ==>
                if userEsp != 0 then c.ustackTop == userEsp && c.ustackPage == 0
                else c.ustackTop == c.ustackPage + PAGE_SIZE && IsUserPage(pmm.used, c.ustackPage) && c.ustackPage != 0
                     && FreshPages(old(pmm.used), c.ustackPage, 1)
    {
      hide Inv, Allocator.BitmapOk, After, Answer, FreshPages, RunFree, IsUserPage, KernelFree, CloneStep, FreshFrame, Reply, HasDirectory;
      ghost var w0 := W();
      StackSupply(w0.used, userEsp);
      Replies(w0.used, KernelRun(2));
      var kstackBase := TakePages(KernelRun(2));
      if kstackBase == 0 {
        TakeNothing(w0.used, KernelRun(2));
        return NoKernelStack;
      }
      StackReserved(w0);
      TakeGrows(w0.used, KernelRun(2));
      var kstackTop := kstackBase + 2 * PAGE_SIZE;
      ghost var w := W();
      var taskPd := CloneKernelPd();
      CloneKeepsReserved(w, FrameOf(kstackTop) - 1);
      CloneUsed(w);
      if taskPd == 0 {
        return NoDirectory;
      }
      var ustackTop: Word, ustackPage: Word := userEsp, 0;
      if userEsp == 0 {
        ghost var used1 := pmm.used;
        TakeGrows(used1, UserPage);
        Replies(used1, UserPage);
        UserPageFresh(w0.used, used1);
        ustackPage := TakePages(UserPage);
        if ustackPage == 0 {
          assert spaces == old(spaces) + [Space(FrameOf(taskPd), {})];
          return NoUserStack;
        }
        ustackTop := ustackPage + PAGE_SIZE;
      }
      c := Created(kstackTop, taskPd, ustackTop, ustackPage);
    }

    /** The two marking loops of `task_create_user_with_pages`. */
    method MarkTask(c: Creation, userPages: seq<Word>, ghost t: nat, ghost stack: nat) returns (ok: bool)
      requires Booted() && c.Created? && t < |spaces| && spaces[t] == Space(FrameOf(c.cr3), {}) && Reserved(W(), stack)
      requires forall k | 0 <= k < |userPages| :: IsUserPage(pmm.used, userPages[k])
      requires c.ustackPage != 0 ==> IsUserPage(pmm.used, c.ustackPage)
      modifies this`m, this`owner, this`spaces, mem, pmm, pmm.bitmap
      ensures ok <==> |Dirs(Marks(c, userPages))| <= KernelFree(old(pmm.used))
      ensures ok ==> Booted() && Reserved(W(), stack) && |m| == |old(m)|
      ensures ok ==> spaces == old(spaces)[t := Space(FrameOf(c.cr3), Marks(c, userPages))]
    {
      hide Inv, Allocator.BitmapOk, PageAt, RunFree, IsUserPage, Reserved, KernelFree, Dirs, PageSet;
      ghost var used := pmm.used;
      OnlyPage(c.ustackPage);
      TablesOfBoth(PageSet(userPages), PageSet([c.ustackPage]));
      ok := MarkAll(c.cr3, userPages, t, stack);
      if !ok {
        return;
      }
      if c.ustackPage != 0 {
        StillUserPages(used, pmm.used, [c.ustackPage]);
        ok := MarkAll(c.cr3, [c.ustackPage], t, stack);
      }
    }

    /** The part of `task_create_user_with_pages` that touches physical memory: a kernel stack, a
        private directory, the marked pages, and the frame that `switch_to` and `iret` will pop. */
    method CreateUserTask(entry: Word, userEsp: Word, userPages: seq<Word>, returnToRing3: Word) returns (c: Creation)
      requires Booted()
      requires forall k | 0 <= k < |userPages| :: IsUserPage(pmm.used, userPages[k])
      modifies this`m, this`owner, this`spaces, mem, pmm, pmm.bitmap
      ensures c.NoKernelStack? <==> Answer(old(pmm.used), KernelRun(2)) == -1
      ensures c.NoDirectory? <==> Answer(old(pmm.used), KernelRun(2)) != -1 && !HasDirectory(old(pmm.used))
      ensures c.NoUserStack? <==> HasDirectory(old(pmm.used)) && !HasStacks(old(pmm.used), userEsp)
      ensures c.Faulted? <==>
                && HasStacks(old(pmm.used), userEsp)
                && KernelFree(old(pmm.used)) < 3 + |Dirs(MarkedPages(old(pmm.used), userEsp, userPages))|
      ensures !c.Faulted? ==> Booted()
      ensures c.NoKernelStack? ==> W() == old(W())
      ensures c.NoDirectory? ==> W() == old(W()).(used := After(old(pmm.used), KernelRun(2)))
      ensures c.NoUserStack? ==> exists pd :: spaces == old(spaces) + [Space(pd, {})]
      ensures c.Created? ==>
                && c.cr3 != 0 && c.cr3 % PAGE_SIZE == 0
                && spaces == old(spaces) + [Space(FrameOf(c.cr3), MarkedPages(old(pmm.used), userEsp, userPages))]
      ensures c.Created? ==>
                if userEsp != 0 then c.ustackTop == userEsp
                else c.ustackTop == c.ustackPage + PAGE_SIZE && c.ustackPage == Reply(old(pmm.used), UserPage)
                     && FreshPages(old(pmm.used), c.ustackPage, 1)
      ensures c.Created? ==> c.kstackTop > 2 * PAGE_SIZE && FreshPages(old(pmm.used), c.kstackTop - 2 * PAGE_SIZE, 2)
      ensures c.Created? ==>
                && FrameOf(c.kstackTop) <= |m|
                && m[FrameOf(c.kstackTop) - 1][1014..] ==
                     [0, 0, 0, 0, returnToRing3, entry, 0x1B, 0x202, c.ustackTop, 0x23]
    {
      hide Inv, Allocator.BitmapOk, PageAt, FreshPages, RunFree, IsUserPage, Reserved, Answer, After, Reply, KernelFree, Dirs, PageSet;
      ghost var t, used := |spaces|, pmm.used;
      c := AllocateTask(userEsp);
      if !c.Created? {
        return;
      }
      ghost var stack := FrameOf(c.kstackTop) - 1;
      StackSupply(used, userEsp);
      assert Marks(c, userPages) == MarkedPages(used, userEsp, userPages);
      StillUserPages(used, pmm.used, userPages);
      var ok := MarkTask(c, userPages, t, stack);
      if !ok {
        return Faulted;
      }
      BuildFrame(c.kstackTop, [0, 0, 0, 0, returnToRing3, entry, 0x1B, 0x202, c.ustackTop, 0x23]);
    }
  }
}
