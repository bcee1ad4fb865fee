/** One physical memory under both views: frames of words for paging, words by byte address for the
    heap and the scheduler. */
module OneMemory {
  import opened Words
  import opened PageRuns
  import opened PageTables
  import opened AddressSpaces

  /** The byte address of word j of frame f. */
  function Address(f: nat, j: nat): nat {
    f * PAGE_SIZE + 4 * j
  }

  lemma AddressIn(f: nat, j: nat)
    requires j < ENTRIES
    ensures Address(f, j) / PAGE_SIZE == f && Address(f, j) % PAGE_SIZE == 4 * j
    ensures f < USER_FRAME ==> Address(f, j) < USER_MEM_START
  {
  }

  /** The kernel region reads the same in both views. */
  ghost predicate Tied(m: Phys, mem: seq<Word>) {
    && |mem| == USER_MEM_START
    && forall f, j {:trigger m[f][j]} | 0 <= f < |m| && f < USER_FRAME && 0 <= j < ENTRIES :: InKernel(f, j) && mem[Address(f, j)] == m[f][j]
  }

  ghost predicate InKernel(f: nat, j: nat) {
    Address(f, j) < USER_MEM_START
  }

  // ----- stores through byte addresses -----

  ghost function TableAt(mem: seq<Word>, f: nat): Table
    requires |mem| == USER_MEM_START && f < USER_FRAME
  {
    seq(ENTRIES, j requires 0 <= j < ENTRIES => (AddressIn(f, j); mem[Address(f, j)]))
  }

  /** The frames when the kernel region holds `mem`. */
  ghost function Sync(m: Phys, mem: seq<Word>): (r: Phys)
    requires |mem| == USER_MEM_START
    ensures |r| == |m|
  {
    seq(|m|, f requires 0 <= f < |m| => if f < USER_FRAME then TableAt(mem, f) else m[f])
  }

  /** No page table is written between mem and mem'. */
  ghost predicate TablesKept(w: World, mem: seq<Word>, mem': seq<Word>) {
    |mem| == |mem'| && forall k | 0 <= k < |mem| && mem'[k] != mem[k] :: k / PAGE_SIZE !in w.owner
  }

  lemma SyncTied(m: Phys, mem: seq<Word>)
    requires |mem| == USER_MEM_START
    ensures Tied(Sync(m, mem), mem)
  {
    forall f: nat, j: nat | f < |m| && f < USER_FRAME && j < ENTRIES
      ensures InKernel(f, j) && mem[Address(f, j)] == Sync(m, mem)[f][j]
    {
      AddressIn(f, j);
    }
  }

  /** Stores that miss the page tables keep every translation. */
  lemma SyncKeepsInv(w: World, mem: seq<Word>, mem': seq<Word>, used: seq<bool>)
    requires Inv(w) && Tied(w.m, mem) && TablesKept(w, mem, mem')
    requires |used| == |w.used| && forall i | 0 <= i < |used| :: w.used[i] ==> used[i]
    ensures Inv(w.(m := Sync(w.m, mem'), used := used)) && Tied(Sync(w.m, mem'), mem')
  {
    forall f | f in w.owner ensures Sync(w.m, mem')[f] == w.m[f] {
      assert TakenKernelFrame(w.used, f);
      forall j | 0 <= j < ENTRIES ensures Sync(w.m, mem')[f][j] == w.m[f][j] {
        AddressIn(f, j);
      }
    }
    OutsideTables(w, Sync(w.m, mem'), used);
    SyncTied(w.m, mem');
  }

  // ----- stores through frames -----

  ghost function WordAt(m: Phys, mem: seq<Word>, k: nat): Word
    requires k < |mem|
  {
    if k % 4 == 0 && k / PAGE_SIZE < |m| then m[k / PAGE_SIZE][k % PAGE_SIZE / 4] else mem[k]
  }

  /** The words of the kernel region when its frames are those of m. */
  ghost function Flat(m: Phys, mem: seq<Word>): (r: seq<Word>)
    ensures |r| == |mem|
  {
    seq(|mem|, k requires 0 <= k < |mem| => WordAt(m, mem, k))
  }

  lemma FlatTied(m: Phys, mem: seq<Word>)
    requires |mem| == USER_MEM_START
    ensures Tied(m, Flat(m, mem))
  {
    forall f: nat, j: nat | f < |m| && f < USER_FRAME && j < ENTRIES
      ensures InKernel(f, j) && Flat(m, mem)[Address(f, j)] == m[f][j]
    {
      AddressIn(f, j);
      FourTimes(f, j);
    }
  }

  lemma FourTimes(f: nat, j: nat)
    ensures Address(f, j) % 4 == 0
  {
    assert Address(f, j) == 4 * (1024 * f + j);
  }

  lemma FlatWord(m: Phys, m': Phys, mem: seq<Word>, k: nat)
    requires Tied(m, mem) && |m'| == |m| && k < |mem| && Flat(m', mem)[k] != mem[k]
    ensures k / PAGE_SIZE < |m| && m'[k / PAGE_SIZE] != m[k / PAGE_SIZE]
  {
    var f, j := k / PAGE_SIZE, k % PAGE_SIZE / 4;
    if k % 4 == 0 {
      AddressBack(k);
      assert f < |m| ==> mem[Address(f, j)] == m[f][j];
    }
  }

  lemma AddressBack(k: nat)
    requires k % 4 == 0 && k < USER_MEM_START
    ensures Address(k / PAGE_SIZE, k % PAGE_SIZE / 4) == k && k / PAGE_SIZE < USER_FRAME
  {
    var f, o := k / PAGE_SIZE, k % PAGE_SIZE;
    assert k == f * PAGE_SIZE + o;
    assert k == 4 * (1024 * f) + o;
    var j := o / 4;
    assert o % 4 == 0 by { var q := k / 4; assert o == 4 * (q - 1024 * f); }
  }

  // ----- what paging.c writes -----

  /** w' differs from w by page tables only: frames that are tables in w', of which the new ones were
      free before. */
  ghost predicate OnlyTables(w: World, w': World) {
    && |w'.m| == |w.m| && |w'.used| == |w.used| && w'.kpd == w.kpd && |w.spaces| <= |w'.spaces|
    && (forall i | 0 <= i < |w.used| && w.used[i] :: w'.used[i])
    && (forall f | f in w'.owner && f !in w.owner :: FIRST_FRAME <= f && f - FIRST_FRAME < |w.used| && !w.used[f - FIRST_FRAME])
    && (forall f | f in w.owner :: f in w'.owner)
    && (forall f | 0 <= f < |w.m| && f !in w'.owner :: w'.m[f] == w.m[f])
    && (forall i | 0 <= i < |w.spaces| :: w'.spaces[i].pd == w.spaces[i].pd)
  }

  lemma FreshUnused(used: seq<bool>)
    requires FreshFrame(used) != -1
    ensures var f := FreshFrame(used);
            FIRST_FRAME <= f && f - FIRST_FRAME < |used| && !used[f - FIRST_FRAME]
    ensures |After(used, KernelPage)| == |used| && forall i | 0 <= i < |used| && used[i] :: After(used, KernelPage)[i]
  {
  }

  lemma CloneOnlyTables(w: World)
    requires Inv(w)
    ensures OnlyTables(w, CloneStep(w))
  {
    if FreshFrame(w.used) != -1 { FreshUnused(w.used); }
    hide Inv, FreshFrame, After;
  }

  lemma MarkOnlyTables(w: World, t: nat, p: Page)
    requires Inv(w) && Enabled(w, MarkPage(t, p)) && MarkStep(w, t, p).Some?
    ensures OnlyTables(w, MarkStep(w, t, p).value)
  {
    hide Inv, After, FreshFrame, OpenPage, Privatise, Touched;
    EntryFrames(w, t, p.dir);
    SharedIffUntouched(w, t, p.dir);
    MarkedTable(w, t, p);
    if Shared(w, t, p.dir) {
      FreshUnused(w.used);
      FreshInside(w);
      SharedOnlyTables(w, t, p, FreshFrame(w.used), After(w.used, KernelPage));
    } else {
      OpenPrivate(w.m, w.spaces[t].pd, p);
    }
  }

  lemma FreshInside(w: World)
    requires Inv(w) && FreshFrame(w.used) != -1
    ensures 0 <= FreshFrame(w.used) < |w.m| && FreshFrame(w.used) !in w.owner
  {
    FreshFrameOk(w);
  }

  lemma SharedOnlyTables(w: World, t: nat, p: Page, f: nat, used: seq<bool>)
    requires t < |w.spaces| && p.Ok() && w.kpd < |w.m| && w.spaces[t].pd < |w.m| < TWO_TO_32 / PAGE_SIZE && f < |w.m|
    requires FrameOf(w.m[w.kpd][p.dir]) < |w.m| && w.spaces[t].pd in w.owner && f !in w.owner
    requires FIRST_FRAME <= f && f - FIRST_FRAME < |w.used| && !w.used[f - FIRST_FRAME]
    requires |used| == |w.used| && forall i | 0 <= i < |used| && w.used[i] :: used[i]
    ensures OnlyTables(w, MarkWith(w, t, p, f, used))
  {
    OpenShared(w.m, w.kpd, w.spaces[t].pd, p, f);
    hide OpenPage, Privatise;
  }

  lemma MarkedTable(w: World, t: nat, p: Page)
    requires Inv(w) && Enabled(w, MarkPage(t, p))
    ensures w.spaces[t].pd in w.owner && w.spaces[t].pd < |w.m| < TWO_TO_32 / PAGE_SIZE
    ensures var e := w.m[w.spaces[t].pd][p.dir];
            Touched(w.spaces[t].pages, p.dir) ==> e % PAGE_SIZE == FLAGS_USER && FrameOf(e) in w.owner && FrameOf(e) < |w.m| && FrameOf(e) != w.spaces[t].pd
  {
    assert TaskOk(w, t) && TaskEntryOk(w, t, p.dir);
  }
}
