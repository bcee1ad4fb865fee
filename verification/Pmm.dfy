/** Single bits of a byte, as the allocator's bitmap manipulates them. */
module Bits {
  predicate TestBit(b: bv8, k: nat)
    requires k < 8
  {
    b & (1 << k) != 0
  }

  function SetBit(b: bv8, k: nat): bv8
    requires k < 8
  {
    b | (1 << k)
  }

  function ClearBit(b: bv8, k: nat): bv8
    requires k < 8
  {
    b & !(1 << k)
  }

  lemma Masks(k: nat)
    requires k < 8
    ensures (1 as bv8) << k == [1 as bv8, 2, 4, 8, 16, 32, 64, 128][k]
  {
  }

  lemma SetBitTest(b: bv8, k: nat, j: nat)
    requires k < 8 && j < 8
    ensures TestBit(SetBit(b, k), j) == (j == k || TestBit(b, j))
  {
    Masks(k);
    Masks(j);
  }

  lemma ClearBitTest(b: bv8, k: nat, j: nat)
    requires k < 8 && j < 8
    ensures TestBit(ClearBit(b, k), j) == (j != k && TestBit(b, j))
  {
    Masks(k);
    Masks(j);
  }

  lemma AllOnes(k: nat)
    requires k < 8
    ensures TestBit(0xFF, k)
  {
    Masks(k);
  }
}

/** What the physical page allocator promises, stated on the sequence of its "used" bits.

    Page number `i` stands for the page at MANAGED_BASE + i * PAGE_SIZE. */
module PageRuns {
  import opened Words

  const MANAGED_BASE := 0x100000
  const USER_MEM_START := 0x800000
  const KERNEL_END_IDX := (USER_MEM_START - MANAGED_BASE) / PAGE_SIZE

  function PageAddress(i: int): int {
    MANAGED_BASE + i * PAGE_SIZE
  }

  ghost predicate RunFree(used: seq<bool>, a: int, n: nat) {
    0 <= a && a + n <= |used| && forall i | a <= i < a + n :: !used[i]
  }

  function FreeCount(used: seq<bool>): nat {
    multiset(used)[false]
  }

  /** The page numbers with the run [a, a+n) marked as used. */
  function Mark(used: seq<bool>, a: int, n: nat): (r: seq<bool>)
    requires 0 <= a && a + n <= |used|
    ensures |r| == |used|
    ensures forall i | 0 <= i < |used| :: r[i] == (a <= i < a + n || used[i])
  {
    used[..a] + seq(n, _ => true) + used[a + n..]
  }

  /** The lowest free run of n pages inside the window [lo, hi), or -1. */
  ghost function LowestRun(used: seq<bool>, lo: nat, hi: nat, n: nat): (r: int)
    requires hi <= |used|
    ensures r == -1 <==> forall a | lo <= a && a + n <= hi :: !RunFree(used, a, n)
    ensures r != -1 ==> lo <= r && r + n <= hi && RunFree(used, r, n)
    ensures r != -1 ==> forall a | lo <= a < r :: !RunFree(used, a, n)
    decreases hi - lo
  {
    if lo + n > hi then -1
    else if RunFree(used, lo, n) then lo
    else if lo == hi then -1
    else LowestRun(used, lo + 1, hi, n)
  }

  lemma TakeOne(used: seq<bool>, i: nat)
    requires i < |used| && !used[i]
    ensures FreeCount(used) == FreeCount(used[i := true]) + 1
  {
    assert multiset(used[i := true]) == multiset(used) - multiset{false} + multiset{true};
  }

  lemma MarkOneMore(used: seq<bool>, a: int, n: nat)
    requires 0 <= a && a + n < |used|
    ensures Mark(used, a, n)[a + n := true] == Mark(used, a, n + 1)
  {
  }

  /** Marking a free run takes exactly its length off the number of free pages. */
  lemma {:induction false} MarkTakesFree(used: seq<bool>, a: int, n: nat)
    requires RunFree(used, a, n)
    ensures FreeCount(Mark(used, a, n)) == FreeCount(used) - n
    decreases n
  {
    hide FreeCount;
    if n == 0 {
      assert Mark(used, a, n) == used;
    } else {
      MarkTakesFree(used, a, n - 1);
      MarkOneMore(used, a, n - 1);
      assert !Mark(used, a, n - 1)[a + n - 1];
      hide Mark;
      TakeOne(Mark(used, a, n - 1), a + n - 1);
    }
  }

  /** A free run never has more pages than there are free pages: the early exit
      `count > free_pages` cannot hide a run. */
  lemma RunWithinFreeCount(used: seq<bool>, a: int, n: nat)
    requires RunFree(used, a, n)
    ensures n <= FreeCount(used)
  {
    MarkTakesFree(used, a, n);
  }

  /** What the contiguous scan knows before it looks at page i: the last c pages are free, the
      page before them is not, and no run of n pages ends at or before i. */
  ghost predicate Scanned(used: seq<bool>, lo: nat, i: nat, c: nat, n: nat) {
    && lo + c <= i <= |used| && c < n
    && RunFree(used, i - c, c)
    && (lo == i - c || used[i - c - 1])
    && forall a | lo <= a && a + n <= i :: !RunFree(used, a, n)
  }

  lemma ScanPastFree(used: seq<bool>, lo: nat, i: nat, c: nat, n: nat)
    requires Scanned(used, lo, i, c, n) && i < |used| && !used[i]
    ensures RunFree(used, i - c, c + 1)
    ensures forall a | lo <= a < i - c && a + n <= i + 1 :: !RunFree(used, a, n)
    ensures c + 1 < n ==> Scanned(used, lo, i + 1, c + 1, n)
  {
    forall a | lo <= a < i - c && a + n <= i + 1 ensures !RunFree(used, a, n) {
      if a + n == i + 1 {
        assert a <= i - c - 1 < a + n;
      }
    }
  }

  lemma ScanPastUsed(used: seq<bool>, lo: nat, i: nat, c: nat, n: nat)
    requires Scanned(used, lo, i, c, n) && i < |used| && used[i]
    ensures Scanned(used, lo, i + 1, 0, n)
  {
    forall a | lo <= a && a + n <= i + 1 ensures !RunFree(used, a, n) {
      if a + n == i + 1 {
        assert a <= i < a + n;
      }
    }
  }

  // ----- any run of allocations -----

  /** The four allocation entry points. */
  datatype Request = KernelPage | KernelRun(count: nat) | UserPage | UserRun(count: nat)
  {
    function Count(): nat {
      match this
      case KernelPage => 1
      case UserPage => 1
      case KernelRun(n) => n
      case UserRun(n) => n
    }

    predicate ForUser() {
      UserPage? || UserRun?
    }

    function Lo(): nat {
      if ForUser() then KERNEL_END_IDX else 0
    }

    function Hi(total: nat): nat {
      if ForUser() || total < KERNEL_END_IDX then total else KERNEL_END_IDX
    }
  }

  /** The page number a request is answered with, or -1 when it is refused. */
  ghost function Answer(used: seq<bool>, q: Request): int {
    if q.Count() == 0 then -1 else LowestRun(used, q.Lo(), q.Hi(|used|), q.Count())
  }

  ghost function After(used: seq<bool>, q: Request): (r: seq<bool>)
    ensures |r| == |used|
  {
    var a := Answer(used, q);
    if a == -1 then used else Mark(used, a, q.Count())
  }

  /** The address an allocator returns: 0 means out of memory. */
  ghost function Reply(used: seq<bool>, q: Request): int {
    if Answer(used, q) == -1 then 0 else PageAddress(Answer(used, q))
  }

  /** The runs that an entry point may hand out: below the kernel/user boundary or above it. */
  ghost predicate Wanted(used: seq<bool>, q: Request, a: int) {
    match q
    case KernelPage => RunFree(used, a, 1) && PageAddress(a + 1) <= 0x800000
    case KernelRun(n) => 0 < n && RunFree(used, a, n) && PageAddress(a + n) <= 0x800000
    case UserPage => RunFree(used, a, 1) && 0x800000 <= PageAddress(a)
    case UserRun(n) => 0 < n && RunFree(used, a, n) && 0x800000 <= PageAddress(a)
  }

  /** A request is refused exactly if its region has no free run of the length, and answered with
      the lowest one otherwise. */
  lemma RefusedExactly(used: seq<bool>, q: Request)
    ensures Answer(used, q) == -1 <==> forall a :: !Wanted(used, q, a)
    ensures Answer(used, q) != -1 ==> Wanted(used, q, Answer(used, q)) && forall a | Wanted(used, q, a) :: Answer(used, q) <= a
  {
    forall a | Wanted(used, q, a)
      ensures 0 < q.Count() && q.Lo() <= a && a + q.Count() <= q.Hi(|used|) && RunFree(used, a, q.Count())
    {
    }
    var a := Answer(used, q);
    if a != -1 { assert Wanted(used, q, a); }
  }

  /** A range of pages that was handed out. */
  datatype Grant = Grant(start: nat, count: nat, user: bool)
  {
    predicate Covers(i: int) {
      start <= i < start + count
    }
  }

  ghost function Issued(used: seq<bool>, q: Request): seq<Grant> {
    var a := Answer(used, q);
    if a == -1 then [] else [Grant(a, q.Count(), q.ForUser())]
  }

  /** Everything that a run of requests is answered with. */
  ghost function Grants(used: seq<bool>, qs: seq<Request>): seq<Grant>
    decreases |qs|
  {
    if qs == [] then [] else Issued(used, qs[0]) + Grants(After(used, qs[0]), qs[1..])
  }

  ghost function AfterAll(used: seq<bool>, qs: seq<Request>): (r: seq<bool>)
    ensures |r| == |used|
    decreases |qs|
  {
    if qs == [] then used else AfterAll(After(used, qs[0]), qs[1..])
  }

  function Total(gs: seq<Grant>): nat {
    if gs == [] then 0 else gs[0].count + Total(gs[1..])
  }

  /** Conservation: what the allocator has handed out is what is missing from the free count. */
  lemma {:induction false} Conservation(used: seq<bool>, qs: seq<Request>)
    ensures FreeCount(AfterAll(used, qs)) + Total(Grants(used, qs)) == FreeCount(used)
    decreases |qs|
  {
    if qs != [] {
      var a := Answer(used, qs[0]);
      var rest := Grants(After(used, qs[0]), qs[1..]);
      Conservation(After(used, qs[0]), qs[1..]);
      if a != -1 {
        MarkTakesFree(used, a, qs[0].Count());
        assert (Issued(used, qs[0]) + rest)[1..] == rest;
      } else {
        assert [] + rest == rest;
      }
    }
  }

  /** The first grant of a run, and the runs after it. */
  lemma FirstGrant(used: seq<bool>, q: Request)
    ensures Issued(used, q) != [] ==>
              var g := Issued(used, q)[0];
              && RunFree(used, g.start, g.count)
              && (forall p | g.Covers(p) :: g.user <==> USER_MEM_START <= PageAddress(p))
              && (forall p | g.Covers(p) :: After(used, q)[p])
    ensures |Issued(used, q)| <= 1
    ensures forall p | 0 <= p < |used| && !After(used, q)[p] :: !used[p]
  {
  }

  /** Every range handed out consists of pages that were free at the start, and lies in the
      region that its request asked for. */
  lemma {:induction false} GrantWasFree(used: seq<bool>, qs: seq<Request>, k: nat)
    requires k < |Grants(used, qs)|
    ensures var g := Grants(used, qs)[k];
            && RunFree(used, g.start, g.count)
            && forall p | g.Covers(p) :: g.user <==> USER_MEM_START <= PageAddress(p)
    decreases |qs|
  {
    hide Issued, After, Answer;
    FirstGrant(used, qs[0]);
    var head := Issued(used, qs[0]);
    if k >= |head| {
      var rest := Grants(After(used, qs[0]), qs[1..]);
      assert Grants(used, qs)[k] == rest[k - |head|];
      GrantWasFree(After(used, qs[0]), qs[1..], k - |head|);
    }
  }

  /** No page is ever handed out twice: all ranges handed out by any run of requests are
      pairwise disjoint. */
  lemma {:induction false} NoDoubleAllocation(used: seq<bool>, qs: seq<Request>, j: nat, k: nat, p: int)
    requires j < k < |Grants(used, qs)| && Grants(used, qs)[j].Covers(p)
    ensures !Grants(used, qs)[k].Covers(p)
    decreases |qs|
  {
    hide Issued, After, Answer;
    FirstGrant(used, qs[0]);
    var head := Issued(used, qs[0]);
    var rest := Grants(After(used, qs[0]), qs[1..]);
    assert Grants(used, qs) == head + rest;
    if j >= |head| {
      NoDoubleAllocation(After(used, qs[0]), qs[1..], j - |head|, k - |head|, p);
    } else {
      assert head[0].Covers(p);
      GrantWasFree(After(used, qs[0]), qs[1..], k - |head|);
    }
  }

  /** After any run of requests a page is used exactly if it was used before or was handed out. */
  lemma {:induction false} UsedExactly(used: seq<bool>, qs: seq<Request>, p: nat)
    requires p < |used|
    ensures AfterAll(used, qs)[p] <==>
            used[p] || exists k :: 0 <= k < |Grants(used, qs)| && Grants(used, qs)[k].Covers(p)
    decreases |qs|
  {
    if qs != [] {
      UsedExactly(After(used, qs[0]), qs[1..], p);
      var head := Issued(used, qs[0]);
      var rest := Grants(After(used, qs[0]), qs[1..]);
      var gs := Grants(used, qs);
      assert gs == head + rest;
      if k :| 0 <= k < |rest| && rest[k].Covers(p) {
        assert gs[|head| + k].Covers(p);
      }
      if After(used, qs[0])[p] && !used[p] {
        assert gs[0].Covers(p);
      }
      if k :| 0 <= k < |gs| && gs[k].Covers(p) {
        assert k >= |head| ==> gs[k] == rest[k - |head|];
      }
    }
  }
}

/** The bitmap allocator of mm/pmm.c. */
module Pmm {
  import opened Words
  import opened Bits
  import opened PageRuns

  /** A usable region of the boot loader's memory map. */
  datatype Region = Region(base: nat, length: nat)
  {
    function End(): nat {
      base + length
    }

    /** The part of the region that the allocator manages starts and ends on page boundaries. */
    predicate Aligned() {
      && (MANAGED_BASE <= base ==> base % PAGE_SIZE == 0)
      && (MANAGED_BASE <= End() ==> End() % PAGE_SIZE == 0)
    }

    predicate Has(address: int) {
      base <= address < End()
    }
  }

  /** What the memory map delivers: aligned, pairwise disjoint regions below `top`. */
  ghost predicate MapOk(regions: seq<Region>, top: nat) {
    && MANAGED_BASE <= top < TWO_TO_32 && top % PAGE_SIZE == 0
    && (forall r | 0 <= r < |regions| :: regions[r].Aligned() && regions[r].End() <= top)
    && (forall r, s | 0 <= r < s < |regions| ::
          regions[r].End() <= regions[s].base || regions[s].End() <= regions[r].base)
  }

  /** A page is usable if one of the first n regions holds it. */
  ghost predicate Usable(regions: seq<Region>, n: nat, address: int)
    requires n <= |regions|
  {
    exists r :: 0 <= r < n && regions[r].Has(address)
  }

  lemma UsableStep(regions: seq<Region>, r: nat, address: int)
    requires r < |regions|
    ensures Usable(regions, r + 1, address) <==> Usable(regions, r, address) || regions[r].Has(address)
  {
    if k :| 0 <= k < r && regions[k].Has(address) {
      assert Usable(regions, r + 1, address);
    }
    if regions[r].Has(address) {
      assert Usable(regions, r + 1, address);
    }
  }

  lemma NotInEarlierRegion(regions: seq<Region>, r: nat, top: nat, address: int)
    requires MapOk(regions, top) && r < |regions| && regions[r].Has(address)
    ensures !Usable(regions, r, address)
  {
  }

  /** The pages of [base, end) below addr have been freed, unless they lie below firstFree. */
  ghost predicate FreedUpTo(before: seq<bool>, used: seq<bool>, firstFree: nat, base: nat, end: nat, addr: int)
    requires |used| == |before|
  {
    forall i | 0 <= i < |used| ::
      used[i] <==> before[i] && !(firstFree <= PageAddress(i) && base <= PageAddress(i) < end && PageAddress(i) < addr)
  }

  lemma NothingFreed(used: seq<bool>, firstFree: nat, base: nat, end: nat)
    ensures FreedUpTo(used, used, firstFree, base, end, base)
  {
  }

  lemma FreedAll(before: seq<bool>, used: seq<bool>, firstFree: nat, base: nat, end: nat, addr: int)
    requires |used| == |before| && FreedUpTo(before, used, firstFree, base, end, addr) && end <= addr
    ensures FreedUpTo(before, used, firstFree, base, end, end)
  {
  }

  lemma BitOf(addr: int)
    requires addr % PAGE_SIZE == 0
    ensures PageAddress((addr - MANAGED_BASE) / PAGE_SIZE) == addr
  {
  }

  lemma FreedAt(before: seq<bool>, used: seq<bool>, firstFree: nat, base: nat, end: nat, addr: int, i: nat)
    requires |used| == |before| && i < |used| && FreedUpTo(before, used, firstFree, base, end, addr)
    ensures used[i] <==> before[i] && !(firstFree <= PageAddress(i) && base <= PageAddress(i) < end && PageAddress(i) < addr)
  {
  }

  lemma StillUsed(before: seq<bool>, used: seq<bool>, firstFree: nat, base: nat, end: nat, bit: nat)
    requires |used| == |before| && bit < |used| && FreedUpTo(before, used, firstFree, base, end, PageAddress(bit))
    ensures used[bit] == before[bit]
  {
  }

  lemma FreeNext(before: seq<bool>, used: seq<bool>, firstFree: nat, base: nat, end: nat, bit: nat)
    requires |used| == |before| && bit < |used| && firstFree <= PageAddress(bit) && base <= PageAddress(bit) < end
    requires FreedUpTo(before, used, firstFree, base, end, PageAddress(bit))
    ensures FreedUpTo(before, used[bit := false], firstFree, base, end, PageAddress(bit) + PAGE_SIZE)
  {
  }

  lemma SkipNext(before: seq<bool>, used: seq<bool>, firstFree: nat, base: nat, end: nat, addr: int)
    requires |used| == |before| && addr < firstFree && addr % PAGE_SIZE == 0
    requires FreedUpTo(before, used, firstFree, base, end, addr)
    ensures FreedUpTo(before, used, firstFree, base, end, addr + PAGE_SIZE)
  {
  }

  lemma MapFacts(regions: seq<Region>, r: nat, top: nat)
    requires MapOk(regions, top) && r < |regions|
    ensures MANAGED_BASE <= top < TWO_TO_32 && top % PAGE_SIZE == 0
    ensures regions[r].Aligned() && regions[r].End() <= top
  {
  }

  /** The bitmap as `pmm_init` leaves it. */
  ghost predicate Initial(used: seq<bool>, regions: seq<Region>, firstFree: nat) {
    forall i | 0 <= i < |used| :: used[i] <==> PageAddress(i) < firstFree || !Usable(regions, |regions|, PageAddress(i))
  }

  /** No address between x and the page boundary b is a page boundary. */
  ghost predicate LeastBoundary(b: int, x: int) {
    PageBoundary(b) && x <= b && forall c | PageBoundary(c) && x <= c :: b <= c
  }

  predicate PageBoundary(c: int) {
    c % PAGE_SIZE == 0
  }

  lemma RoundedUp(x: int, pages: int)
    ensures LeastBoundary(PageBase(x + PAGE_SIZE - 1), x)
    ensures pages % PAGE_SIZE == 0 ==> LeastBoundary(pages + (x + PAGE_SIZE - 1) / PAGE_SIZE * PAGE_SIZE, pages + x)
  {
    var q := (x + PAGE_SIZE - 1) / PAGE_SIZE;
    assert PageBase(x + PAGE_SIZE - 1) == q * PAGE_SIZE;
    forall c | PageBoundary(c) && x <= c ensures q * PAGE_SIZE <= c {
      assert c == c / PAGE_SIZE * PAGE_SIZE;
    }
    if pages % PAGE_SIZE == 0 {
      forall c | PageBoundary(c) && pages + x <= c ensures pages + q * PAGE_SIZE <= c {
        assert c - pages == (c / PAGE_SIZE - pages / PAGE_SIZE) * PAGE_SIZE;
      }
    }
  }

  /** The runs that `pmm_init` leaves for a request: usable, above the bitmap and in its region. */
  ghost predicate Left(regions: seq<Region>, firstFree: nat, q: Request, a: nat) {
    && firstFree <= PageAddress(a)
    && (if q.KernelPage? || q.KernelRun? then PageAddress(a + q.Count()) <= 0x800000 else 0x800000 <= PageAddress(a))
    && forall i | a <= i < a + q.Count() :: Usable(regions, |regions|, PageAddress(i))
  }

  /** The first request after `pmm_init` is refused exactly if its region has no usable run of the
      length above the bitmap. */
  lemma FirstRequest(used: seq<bool>, regions: seq<Region>, top: nat, firstFree: nat, q: Request)
    requires MapOk(regions, top) && Initial(used, regions, firstFree) && |used| == (top - MANAGED_BASE) / PAGE_SIZE
    requires 0 < q.Count()
    ensures Answer(used, q) == -1 <==> forall a: nat :: !Left(regions, firstFree, q, a)
    ensures Answer(used, q) != -1 ==> 0 <= Answer(used, q) && Left(regions, firstFree, q, Answer(used, q))
  {
    RefusedExactly(used, q);
    forall a: nat | Left(regions, firstFree, q, a) ensures Wanted(used, q, a) {
      assert Usable(regions, |regions|, PageAddress(a + q.Count() - 1));
      UsableManaged(regions, top, a + q.Count() - 1);
      forall i | a <= i < a + q.Count() ensures !used[i] {
        assert Usable(regions, |regions|, PageAddress(i));
      }
    }
    forall a | Wanted(used, q, a) ensures 0 <= a && Left(regions, firstFree, q, a) {
      assert !used[a];
      forall i | a <= i < a + q.Count() ensures Usable(regions, |regions|, PageAddress(i)) {
        assert !used[i];
      }
    }
  }

  lemma UsableManaged(regions: seq<Region>, top: nat, i: nat)
    requires MapOk(regions, top) && Usable(regions, |regions|, PageAddress(i))
    ensures i < (top - MANAGED_BASE) / PAGE_SIZE
  {
  }

  /** Whatever is handed out after `pmm_init` lies above the kernel image and the bitmap, which end
      at firstFree, and inside a usable region. */
  lemma GrantsAvoidKernel(used: seq<bool>, regions: seq<Region>, firstFree: nat, qs: seq<Request>, k: nat, p: int)
    requires Initial(used, regions, firstFree)
    requires k < |Grants(used, qs)| && Grants(used, qs)[k].Covers(p)
    ensures firstFree <= PageAddress(p) && Usable(regions, |regions|, PageAddress(p))
  {
    GrantWasFree(used, qs, k);
    assert !used[p];
  }

  /** The scan found run `a` of n pages, or nothing when `a` is -1. */
  ghost predicate Served(before: seq<bool>, a: int, n: nat, after: seq<bool>, address: Word) {
    if a == -1 then after == before && address == 0
    else RunFree(before, a, n) && after == Mark(before, a, n) && address == PageAddress(a)
  }

  class Allocator {
    const bitmap: array<bv8>
    const bitmapAddress: nat         // where the bitmap lies, right behind the kernel image
    const totalPages: nat
    const firstFree: nat
    var freePages: nat
    ghost var used: seq<bool>

    ghost predicate Valid()
      reads this, bitmap
    {
      && BitmapOk()
      && freePages == FreeCount(used)
    }

    ghost predicate BitmapOk()
      reads this, bitmap
    {
      && bitmap.Length == (totalPages + 7) / 8
      && PageAddress(totalPages) < TWO_TO_32
      && |used| == totalPages
      && forall i {:trigger BitAt(i)} | 0 <= i < totalPages :: used[i] == BitAt(i)
    }

    /** `bitmap[i / 8] & (1 << (i % 8))` */
    predicate BitAt(i: nat)
      requires i / 8 < bitmap.Length
      reads bitmap
    {
      TestBit(bitmap[i / 8], i % 8)
    }

    constructor (kernelEnd: nat, regions: seq<Region>, top: nat)
      requires MapOk(regions, top)
      requires kernelEnd + PAGE_SIZE + top / PAGE_SIZE < TWO_TO_32
      ensures Valid() && fresh(bitmap)
      ensures totalPages == (top - MANAGED_BASE) / PAGE_SIZE
      ensures LeastBoundary(bitmapAddress, kernelEnd)
      ensures LeastBoundary(firstFree, bitmapAddress + (totalPages + 7) / 8)
      ensures Initial(used, regions, firstFree)
    {
      var total := (top - MANAGED_BASE) / PAGE_SIZE;
      var bitmapBytes := (total + 7) / 8;
      var bitmapPagesCount := (bitmapBytes + PAGE_SIZE - 1) / PAGE_SIZE;
      var bitmapAddr := PageBase(kernelEnd + PAGE_SIZE - 1);
      RoundedUp(kernelEnd, 0);
      RoundedUp(bitmapBytes, bitmapAddr);
      bitmapAddress := bitmapAddr;
      totalPages := total;
      firstFree := bitmapAddr + bitmapPagesCount * PAGE_SIZE;
      // Step 1: mark every page as used
      bitmap := new bv8[bitmapBytes](_ => 0xFF);
      used := seq(total, _ => true);
      freePages := 0;
      new;
      forall i {:trigger BitAt(i)} | 0 <= i < totalPages ensures BitAt(i) {
        AllOnes(i % 8);
      }
      AllUsed(used);
      // Step 2: walk the usable regions and free their pages
      var r := 0;
      while r < |regions|
        invariant 0 <= r <= |regions|
        invariant Valid()
        invariant forall i | 0 <= i < totalPages ::
                    used[i] <==> PageAddress(i) < firstFree || !Usable(regions, r, PageAddress(i))
      {
        FreeRegion(regions, r, top);
        r := r + 1;
      }
    }

    /** One round of the outer loop of `pmm_init`. */
    method FreeRegion(regions: seq<Region>, r: nat, top: nat)
      requires MapOk(regions, top) && r < |regions|
      requires Valid() && totalPages == (top - MANAGED_BASE) / PAGE_SIZE
      requires forall i | 0 <= i < totalPages ::
                 used[i] <==> PageAddress(i) < firstFree || !Usable(regions, r, PageAddress(i))
      modifies this, bitmap
      ensures Valid()
      ensures forall i | 0 <= i < totalPages ::
                used[i] <==> PageAddress(i) < firstFree || !Usable(regions, r + 1, PageAddress(i))
    {
      hide Allocator.BitmapOk, MapOk, Usable, FreedUpTo;
      MapFacts(regions, r, top);
      var base, end := regions[r].base, regions[r].End();
      if base < MANAGED_BASE { base := MANAGED_BASE; }
      if end > top { end := top; }
      ghost var before := used;
      PageCount();
      forall i | 0 <= i < totalPages && firstFree <= PageAddress(i) && base <= PageAddress(i) < end ensures used[i] {
        NotInEarlierRegion(regions, r, top, PageAddress(i));
      }
      FreeRange(base, end);
      PageCount();
      forall i | 0 <= i < totalPages
        ensures used[i] <==> PageAddress(i) < firstFree || !Usable(regions, r + 1, PageAddress(i))
      {
        UsableStep(regions, r, PageAddress(i));
        FreedAt(before, used, firstFree, base, end, end, i);
      }
    }

    /** The inner loop: the pages from base to end, but for those below firstFree. */
    method FreeRange(base: nat, end: nat)
      requires Valid() && base % PAGE_SIZE == 0 && MANAGED_BASE <= base && end <= PageAddress(totalPages)
      requires |used| == totalPages
      requires forall i | 0 <= i < totalPages && firstFree <= PageAddress(i) && base <= PageAddress(i) < end :: used[i]
      modifies this, bitmap
      ensures Valid() && |used| == |old(used)|
      ensures FreedUpTo(old(used), used, firstFree, base, end, end)
    {
      hide Allocator.BitmapOk, FreedUpTo;
      ghost var before := used;
      var addr := base;
      NothingFreed(used, firstFree, base, end);
      while addr < end
        invariant addr % PAGE_SIZE == 0 && base <= addr
        invariant Valid() && |used| == |before|
        invariant FreedUpTo(before, used, firstFree, base, end, addr)
      {
        PageCount();
        if addr >= firstFree {
          var bit := (addr - MANAGED_BASE) / PAGE_SIZE;
          BitOf(addr);
          StillUsed(before, used, firstFree, base, end, bit);
          FreeNext(before, used, firstFree, base, end, bit);
          FreeBit(bit);
        } else {
          SkipNext(before, used, firstFree, base, end, addr);
        }
        addr := addr + PAGE_SIZE;
      }
      FreedAll(before, used, firstFree, base, end, addr);
    }

    method FreeBit(bit: nat)
      requires Valid() && bit < totalPages && used[bit]
      modifies this, bitmap
      ensures Valid() && used == old(used)[bit := false] && freePages == old(freePages) + 1
    {
      bitmap[bit / 8] := ClearBit(bitmap[bit / 8], bit % 8);
      used := used[bit := false];
      freePages := freePages + 1;
      forall i {:trigger BitAt(i)} | 0 <= i < totalPages
        ensures used[i] == BitAt(i)
      {
        assert old(used)[i] == old(BitAt(i));
        ClearBitTest(old(bitmap[bit / 8]), bit % 8, i % 8);
      }
      TakeOne(used, bit);
      assert old(used) == used[bit := true];
    }

    method TakeBit(bit: nat)
      requires Valid() && bit < totalPages && !used[bit]
      modifies this, bitmap
      ensures Valid() && used == old(used)[bit := true] && freePages == old(freePages) - 1
    {
      bitmap[bit / 8] := SetBit(bitmap[bit / 8], bit % 8);
      TakeOne(used, bit);
      used := used[bit := true];
      freePages := freePages - 1;
      forall i {:trigger BitAt(i)} | 0 <= i < totalPages
        ensures used[i] == BitAt(i)
      {
        assert old(used)[i] == old(BitAt(i));
        SetBitTest(old(bitmap[bit / 8]), bit % 8, i % 8);
      }
    }

    lemma PageCount()
      requires Valid()
      ensures |used| == totalPages && PageAddress(totalPages) < TWO_TO_32
    {
    }

    method IsUsed(i: nat) returns (b: bool)
      requires Valid() && i < totalPages
      ensures b == used[i]
    {
      b := BitAt(i);
    }

    /** The scan of the two single-page allocators over their window. */
    method ScanPage(lo: nat, hi: nat) returns (address: Word)
      requires Valid() && hi <= totalPages
      modifies this, bitmap
      ensures Valid()
      ensures Served(old(used), LowestRun(old(used), lo, hi, 1), 1, used, address)
    {
      hide Allocator.BitmapOk, FreeCount, Mark;
      PageCount();
      var i := lo;
      while i < hi
        invariant lo <= i && (i <= hi || i == lo)
        invariant used == old(used) && Valid()
        invariant forall a | lo <= a < i :: !RunFree(used, a, 1)
      {
        var taken := IsUsed(i);
        if !taken {
          assert RunFree(used, i, 1);
          TakeRun(i, 1);
          return PageAddress(i);
        }
        assert !RunFree(used, i, 1);
        i := i + 1;
      }
      return 0;
    }

    /** The scan of the two contiguous allocators over their window. */
    method ScanRun(lo: nat, hi: nat, count: nat) returns (address: Word)
      requires Valid() && hi <= totalPages
      modifies this, bitmap
      ensures Valid()
      ensures Served(old(used), if count == 0 then -1 else LowestRun(old(used), lo, hi, count), count, used, address)
    {
      if count == 0 || count > freePages {
        forall a | RunFree(used, a, count) ensures count == 0 {
          RunWithinFreeCount(used, a, count);
        }
        return 0;
      }
      var consecutive, startIdx := 0, 0;
      var i := lo;
      while i < hi
        invariant lo <= i && (i <= hi || i == lo)
        invariant used == old(used) && Valid()
        invariant i <= hi ==> Scanned(used, lo, i, consecutive, count)
        invariant consecutive > 0 ==> startIdx == i - consecutive
      {
        var taken := IsUsed(i);
        if !taken {
          if consecutive == 0 { startIdx := i; }
          ScanPastFree(used, lo, i, consecutive, count);
          consecutive := consecutive + 1;
          if consecutive == count {
            assert LowestRun(used, lo, hi, count) == startIdx;
            TakeRun(startIdx, count);
            return PageAddress(startIdx);
          }
        } else {
          ScanPastUsed(used, lo, i, consecutive, count);
          consecutive := 0;
        }
        i := i + 1;
      }
      assert forall a | lo <= a && a + count <= hi :: !RunFree(used, a, count);
      return 0;
    }

    method TakeRun(startIdx: nat, count: nat)
      requires Valid() && RunFree(used, startIdx, count)
      modifies this, bitmap
      ensures Valid() && used == Mark(old(used), startIdx, count)
    {
      var j := startIdx;
      assert used == Mark(used, startIdx, 0);
      while j < startIdx + count
        invariant startIdx <= j <= startIdx + count
        invariant Valid() && used == Mark(old(used), startIdx, j - startIdx)
      {
        TakeBit(j);
        MarkOneMore(old(used), startIdx, j - startIdx);
        j := j + 1;
      }
    }

    /** `pmm_alloc_page` */
    method AllocPage() returns (address: Word)
      requires Valid()
      modifies this, bitmap
      ensures Valid() && used == After(old(used), KernelPage)
      ensures address == Reply(old(used), KernelPage)
    {
      hide Allocator.BitmapOk, FreeCount, Mark, LowestRun;
      PageCount();
      address := ScanPage(0, if KERNEL_END_IDX < totalPages then KERNEL_END_IDX else totalPages);
    }

    /** `pmm_alloc_contiguous_pages` */
    method AllocContiguousPages(count: nat) returns (address: Word)
      requires Valid()
      modifies this, bitmap
      ensures Valid() && used == After(old(used), KernelRun(count))
      ensures address == Reply(old(used), KernelRun(count))
    {
      hide Allocator.BitmapOk, FreeCount, Mark, LowestRun;
      PageCount();
      address := ScanRun(0, if KERNEL_END_IDX < totalPages then KERNEL_END_IDX else totalPages, count);
    }

    /** `pmm_alloc_user_page` */
    method AllocUserPage() returns (address: Word)
      requires Valid()
      modifies this, bitmap
      ensures Valid() && used == After(old(used), UserPage)
      ensures address == Reply(old(used), UserPage)
    {
      hide Allocator.BitmapOk, FreeCount, Mark, LowestRun;
      PageCount();
      address := ScanPage(KERNEL_END_IDX, totalPages);
    }

    /** `pmm_alloc_contiguous_user_pages` */
    method AllocContiguousUserPages(count: nat) returns (address: Word)
      requires Valid()
      modifies this, bitmap
      ensures Valid() && used == After(old(used), UserRun(count))
      ensures address == Reply(old(used), UserRun(count))
    {
      hide Allocator.BitmapOk, FreeCount, Mark, LowestRun;
      PageCount();
      address := ScanRun(KERNEL_END_IDX, totalPages, count);
    }

    /** `pmm_free_page_count` */
    method FreePageCount() returns (n: nat)
      requires Valid()
      ensures n == FreeCount(used)
    {
      n := freePages;
    }
  }

  lemma {:induction false} AllUsed(used: seq<bool>)
    requires forall i | 0 <= i < |used| :: used[i]
    ensures FreeCount(used) == 0
  {
  }
}
