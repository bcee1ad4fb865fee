/** The ELF loader of fs/elf.c. */
module Elf {
  import opened Words
  import opened PageRuns
  import opened Pmm

  // ----- little-endian fields (System V gABI, chapter 4, Data Encoding) -----

  function Half(data: seq<Byte>, o: nat): Word
    requires o + 2 <= |data|
  {
    var b0: int, b1: int := data[o], data[o + 1];
    b0 + b1 * 0x100
  }

  function Full(data: seq<Byte>, o: nat): Word
    requires o + 4 <= |data|
  {
    var b0: int, b1: int, b2: int, b3: int := data[o], data[o + 1], data[o + 2], data[o + 3];
    b0 + b1 * 0x100 + b2 * 0x1_0000 + b3 * 0x100_0000
  }

  // ----- the headers -----

  const EHDR_SIZE := 52
  const PHDR_SIZE := 32
  const PT_LOAD := 1

  /** One entry of the program header table. */
  datatype Segment = Segment(kind: Word, offset: Word, vaddr: Word, filesz: Word, memsz: Word)
  {
    predicate Loads() {
      kind == PT_LOAD
    }

    predicate Covers(a: int) {
      Loads() && vaddr <= a < vaddr + memsz
    }
  }

  predicate GoodMagic(file: seq<Byte>)
    requires |file| >= EHDR_SIZE
  {
    file[0] == 0x7F && file[1] == 0x45 && file[2] == 0x4C && file[3] == 0x46 && file[4] == 1 && file[5] == 1
  }

  function Entry(file: seq<Byte>): Word
    requires |file| >= EHDR_SIZE
  {
    Full(file, 24)
  }

  function PhOff(file: seq<Byte>): Word
    requires |file| >= EHDR_SIZE
  {
    Full(file, 28)
  }

  function PhEntSize(file: seq<Byte>): Word
    requires |file| >= EHDR_SIZE
  {
    Half(file, 42)
  }

  function PhNum(file: seq<Byte>): Word
    requires |file| >= EHDR_SIZE
  {
    Half(file, 44)
  }

  /** Both the header and the program header table are inside the file. */
  ghost predicate HeadersInside(file: seq<Byte>) {
    && EHDR_SIZE <= |file| < TWO_TO_32
    && forall i | 0 <= i < PhNum(file) :: HeaderInside(file, i)
  }

  ghost predicate HeaderInside(file: seq<Byte>, i: nat)
    requires |file| >= EHDR_SIZE
  {
    PhOff(file) + i * PhEntSize(file) + PHDR_SIZE <= |file|
  }

  function SegmentAt(file: seq<Byte>, i: nat): Segment
    requires |file| >= EHDR_SIZE && HeaderInside(file, i)
  {
    var o := PhOff(file) + i * PhEntSize(file);
    Segment(Full(file, o), Full(file, o + 4), Full(file, o + 8), Full(file, o + 16), Full(file, o + 20))
  }

  /** A loadable segment as the gABI (chapter 5, Program Header) defines it: the file part is not
      larger than the memory part and lies in the file, and the addresses do not wrap around. */
  predicate Proper(file: seq<Byte>, s: Segment) {
    s.Loads() ==> s.filesz <= s.memsz && s.vaddr + s.memsz < TWO_TO_32 && s.offset + s.filesz <= |file|
  }

  /** The program header table as a sequence. */
  function Segments(file: seq<Byte>): (segs: seq<Segment>)
    requires HeadersInside(file)
    ensures |segs| == PhNum(file)
  {
    seq(PhNum(file), i requires 0 <= i < PhNum(file) && HeaderInside(file, i) => SegmentAt(file, i))
  }

  predicate AllProper(file: seq<Byte>, segs: seq<Segment>) {
    forall i | 0 <= i < |segs| :: Proper(file, segs[i])
  }

  ghost predicate Loadable(file: seq<Byte>) {
    HeadersInside(file) && AllProper(file, Segments(file))
  }

  // ----- the address range of the image -----

  /** The least address of the loadable segments among the first n. */
  ghost function Low(segs: seq<Segment>, n: nat): Word
    requires n <= |segs|
  {
    if n == 0 then 0xFFFF_FFFF
    else
      var s := segs[n - 1];
      if s.Loads() && s.vaddr < Low(segs, n - 1) then s.vaddr else Low(segs, n - 1)
  }

  /** The greatest end address. */
  ghost function High(segs: seq<Segment>, n: nat): nat
    requires n <= |segs|
  {
    if n == 0 then 0
    else
      var s := segs[n - 1];
      if s.Loads() && s.vaddr + s.memsz > High(segs, n - 1) then s.vaddr + s.memsz else High(segs, n - 1)
  }

  ghost predicate AnyLoads(segs: seq<Segment>, n: nat)
    requires n <= |segs|
  {
    exists i :: 0 <= i < n && segs[i].Loads()
  }

  ghost predicate StartsAt(segs: seq<Segment>, i: nat, a: int)
    requires i < |segs|
  {
    segs[i].Loads() && segs[i].vaddr == a
  }

  ghost predicate EndsAt(segs: seq<Segment>, i: nat, a: int)
    requires i < |segs|
  {
    segs[i].Loads() && segs[i].vaddr + segs[i].memsz == a
  }

  /** Low and High enclose every loadable segment, and as tightly as possible. */
  lemma {:induction false} RangeOk(segs: seq<Segment>, n: nat)
    requires n <= |segs|
    ensures forall i | 0 <= i < n && segs[i].Loads() ::
              Low(segs, n) <= segs[i].vaddr && segs[i].vaddr + segs[i].memsz <= High(segs, n)
    ensures if AnyLoads(segs, n)
            then (exists i :: 0 <= i < n && StartsAt(segs, i, Low(segs, n))) && (exists i :: 0 <= i < n && EndsAt(segs, i, High(segs, n)))
            else Low(segs, n) == 0xFFFF_FFFF && High(segs, n) == 0
  {
    if n > 0 {
      RangeOk(segs, n - 1);
      var s := segs[n - 1];
      if s.Loads() {
        assert StartsAt(segs, n - 1, s.vaddr) && EndsAt(segs, n - 1, s.vaddr + s.memsz);
      }
    }
  }

  /** The number of pages that `elf_load` asks for. */
  ghost function PagesNeeded(segs: seq<Segment>): nat {
    var n := |segs|;
    Wrap(Wrap(High(segs, n) - Low(segs, n)) + 4095) / PAGE_SIZE
  }

  // ----- the image -----

  /** What the byte at virtual address a becomes when the first n segments are loaded over a byte
      `was`: a later segment overwrites an earlier one. */
  ghost function ImageByte(file: seq<Byte>, segs: seq<Segment>, n: nat, a: int, was: Byte): Byte
    requires AllProper(file, segs) && n <= |segs|
  {
    if n == 0 then was
    else
      var s := segs[n - 1];
      if !s.Covers(a) then ImageByte(file, segs, n - 1, a, was)
      else if a < s.vaddr + s.filesz then file[s.offset + (a - s.vaddr)]
      else 0
  }

  ghost predicate Disjoint(segs: seq<Segment>) {
    forall i, j, a | 0 <= i < j < |segs| && segs[i].Covers(a) :: !segs[j].Covers(a)
  }

  /** Image correctness: where segments do not overlap, each byte of a loaded segment is the byte of
      the file, followed by zeros from `p_filesz` up to `p_memsz`. */
  lemma {:induction false} ImageCorrect(file: seq<Byte>, segs: seq<Segment>, n: nat, i: nat, k: nat, was: Byte)
    requires AllProper(file, segs) && Disjoint(segs) && i < n <= |segs|
    requires segs[i].Loads() && k < segs[i].memsz
    ensures var s := segs[i];
            ImageByte(file, segs, n, s.vaddr + k, was) == if k < s.filesz then file[s.offset + k] else 0
  {
    var s := segs[i];
    if i < n - 1 {
      assert s.Covers(s.vaddr + k) && !segs[n - 1].Covers(s.vaddr + k);
      ImageCorrect(file, segs, n - 1, i, k, was);
    }
  }

  /** Outside every segment nothing changes. */
  lemma {:induction false} GapsUntouched(file: seq<Byte>, segs: seq<Segment>, n: nat, a: int, was: Byte)
    requires AllProper(file, segs) && n <= |segs|
    requires forall i | 0 <= i < n :: !segs[i].Covers(a)
    ensures ImageByte(file, segs, n, a, was) == was
  {
    if n > 0 { GapsUntouched(file, segs, n - 1, a, was); }
  }

  // ----- the loader -----

  lemma ScanStep(segs: seq<Segment>, i: nat)
    requires i < |segs|
    ensures var s := segs[i];
            && Low(segs, i + 1) == (if s.Loads() && s.vaddr < Low(segs, i) then s.vaddr else Low(segs, i))
            && High(segs, i + 1) == (if s.Loads() && s.vaddr + s.memsz > High(segs, i) then s.vaddr + s.memsz else High(segs, i))
            && AnyLoads(segs, i + 1) == (s.Loads() || AnyLoads(segs, i))
  {
  }

  lemma SegmentProper(file: seq<Byte>, i: nat)
    requires Loadable(file) && i < PhNum(file)
    ensures HeaderInside(file, i) && Segments(file)[i] == SegmentAt(file, i) && Proper(file, SegmentAt(file, i))
  {
  }

  lemma FileFacts(file: seq<Byte>)
    requires Loadable(file)
    ensures EHDR_SIZE <= |file| && HeadersInside(file) && |Segments(file)| == PhNum(file) && AllProper(file, Segments(file))
  {
  }

  /** Pass 1 of `elf_load` */
  method Scan(file: seq<Byte>) returns (lo: Word, hi: Word, found: bool)
    requires Loadable(file)
    ensures var segs := Segments(file);
            lo == Low(segs, |segs|) && hi == High(segs, |segs|) && found == AnyLoads(segs, |segs|)
  {
    hide Loadable, HeadersInside, HeaderInside, SegmentAt, Segments, Low, High, AnyLoads, PhNum, AllProper;
    FileFacts(file);
    ghost var segs := Segments(file);
    ScanStart(segs);
    lo, hi, found := 0xFFFF_FFFF, 0, false;
    var i := 0;
    while i < PhNum(file)
      invariant 0 <= i <= PhNum(file)
      invariant lo == Low(segs, i) && hi == High(segs, i) && found == AnyLoads(segs, i)
    {
      ScanStep(segs, i);
      SegmentProper(file, i);
      var s := SegmentAt(file, i);
      if s.Loads() {
        var start: Word, end: Word := s.vaddr, Wrap(s.vaddr + s.memsz);
        if start < lo { lo := start; }
        if end > hi { hi := end; }
        found := true;
      }
      i := i + 1;
    }
  }

  lemma ScanStart(segs: seq<Segment>)
    ensures Low(segs, 0) == 0xFFFF_FFFF && High(segs, 0) == 0 && !AnyLoads(segs, 0)
  {
  }

  /** What the byte at p becomes when segment s is loaded at address dest. */
  ghost function Overlaid(file: seq<Byte>, s: Segment, dest: int, p: int, was: Byte): Byte
    requires s.Loads() && Proper(file, s)
  {
    if !(dest <= p < dest + s.memsz) then was
    else if p < dest + s.filesz then file[s.offset + (p - dest)]
    else 0
  }

  /** One round of pass 2: the copy loop and the zeroing loop. */
  method LoadSegment(mem: array<Byte>, file: seq<Byte>, s: Segment, dest: nat)
    requires s.Loads() && Proper(file, s) && dest + s.memsz <= mem.Length
    modifies mem
    ensures forall p | 0 <= p < mem.Length :: mem[p] == Overlaid(file, s, dest, p, old(mem[p]))
  {
    var j := 0;
    while j < s.filesz
      invariant 0 <= j <= s.filesz
      invariant forall p | 0 <= p < mem.Length ::
                  mem[p] == if dest <= p < dest + j then file[s.offset + (p - dest)] else old(mem[p])
    {
      mem[dest + j] := file[s.offset + j];
      j := j + 1;
    }
    if s.memsz > s.filesz {
      var bssStart, bssLen := s.filesz, s.memsz - s.filesz;
      j := 0;
      while j < bssLen
        invariant 0 <= j <= bssLen
        invariant forall p | 0 <= p < mem.Length ::
                    mem[p] == if dest <= p < dest + s.filesz then file[s.offset + (p - dest)]
                              else if dest + bssStart <= p < dest + bssStart + j then 0 else old(mem[p])
      {
        mem[dest + bssStart + j] := 0;
        j := j + 1;
      }
    }
  }

  lemma WrapAdd(x: int, y: int)
    ensures Wrap(Wrap(x) + y) == Wrap(x + y)
  {
    var q := x / TWO_TO_32;
    assert x + y == q * TWO_TO_32 + (Wrap(x) + y);
  }

  /** A page run handed out for users lies above the user boundary and below the end of memory. */
  lemma UserRunInside(used: seq<bool>, count: nat, base: int)
    requires base == Reply(used, UserRun(count)) && base != 0
    ensures base % PAGE_SIZE == 0 && USER_MEM_START <= base && base + count * PAGE_SIZE <= PageAddress(|used|)
    ensures count > 0
  {
  }

  lemma RefusedUnchanged(used: seq<bool>, q: Request)
    requires Reply(used, q) == 0
    ensures After(used, q) == used
  {
  }

  /** With enough pages the whole image fits: its addresses are shifted, without wrapping, from
      [Low, High) into the pages that start at base. */
  lemma ImageFits(file: seq<Byte>, segs: seq<Segment>, base: int, i: nat)
    requires AllProper(file, segs) && PagesNeeded(segs) > 0 && 0 <= base && base + PagesNeeded(segs) * PAGE_SIZE <= TWO_TO_32
    requires i < |segs| && segs[i].Loads()
    ensures var s, lo := segs[i], Low(segs, |segs|);
            && lo <= s.vaddr && s.vaddr - lo + s.memsz <= PagesNeeded(segs) * PAGE_SIZE
            && (s.memsz > 0 ==> Wrap(Wrap(base - lo) + s.vaddr) == base + (s.vaddr - lo))
  {
    hide PagesNeeded, Low, High, Wrap;
    RangeOk(segs, |segs|);
    HighBounded(file, segs, |segs|);
    NeededCovers(segs);
    var s, lo := segs[i], Low(segs, |segs|);
    WrapAdd(base - lo, s.vaddr);
    if s.memsz > 0 { WrapSmall(base + (s.vaddr - lo)); }
  }

  lemma {:induction false} HighBounded(file: seq<Byte>, segs: seq<Segment>, n: nat)
    requires AllProper(file, segs) && n <= |segs|
    ensures High(segs, n) < TWO_TO_32
  {
    if n > 0 {
      HighBounded(file, segs, n - 1);
      assert Proper(file, segs[n - 1]);
    }
  }

  /** The pages hold the range. */
  lemma NeededCovers(segs: seq<Segment>)
    requires PagesNeeded(segs) > 0 && Low(segs, |segs|) <= High(segs, |segs|) < TWO_TO_32
    ensures High(segs, |segs|) - Low(segs, |segs|) <= PagesNeeded(segs) * PAGE_SIZE
  {
    var size := High(segs, |segs|) - Low(segs, |segs|);
    hide Low, High;
    RoundUp(size);
  }

  lemma WrapSmall(x: int)
    requires 0 <= x < TWO_TO_32
    ensures Wrap(x) == x
  {
  }

  lemma RoundUp(size: nat)
    requires size < TWO_TO_32 && Wrap(size + 4095) / PAGE_SIZE > 0
    ensures size <= Wrap(size + 4095) / PAGE_SIZE * PAGE_SIZE < size + PAGE_SIZE
  {
  }

  /** Memory after the image has been loaded with its lowest address at base. */
  ghost predicate ImageAt(file: seq<Byte>, segs: seq<Segment>, n: nat, base: int, before: seq<Byte>, after: seq<Byte>)
    requires AllProper(file, segs) && n <= |segs|
  {
    && |after| == |before|
    && forall p | 0 <= p < |before| :: after[p] == ImageByte(file, segs, n, p - base + Low(segs, |segs|), before[p])
  }

  lemma OneMoreSegment(file: seq<Byte>, segs: seq<Segment>, n: nat, base: int, dest: int, before: seq<Byte>, middle: seq<Byte>, after: seq<Byte>)
    requires AllProper(file, segs) && n < |segs| && ImageAt(file, segs, n, base, before, middle) && |after| == |middle|
    requires var s := segs[n];
             if s.Loads() then
               && (s.memsz > 0 ==> dest == base + s.vaddr - Low(segs, |segs|))
               && forall p | 0 <= p < |middle| :: after[p] == Overlaid(file, s, dest, p, middle[p])
             else after == middle
    ensures ImageAt(file, segs, n + 1, base, before, after)
  {
    hide Low;
  }

  lemma NothingLoaded(file: seq<Byte>, segs: seq<Segment>, base: int, mem: seq<Byte>)
    requires AllProper(file, segs)
    ensures ImageAt(file, segs, 0, base, mem, mem)
  {
  }

  lemma ImageAddress(file: seq<Byte>, segs: seq<Segment>, base: int, i: nat, k: nat)
    requires AllProper(file, segs) && PagesNeeded(segs) > 0
    requires 0 <= base && base + PagesNeeded(segs) * PAGE_SIZE <= TWO_TO_32
    requires i < |segs| && segs[i].Loads() && k < segs[i].memsz
    ensures var s, lo := segs[i], Low(segs, |segs|);
            var a := base + (s.vaddr - lo) + k;
            Wrap(Wrap(base - lo) + s.vaddr + k) == a && base <= a < base + PagesNeeded(segs) * PAGE_SIZE
  {
    hide PagesNeeded, Low, Wrap;
    ImageFits(file, segs, base, i);
    var s, lo := segs[i], Low(segs, |segs|);
    WrapAdd(Wrap(base - lo) + s.vaddr, k);
    WrapSmall(base + (s.vaddr - lo) + k);
  }

  /** The image stands at base, and the pages it needs lie in memory. */
  ghost predicate LoadedAt(file: seq<Byte>, segs: seq<Segment>, base: int, before: seq<Byte>, after: seq<Byte>) {
    && AllProper(file, segs) && PagesNeeded(segs) > 0
    && 0 <= base && base + PagesNeeded(segs) * PAGE_SIZE <= |before| == |after| <= TWO_TO_32
    && ImageAt(file, segs, |segs|, base, before, after)
  }

  /** Byte k of a segment as the gABI wants it in memory. */
  function SegmentByte(file: seq<Byte>, s: Segment, k: nat): Byte
    requires s.Loads() && Proper(file, s) && k < s.memsz
  {
    if k < s.filesz then file[s.offset + k] else 0
  }

  /** `load_base + p_vaddr + k` modulo 2^32 */
  ghost function RunAddress(segs: seq<Segment>, base: int, s: Segment, k: nat): Word {
    Wrap(Wrap(base - Low(segs, |segs|)) + s.vaddr + k)
  }

  /** After pass 2 every byte of every segment stands at its run address, in the allocated pages. */
  lemma SegmentReadsBack(file: seq<Byte>, segs: seq<Segment>, base: int, before: seq<Byte>, after: seq<Byte>, i: nat, k: nat)
    requires LoadedAt(file, segs, base, before, after) && Disjoint(segs)
    requires i < |segs| && segs[i].Loads() && k < segs[i].memsz
    ensures var a := RunAddress(segs, base, segs[i], k);
            && base <= a < base + PagesNeeded(segs) * PAGE_SIZE && a < |after|
            && after[a] == SegmentByte(file, segs[i], k)
  {
    hide PagesNeeded, Low, ImageByte, Wrap, Disjoint, ImageAt, Half, Full;
    ImageAddress(file, segs, base, i, k);
    var a := base + (segs[i].vaddr - Low(segs, |segs|)) + k;
    ImageAtByte(file, segs, |segs|, base, before, after, a);
    ImageCorrect(file, segs, |segs|, i, k, before[a]);
  }

  lemma ImageAtByte(file: seq<Byte>, segs: seq<Segment>, n: nat, base: int, before: seq<Byte>, after: seq<Byte>, p: nat)
    requires AllProper(file, segs) && n <= |segs| && ImageAt(file, segs, n, base, before, after) && p < |before|
    ensures |after| == |before| && after[p] == ImageByte(file, segs, n, p - base + Low(segs, |segs|), before[p])
  {
  }

  /** Nothing outside the allocated pages is written. */
  lemma OnlyPagesWritten(file: seq<Byte>, segs: seq<Segment>, base: int, before: seq<Byte>, after: seq<Byte>, p: nat)
    requires LoadedAt(file, segs, base, before, after)
    requires p < |before| && !(base <= p < base + PagesNeeded(segs) * PAGE_SIZE)
    ensures after[p] == before[p]
  {
    hide PagesNeeded, Low, ImageByte;
    var a := p - base + Low(segs, |segs|);
    forall i | 0 <= i < |segs| ensures !segs[i].Covers(a) {
      if segs[i].Loads() { ImageFits(file, segs, base, i); }
    }
    GapsUntouched(file, segs, |segs|, a, before[p]);
  }

  // ----- files of any kind -----

  /** The bytes that pass 2 writes for a segment: `p_filesz`, and zeros up to `p_memsz` if that is more. */
  function Extent(s: Segment): nat {
    if !s.Loads() then 0 else if s.filesz > s.memsz then s.filesz else s.memsz
  }

  /** The address of byte j of a segment; both additions wrap. */
  ghost function WriteAddress(segs: seq<Segment>, base: int, s: Segment, j: nat): Word {
    Wrap(Wrap(Wrap(base - Low(segs, |segs|)) + s.vaddr) + j)
  }

  /** Pass 2 writes only to the count pages from base on. */
  ghost predicate StaysInside(segs: seq<Segment>, base: int, count: nat) {
    forall i, j {:trigger WriteAddress(segs, base, segs[i], j)} | 0 <= i < |segs| && 0 <= j < Extent(segs[i]) ::
      base <= WriteAddress(segs, base, segs[i], j) < base + count * PAGE_SIZE
  }

  /** The greatest end address as pass 1 computes it, modulo 2^32. */
  ghost function WrappedHigh(segs: seq<Segment>, n: nat): Word
    requires n <= |segs|
  {
    if n == 0 then 0
    else
      var s := segs[n - 1];
      var end := Wrap(s.vaddr + s.memsz);
      if s.Loads() && end > WrappedHigh(segs, n - 1) then end else WrappedHigh(segs, n - 1)
  }

  /** The number of pages that `elf_load` asks for, whatever the file says. */
  ghost function PagesAsked(segs: seq<Segment>): nat {
    Wrap(Wrap(WrappedHigh(segs, |segs|) - Low(segs, |segs|)) + 4095) / PAGE_SIZE
  }

  lemma {:induction false} SameHigh(file: seq<Byte>, segs: seq<Segment>, n: nat)
    requires AllProper(file, segs) && n <= |segs|
    ensures WrappedHigh(segs, n) == High(segs, n)
  {
    if n > 0 {
      SameHigh(file, segs, n - 1);
      assert Proper(file, segs[n - 1]);
      if segs[n - 1].Loads() { WrapSmall(segs[n - 1].vaddr + segs[n - 1].memsz); }
    }
  }

  lemma AskedAsNeeded(file: seq<Byte>, segs: seq<Segment>)
    requires AllProper(file, segs)
    ensures PagesAsked(segs) == PagesNeeded(segs)
  {
    hide Low, High, WrappedHigh;
    SameHigh(file, segs, |segs|);
  }

  /** The segment lies in the count pages that start at Low. */
  predicate WithinPages(s: Segment, lo: Word, count: nat) {
    Extent(s) > 0 ==> s.vaddr - lo + Extent(s) <= count * PAGE_SIZE
  }

  /** For any file at all: pass 2 stays in its pages exactly if no segment reaches further above the
      lowest address than the pages do, the longer of `p_filesz` and `p_memsz` counting. */
  lemma PassTwoStaysExactly(segs: seq<Segment>, base: int, count: nat)
    requires 0 < base && base + count * PAGE_SIZE <= TWO_TO_32
    ensures StaysInside(segs, base, count) <==> forall i | 0 <= i < |segs| :: WithinPages(segs[i], Low(segs, |segs|), count)
  {
    hide Low, Extent;
    RangeOk(segs, |segs|);
    forall i | 0 <= i < |segs| && segs[i].Loads() ensures Low(segs, |segs|) <= segs[i].vaddr {}
    if forall i | 0 <= i < |segs| :: WithinPages(segs[i], Low(segs, |segs|), count) {
      forall i, j | 0 <= i < |segs| && 0 <= j < Extent(segs[i])
        ensures base <= WriteAddress(segs, base, segs[i], j) < base + count * PAGE_SIZE
      {
        assert WithinPages(segs[i], Low(segs, |segs|), count);
        OnlyLoads(segs[i]);
        WriteAddressIs(segs, base, segs[i], j);
        WrapSmall(base + (segs[i].vaddr - Low(segs, |segs|)) + j);
      }
    } else {
      var i :| 0 <= i < |segs| && !WithinPages(segs[i], Low(segs, |segs|), count);
      OnlyLoads(segs[i]);
      var off := segs[i].vaddr - Low(segs, |segs|);
      var j := if off >= count * PAGE_SIZE then 0 else count * PAGE_SIZE - off;
      WriteAddressIs(segs, base, segs[i], j);
      FarAddress(base, count * PAGE_SIZE, off + j);
      assert 0 <= j < Extent(segs[i]);
    }
  }

  lemma OnlyLoads(s: Segment)
    ensures Extent(s) > 0 ==> s.Loads()
  {
  }

  lemma WriteAddressIs(segs: seq<Segment>, base: int, s: Segment, j: nat)
    ensures WriteAddress(segs, base, s, j) == Wrap(base + (s.vaddr - Low(segs, |segs|)) + j)
  {
    hide Low, Wrap;
    var lo: int := Low(segs, |segs|);
    WrapAdd(base - lo, s.vaddr);
    WrapAdd(base - lo + s.vaddr, j);
  }

  /** An offset past the pages, but less than 2^32, leads out of them, also around the end. */
  lemma FarAddress(base: int, size: nat, off: int)
    requires 0 < base && base + size <= TWO_TO_32 && size <= off < TWO_TO_32
    ensures !(base <= Wrap(base + off) < base + size)
  {
    if base + off < TWO_TO_32 {
      WrapSmall(base + off);
    } else {
      WrapOver(base + off);
    }
  }

  lemma WrapOver(x: int)
    requires TWO_TO_32 <= x < 2 * TWO_TO_32
    ensures Wrap(x) == x - TWO_TO_32
  {
    assert x == 1 * TWO_TO_32 + (x - TWO_TO_32);
  }

  /** A segment with a `p_filesz` of two pages and a `p_memsz` of one byte gets one page and is written
      past it. */
  lemma FileLargerThanMemory(base: int)
    requires 0 < base && base + PAGE_SIZE <= TWO_TO_32
    ensures var segs := [Segment(PT_LOAD, 0, 0, 2 * PAGE_SIZE, 1)];
            PagesAsked(segs) == 1 && !StaysInside(segs, base, PagesAsked(segs))
  {
    var s := Segment(PT_LOAD, 0, 0, 2 * PAGE_SIZE, 1);
    var segs := [s];
    assert segs[0] == s;
    assert Low(segs, 0) == 0xFFFF_FFFF && WrappedHigh(segs, 0) == 0;
    assert Low(segs, 1) == 0 && WrappedHigh(segs, 1) == 1;
    PassTwoStaysExactly(segs, base, 1);
    assert !WithinPages(segs[0], 0, 1);
  }

  // ----- the dump before the return -----

  const DUMP_BYTES := 0x37

  /** `hexdump_line` reads len bytes from addr; `mapped` are the addresses of the pages that are
      present in the directory in use.  Every other read faults, and `isr_handler` then halts. */
  ghost predicate Readable(mapped: set<int>, addr: int, len: nat) {
    forall a | addr <= a < addr + len :: ByteReadable(mapped, a)
  }

  predicate ByteReadable(mapped: set<int>, a: int) {
    PageBase(Wrap(a)) in mapped
  }

  /** The loop of `hexdump_line`, as far as it touches memory: does it come to its end? */
  method HexdumpLine(mapped: set<int>, addr: Word, len: nat) returns (done: bool)
    ensures done <==> Readable(mapped, addr, len)
  {
    var i := 0;
    while i < len
      invariant 0 <= i <= len && Readable(mapped, addr, i)
    {
      if !ByteReadable(mapped, addr + i) { return false; }
      i := i + 1;
    }
    done := true;
  }

  /** `paging_init` and `paging_unmap_null_page` leave the pages of [4096, top) present. */
  predicate IdentityMap(mapped: set<int>, top: int) {
    && PAGE_SIZE <= top <= TWO_TO_32 && top % PAGE_SIZE == 0
    && forall p | 0 <= p < TWO_TO_32 :: PageBase(p) in mapped <==> PAGE_SIZE <= p < top
  }

  /** The part of the identity mapping that the loader writes through. */
  predicate MapsMemory(mapped: set<int>, top: int) {
    forall p | PAGE_SIZE <= p < top :: PageBase(p) in mapped
  }

  /** With only the identity mapping, a range is readable exactly if it lies in memory above the
      unmapped page 0, as it cannot run over the end of the addresses into that page. */
  lemma ReadableExactly(mapped: set<int>, top: int, addr: Word, len: nat)
    requires IdentityMap(mapped, top) && 0 < len
    ensures Readable(mapped, addr, len) <==> PAGE_SIZE <= addr && addr + len <= top
  {
    if PAGE_SIZE <= addr && addr + len <= top {
      forall a | addr <= a < addr + len ensures ByteReadable(mapped, a) {
        WrapSmall(a);
      }
    } else if addr < PAGE_SIZE || top <= addr {
      WrapSmall(addr);
      assert !ByteReadable(mapped, addr);
    } else {
      assert !ByteReadable(mapped, top) by {
        assert PageBase(0) == 0;
        if top < TWO_TO_32 { WrapSmall(top); } else { assert Wrap(top) == 0; }
      }
    }
  }

  /** Where the image must be linked for `elf_load` to return: far enough below the pages that it
      gets, or so far above them that the wrapped load base comes to lie in memory again. */
  lemma DumpExactly(mapped: set<int>, top: int, base: int, lo: Word)
    requires IdentityMap(mapped, top) && PAGE_SIZE <= base <= top - PAGE_SIZE
    ensures Readable(mapped, Wrap(base - lo), DUMP_BYTES) <==>
            lo <= base - PAGE_SIZE || base + (TWO_TO_32 - top) + DUMP_BYTES <= lo
  {
    ReadableExactly(mapped, top, Wrap(base - lo), DUMP_BYTES);
    if lo <= base {
      WrapSmall(base - lo);
    } else {
      WrapBelow(base - lo);
    }
  }

  lemma WrapBelow(x: int)
    requires -TWO_TO_32 <= x < 0
    ensures Wrap(x) == x + TWO_TO_32
  {
    assert x + TWO_TO_32 == -(-1) * TWO_TO_32 + x;
  }

  // ----- what `elf_load` returns -----

  /** `Faulted`: the machine has halted in the dump. */
  datatype LoadResult = Returned(entry: Word, pages: seq<Word>) | Faulted

  /** The pages whose list `elf_load` hands to its caller. */
  ghost predicate ListsRun(pages: seq<Word>, base: int, count: nat) {
    |pages| == count && forall i | 0 <= i < count :: pages[i] == base + i * PAGE_SIZE
  }

  /** The outcome of `elf_load`: nothing for a bad magic number, a file without loadable segments
      or a full memory; otherwise the image in freshly allocated user pages, and nothing else.  The
      call then returns exactly if the bytes of the dump at `load_base` can be read.  `memory` is the
      answer of `kmalloc` for the page list: it is not checked, and without it the first store of the
      list faults on page 0. */
  ghost predicate LoadOk(file: seq<Byte>, mapped: set<int>, memory: bool, used: seq<bool>, before: seq<Byte>,
                         used2: seq<bool>, after: seq<Byte>, r: LoadResult)
    requires Loadable(file)
  {
    var segs := Segments(file);
    if Rejected(file, segs, used) then
      used2 == used && after == before && r == Returned(0, [])
    else if !memory then
      used2 == After(used, UserRun(PagesNeeded(segs))) && after == before && r == Faulted
    else
      var q := UserRun(PagesNeeded(segs));
      var base := Reply(used, q);
      && used2 == After(used, q)
      && ImageAt(file, segs, |segs|, base, before, after)
      && (r.Returned? <==> Readable(mapped, Wrap(base - Low(segs, |segs|)), DUMP_BYTES))
      && (r.Returned? ==>
            && ListsRun(r.pages, base, PagesNeeded(segs))
            && r.entry == Wrap(base - Low(segs, |segs|) + Entry(file)))
  }

  /** The errors that `elf_load` reports */
  ghost predicate Rejected(file: seq<Byte>, segs: seq<Segment>, used: seq<bool>)
    requires |file| >= EHDR_SIZE
  {
    !GoodMagic(file) || !AnyLoads(segs, |segs|) || Reply(used, UserRun(PagesNeeded(segs))) == 0
  }

  /** Pass 2 of `elf_load` */
  method CopySegments(mem: array<Byte>, file: seq<Byte>, ghost segs: seq<Segment>, ghost base: int, loadBase: Word)
    requires Loadable(file) && segs == Segments(file) && PagesNeeded(segs) > 0
    requires 0 <= base && base + PagesNeeded(segs) * PAGE_SIZE <= mem.Length <= TWO_TO_32
    requires loadBase == Wrap(base - Low(segs, |segs|))
    modifies mem
    ensures AllProper(file, segs) && ImageAt(file, segs, |segs|, base, old(mem[..]), mem[..])
  {
    hide Low, PagesNeeded, ImageAt, Overlaid, Proper, AllProper, Loadable, HeadersInside, SegmentAt, Segments, HeaderInside, PhNum;
    FileFacts(file);
    NothingLoaded(file, segs, base, mem[..]);
    var i := 0;
    while i < PhNum(file)
      invariant 0 <= i <= PhNum(file)
      invariant ImageAt(file, segs, i, base, old(mem[..]), mem[..])
    {
      SegmentProper(file, i);
      ghost var middle := mem[..];
      var s := SegmentAt(file, i);
      if s.Loads() {
        ImageFits(file, segs, base, i);
        var dest := Wrap(loadBase + s.vaddr);
        LoadSegment(mem, file, s, dest);
        OneMoreSegment(file, segs, i, base, dest, old(mem[..]), middle, mem[..]);
      } else {
        OneMoreSegment(file, segs, i, base, 0, old(mem[..]), middle, mem[..]);
      }
      i := i + 1;
    }
  }

  /** The page list for the caller */
  method ListPages(base: Word, count: nat) returns (pages: seq<Word>)
    requires base + count * PAGE_SIZE <= TWO_TO_32
    ensures ListsRun(pages, base, count)
  {
    var list := new Word[count];
    var i := 0;
    while i < count
      invariant 0 <= i <= count
      invariant forall k | 0 <= k < i :: list[k] == base + k * PAGE_SIZE
    {
      list[i] := Wrap(base + i * PAGE_SIZE);
      i := i + 1;
    }
    pages := list[..];
  }

  lemma RangeFacts(file: seq<Byte>, base: int)
    requires Loadable(file)
    ensures |file| >= EHDR_SIZE
    ensures var segs := Segments(file);
            var lo, hi := Low(segs, |segs|), High(segs, |segs|);
            && PagesNeeded(segs) == Wrap(Wrap(hi - lo) + 4095) / PAGE_SIZE
            && Wrap(Wrap(base - lo) + Entry(file)) == Wrap(base - lo + Entry(file))
  {
    var segs := Segments(file);
    hide Low, High, Entry, Wrap;
    WrapAdd(base - Low(segs, |segs|), Entry(file));
  }

  /** `elf_load` */
  method Load(file: seq<Byte>, mapped: set<int>, memory: bool, mem: array<Byte>, pmm: Allocator) returns (r: LoadResult)
    requires Loadable(file) && pmm.Valid()
    requires 0 !in mapped && MapsMemory(mapped, PageAddress(pmm.totalPages))
    requires PageAddress(pmm.totalPages) <= mem.Length <= TWO_TO_32
    requires mem as object != pmm.bitmap
    modifies mem, pmm, pmm.bitmap
    ensures pmm.Valid()
    ensures LoadOk(file, mapped, memory, old(pmm.used), old(mem[..]), pmm.used, mem[..], r)
  {
    hide Allocator.Valid, Allocator.BitmapOk, Loadable, HeadersInside, Segments, AllProper, Low, High, PagesNeeded, AnyLoads, PhNum, Entry, ImageAt, ListsRun, After, Reply, Readable, MapsMemory;
    FileFacts(file);
    RangeFacts(file, 0);
    if !GoodMagic(file) { return Returned(0, []); }
    var lo, hi, found := Scan(file);
    if !found { return Returned(0, []); }
    var low: int, high: int := lo, hi;
    var totalSize: int := Wrap(high - low);
    var numPages := Wrap(totalSize + 4095) / PAGE_SIZE;
    var base := pmm.AllocContiguousUserPages(numPages);
    if base == 0 {
      RefusedUnchanged(old(pmm.used), UserRun(numPages));
      return Returned(0, []);
    }
    UserRunInside(old(pmm.used), numPages, base);
    pmm.PageCount();
    RangeFacts(file, base);
    var loadBase: int := Wrap(base - low);
    if !memory { return Faulted; }
    var pages := ListPages(base, numPages);
    CopySegments(mem, file, Segments(file), base, loadBase);
    var done := HexdumpLine(mapped, loadBase, DUMP_BYTES);
    r := if done then Returned(Wrap(loadBase + Entry(file)), pages) else Faulted;
  }

  /** What a load that returns a program comes to: the image stands in pages of the user region that
      were free before and that the page list names one by one. */
  lemma LoadGives(file: seq<Byte>, segs: seq<Segment>, mapped: set<int>, memory: bool, used: seq<bool>, before: seq<Byte>, used2: seq<bool>, after: seq<Byte>, r: LoadResult)
    requires Loadable(file) && segs == Segments(file) && LoadOk(file, mapped, memory, used, before, used2, after, r)
    requires !Rejected(file, segs, used) && r.Returned?
    requires PageAddress(|used|) <= |before| <= TWO_TO_32
    ensures var base := Reply(used, UserRun(PagesNeeded(segs)));
            && LoadedAt(file, segs, base, before, after)
            && r.entry == Wrap(Wrap(base - Low(segs, |segs|)) + Entry(file))
            && RunFree(used, Answer(used, UserRun(PagesNeeded(segs))), PagesNeeded(segs))
            && forall p | base <= p < base + PagesNeeded(segs) * PAGE_SIZE :: PageBase(p) in r.pages
  {
    hide PagesNeeded, Low, High, AnyLoads, Entry, After, Answer, Reply, Segments, AllProper, ImageAt, ListsRun, RunFree, Readable;
    var q := UserRun(PagesNeeded(segs));
    GrantedFree(used, q);
    UserRunInside(used, q.count, Reply(used, q));
    RangeFacts(file, Reply(used, q));
    RunListed(r.pages, Reply(used, q), q.count);
    SameLength(file, segs, Reply(used, q), before, after);
  }

  /** The image theorem: when `elf_load` returns a program, byte k of each segment is read at
      `load_base + p_vaddr + k`, and that address lies in a listed page. */
  lemma ProgramReadsBack(file: seq<Byte>, segs: seq<Segment>, mapped: set<int>, memory: bool, used: seq<bool>, before: seq<Byte>, used2: seq<bool>, after: seq<Byte>, r: LoadResult, i: nat, k: nat)
    requires Loadable(file) && segs == Segments(file) && LoadOk(file, mapped, memory, used, before, used2, after, r)
    requires !Rejected(file, segs, used) && r.Returned? && Disjoint(segs)
    requires PageAddress(|used|) <= |before| <= TWO_TO_32
    requires i < |segs| && segs[i].Loads() && k < segs[i].memsz
    ensures Proper(file, segs[i])
    ensures var a := Wrap(r.entry - Entry(file) + segs[i].vaddr + k);
            a < |after| && after[a] == SegmentByte(file, segs[i], k) && PageBase(a) in r.pages
  {
    hide LoadOk, Loadable, Segments, PagesNeeded, Low, AnyLoads, Entry, Answer, Reply, Disjoint, RunFree, Rejected, ImageAt, Wrap;
    FileFacts(file);
    LoadGives(file, segs, mapped, memory, used, before, used2, after, r);
    var base := Reply(used, UserRun(PagesNeeded(segs)));
    SegmentReadsBack(file, segs, base, before, after, i, k);
    var loadBase: int := Wrap(base - Low(segs, |segs|));
    var start: int := Entry(file);
    WrapAdd(loadBase + start, segs[i].vaddr + k - start);
  }

  /** With only the identity mapping of memory, `elf_load` returns exactly on an error or if there is
      memory for the page list and the image is linked at an address that `DumpExactly` allows. */
  lemma LoadReturnsExactly(file: seq<Byte>, segs: seq<Segment>, mapped: set<int>, top: int, memory: bool, used: seq<bool>, before: seq<Byte>, used2: seq<bool>, after: seq<Byte>, r: LoadResult)
    requires Loadable(file) && segs == Segments(file) && LoadOk(file, mapped, memory, used, before, used2, after, r)
    requires IdentityMap(mapped, top) && PageAddress(|used|) <= top
    ensures var base, lo := Reply(used, UserRun(PagesNeeded(segs))), Low(segs, |segs|);
            r.Returned? <==>
              Rejected(file, segs, used) || (memory && (lo <= base - PAGE_SIZE || base + (TWO_TO_32 - top) + DUMP_BYTES <= lo))
  {
    hide Low, High, AnyLoads, After, Answer, Segments, AllProper, ImageAt, ListsRun, Readable, IdentityMap, PagesNeeded;
    if !Rejected(file, segs, used) {
      var q := UserRun(PagesNeeded(segs));
      UserRunInside(used, q.count, Reply(used, q));
      hide Reply;
      DumpExactly(mapped, top, Reply(used, q), Low(segs, |segs|));
    }
  }

  // ----- files from their headers -----

  type HalfWord = x: int | 0 <= x < 0x1_0000

  type Ident = s: seq<Byte> | |s| == 16 witness [0, 0, 0, 0, 0, 0, 0, 0, 0, 0, 0, 0, 0, 0, 0, 0]

  /** The ELF header (gABI, chapter 4). */
  datatype Header = Header(ident: Ident, kind: HalfWord, machine: HalfWord, version: Word, entry: Word, phoff: Word,
                           shoff: Word, flags: Word, ehsize: HalfWord, phentsize: HalfWord, phnum: HalfWord,
                           shentsize: HalfWord, shnum: HalfWord, shstrndx: HalfWord)

  /** A program header (gABI, chapter 5). */
  datatype ProgramHeader = ProgramHeader(kind: Word, offset: Word, vaddr: Word, paddr: Word, filesz: Word, memsz: Word,
                                         flags: Word, align: Word)
  {
    function ToSegment(): Segment {
      Segment(kind, offset, vaddr, filesz, memsz)
    }
  }

  function Le2(x: HalfWord): seq<Byte> {
    [x % 0x100, x / 0x100]
  }

  function Le4(w: Word): seq<Byte> {
    [w % 0x100, w / 0x100 % 0x100, w / 0x1_0000 % 0x100, w / 0x100_0000]
  }

  /** The 52 bytes of the header, field after field. */
  function EncodeHeader(h: Header): seq<Byte> {
    h.ident + Le2(h.kind) + Le2(h.machine) + Le4(h.version) + Le4(h.entry) + Le4(h.phoff) + Le4(h.shoff) + Le4(h.flags)
    + Le2(h.ehsize) + Le2(h.phentsize) + Le2(h.phnum) + Le2(h.shentsize) + Le2(h.shnum) + Le2(h.shstrndx)
  }

  /** The 32 bytes of a program header. */
  function EncodeProgramHeader(p: ProgramHeader): seq<Byte> {
    Le4(p.kind) + Le4(p.offset) + Le4(p.vaddr) + Le4(p.paddr) + Le4(p.filesz) + Le4(p.memsz) + Le4(p.flags) + Le4(p.align)
  }

  ghost predicate HoldsAt(file: seq<Byte>, o: int, p: ProgramHeader) {
    0 <= o && o + PHDR_SIZE <= |file| && file[o..o + PHDR_SIZE] == EncodeProgramHeader(p)
  }

  /** The file has p at entry i of the table that the header h describes. */
  ghost predicate HoldsEntry(file: seq<Byte>, h: Header, p: ProgramHeader, i: nat) {
    HoldsAt(file, h.phoff + i * h.phentsize, p)
  }

  /** A file with this header and this table, wherever the table lies and whatever else the file holds. */
  ghost predicate HoldsHeaders(file: seq<Byte>, h: Header, ps: seq<ProgramHeader>) {
    && EHDR_SIZE <= |file| < TWO_TO_32 && file[..EHDR_SIZE] == EncodeHeader(h)
    && |ps| == h.phnum && forall i | 0 <= i < |ps| :: HoldsEntry(file, h, ps[i], i)
  }

  function ToSegments(ps: seq<ProgramHeader>): (segs: seq<Segment>) {
    seq(|ps|, i requires 0 <= i < |ps| => ps[i].ToSegment())
  }

  lemma HeaderFields(h: Header)
    ensures var e := EncodeHeader(h);
            && |e| == EHDR_SIZE && e[..16] == h.ident && e[24..28] == Le4(h.entry) && e[28..32] == Le4(h.phoff)
            && e[42..44] == Le2(h.phentsize) && e[44..46] == Le2(h.phnum)
  {
    hide Le2, Le4;
    var a := h.ident + Le2(h.kind) + Le2(h.machine) + Le4(h.version);
    var b := Le4(h.shoff) + Le4(h.flags) + Le2(h.ehsize);
    var c := Le2(h.shentsize) + Le2(h.shnum) + Le2(h.shstrndx);
    LeSizes();
    assert EncodeHeader(h) == a + Le4(h.entry) + Le4(h.phoff) + b + Le2(h.phentsize) + Le2(h.phnum) + c;
  }

  lemma LeSizes()
    ensures forall x :: |Le2(x)| == 2
    ensures forall w :: |Le4(w)| == 4
  {
  }

  lemma ProgramHeaderFields(p: ProgramHeader)
    ensures var e := EncodeProgramHeader(p);
            && |e| == PHDR_SIZE && e[0..4] == Le4(p.kind) && e[4..8] == Le4(p.offset) && e[8..12] == Le4(p.vaddr)
            && e[16..20] == Le4(p.filesz) && e[20..24] == Le4(p.memsz)
  {
    hide Le4;
    LeSizes();
  }

  lemma FullReads(file: seq<Byte>, o: nat, w: Word)
    requires o + 4 <= |file| && file[o..o + 4] == Le4(w)
    ensures Full(file, o) == w
  {
    WordBytes(w);
    var b := file[o..o + 4];
    assert file[o] == b[0] && file[o + 1] == b[1] && file[o + 2] == b[2] && file[o + 3] == b[3];
    FullOf(file, o, file[o], file[o + 1], file[o + 2], file[o + 3], w);
  }

  lemma HalfReads(file: seq<Byte>, o: nat, x: HalfWord)
    requires o + 2 <= |file| && file[o..o + 2] == Le2(x)
    ensures Half(file, o) == x
  {
    var b := file[o..o + 2];
    assert file[o] == b[0] && file[o + 1] == b[1];
  }

  lemma Inner(file: seq<Byte>, o: nat, part: seq<Byte>, i: nat, n: nat)
    requires o + |part| <= |file| && file[o..o + |part|] == part && i + n <= |part|
    ensures file[o + i..o + i + n] == part[i..i + n]
  {
    var a, b := file[o + i..o + i + n], part[i..i + n];
    forall k | 0 <= k < n ensures a[k] == b[k] {
      assert file[o..o + |part|][i + k] == part[i + k];
    }
  }

  /** The header that a file holds is what the loader reads. */
  lemma HeaderReadsBack(file: seq<Byte>, h: Header)
    requires EHDR_SIZE <= |file| && file[..EHDR_SIZE] == EncodeHeader(h)
    ensures GoodMagic(file) <==> h.ident[..6] == [0x7F, 0x45, 0x4C, 0x46, 1, 1]
    ensures Entry(file) == h.entry && PhOff(file) == h.phoff && PhEntSize(file) == h.phentsize && PhNum(file) == h.phnum
  {
    hide Half, Full, Le2, Le4, EncodeHeader;
    var e := EncodeHeader(h);
    HeaderFields(h);
    assert file[0..0 + |e|] == e;
    Inner(file, 0, e, 0, 16);
    assert h.ident == file[..16];
    assert forall k | 0 <= k < 6 :: h.ident[k] == file[k];
    Inner(file, 0, e, 24, 4);
    Inner(file, 0, e, 28, 4);
    Inner(file, 0, e, 42, 2);
    Inner(file, 0, e, 44, 2);
    FullReads(file, 24, h.entry);
    FullReads(file, 28, h.phoff);
    HalfReads(file, 42, h.phentsize);
    HalfReads(file, 44, h.phnum);
  }

  /** The 32 bytes of a program header at o are read as its fields. */
  lemma ProgramHeaderReads(file: seq<Byte>, o: nat, p: ProgramHeader)
    requires o + PHDR_SIZE <= |file| && file[o..o + PHDR_SIZE] == EncodeProgramHeader(p)
    ensures Segment(Full(file, o), Full(file, o + 4), Full(file, o + 8), Full(file, o + 16), Full(file, o + 20)) == p.ToSegment()
  {
    hide Full, Le4, EncodeProgramHeader;
    var e := EncodeProgramHeader(p);
    ProgramHeaderFields(p);
    Inner(file, o, e, 0, 4);
    Inner(file, o, e, 4, 4);
    Inner(file, o, e, 8, 4);
    Inner(file, o, e, 16, 4);
    Inner(file, o, e, 20, 4);
    FullReads(file, o, p.kind);
    FullReads(file, o + 4, p.offset);
    FullReads(file, o + 8, p.vaddr);
    FullReads(file, o + 16, p.filesz);
    FullReads(file, o + 20, p.memsz);
  }

  /** So is every program header. */
  lemma EntryReadsBack(file: seq<Byte>, h: Header, p: ProgramHeader, i: nat)
    requires EHDR_SIZE <= |file| && PhOff(file) == h.phoff && PhEntSize(file) == h.phentsize && HoldsEntry(file, h, p, i)
    ensures HeaderInside(file, i) && SegmentAt(file, i) == p.ToSegment()
  {
    hide Full, EncodeProgramHeader, PhOff, PhEntSize;
    ProgramHeaderReads(file, h.phoff + i * h.phentsize, p);
  }

  /** The loader reads any file as its headers say. */
  lemma FileReadsBack(file: seq<Byte>, h: Header, ps: seq<ProgramHeader>)
    requires HoldsHeaders(file, h, ps)
    ensures HeadersInside(file) && Segments(file) == ToSegments(ps) && Entry(file) == h.entry
    ensures GoodMagic(file) <==> h.ident[..6] == [0x7F, 0x45, 0x4C, 0x46, 1, 1]
  {
    hide Entry, PhOff, PhEntSize, PhNum, GoodMagic, SegmentAt, HeaderInside, HoldsEntry, EncodeHeader;
    HeaderReadsBack(file, h);
    forall i | 0 <= i < |ps| ensures HeaderInside(file, i) && SegmentAt(file, i) == ps[i].ToSegment() {
      assert HoldsEntry(file, h, ps[i], i);
      EntryReadsBack(file, h, ps[i], i);
    }
    assert HeadersInside(file);
  }

  /** Such a file: header, gap, table with `pad` behind every entry, rest. */
  function Encode(h: Header, gap: seq<Byte>, ps: seq<ProgramHeader>, pad: seq<Byte>, rest: seq<Byte>): seq<Byte> {
    EncodeHeader(h) + gap + Table(ps, pad) + rest
  }

  function Table(ps: seq<ProgramHeader>, pad: seq<Byte>): seq<Byte> {
    if ps == [] then [] else EncodeProgramHeader(ps[0]) + pad + Table(ps[1..], pad)
  }

  /** A program header behind other bytes. */
  lemma Behind(head: seq<Byte>, table: seq<Byte>, rest: seq<Byte>, o: int, p: ProgramHeader)
    requires HoldsAt(table, o, p)
    ensures HoldsAt(head + table + rest, |head| + o, p)
  {
    hide EncodeProgramHeader;
    assert (head + table + rest)[|head| + o..|head| + o + PHDR_SIZE] == table[o..o + PHDR_SIZE];
  }

  lemma {:induction false} TableEntry(ps: seq<ProgramHeader>, pad: seq<Byte>, i: nat)
    requires i < |ps|
    ensures HoldsAt(Table(ps, pad), i * (PHDR_SIZE + |pad|), ps[i])
  {
    hide EncodeProgramHeader;
    ProgramHeaderFields(ps[0]);
    var first, n := EncodeProgramHeader(ps[0]), PHDR_SIZE + |pad|;
    if i == 0 {
      assert Table(ps, pad) == first + (pad + Table(ps[1..], pad));
    } else {
      TableEntry(ps[1..], pad, i - 1);
      OneEntryOn(i, n);
      Behind(first + pad, Table(ps[1..], pad), [], (i - 1) * n, ps[i]);
      assert Table(ps, pad) == first + pad + Table(ps[1..], pad) + [];
    }
  }

  lemma OneEntryOn(i: int, n: int)
    ensures i * n == n + (i - 1) * n
  {
  }

  /** Every header and every table have a file, whatever lies between and behind them. */
  lemma EncodeHolds(h: Header, gap: seq<Byte>, ps: seq<ProgramHeader>, pad: seq<Byte>, rest: seq<Byte>)
    requires h.phoff == EHDR_SIZE + |gap| && h.phentsize == PHDR_SIZE + |pad| && h.phnum == |ps|
    requires |Encode(h, gap, ps, pad, rest)| < TWO_TO_32
    ensures HoldsHeaders(Encode(h, gap, ps, pad, rest), h, ps)
  {
    hide EncodeHeader, HoldsAt, Table;
    HeaderFields(h);
    var file := Encode(h, gap, ps, pad, rest);
    assert file[..EHDR_SIZE] == EncodeHeader(h);
    forall i | 0 <= i < |ps| ensures HoldsEntry(file, h, ps[i], i) {
      TableEntry(ps, pad, i);
      Behind(EncodeHeader(h) + gap, Table(ps, pad), rest, i * (PHDR_SIZE + |pad|), ps[i]);
    }
  }

  /** From the headers of a file to the running program: the entry point is the load base plus
      e_entry, and from there every byte of every segment lies where it was linked, relative to e_entry. */
  lemma ProgramOfFile(file: seq<Byte>, h: Header, ps: seq<ProgramHeader>, mapped: set<int>, memory: bool, used: seq<bool>, before: seq<Byte>, used2: seq<bool>, after: seq<Byte>, r: LoadResult, i: nat, k: nat)
    requires HoldsHeaders(file, h, ps) && Loadable(file) && LoadOk(file, mapped, memory, used, before, used2, after, r)
    requires !Rejected(file, ToSegments(ps), used) && r.Returned? && Disjoint(ToSegments(ps))
    requires PageAddress(|used|) <= |before| <= TWO_TO_32
    requires i < |ps| && ps[i].kind == 1 && k < ps[i].memsz
    ensures var segs := ToSegments(ps);
            r.entry == Wrap(Wrap(Reply(used, UserRun(PagesNeeded(segs))) - Low(segs, |segs|)) + h.entry)
    ensures ps[i].offset + ps[i].filesz <= |file|
    ensures var a := Wrap(r.entry - h.entry + ps[i].vaddr + k);
            && a < |after| && PageBase(a) in r.pages
            && after[a] == if k < ps[i].filesz then file[ps[i].offset + k] else 0
  {
    hide HoldsHeaders, Loadable, LoadOk, Rejected, Segments, Entry, GoodMagic, Disjoint, PagesNeeded, Low, Answer, Reply, RunFree, LoadedAt, HeadersInside, Wrap;
    FileReadsBack(file, h, ps);
    LoadGives(file, ToSegments(ps), mapped, memory, used, before, used2, after, r);
    ProgramReadsBack(file, ToSegments(ps), mapped, memory, used, before, used2, after, r, i, k);
  }

  // ----- a program of one segment -----

  /** A file with one program header: memsz zero bytes, linked at vaddr. */
  function OneSegment(vaddr: Word, memsz: Word): seq<Byte> {
    Encode(OneHeader(), [], [ProgramHeader(PT_LOAD, 0, vaddr, 0, 0, memsz, 0, 0)], [], [])
  }

  function OneHeader(): Header {
    var ident := [0x7F, 0x45, 0x4C, 0x46, 1, 1, 0, 0, 0, 0, 0, 0, 0, 0, 0, 0];
    Header(ident, 0, 0, 0, 0, EHDR_SIZE, 0, 0, 0, PHDR_SIZE, 1, 0, 0, 0)
  }

  lemma OneSegmentOk(vaddr: Word, memsz: Word)
    requires vaddr + memsz < TWO_TO_32
    ensures var file := OneSegment(vaddr, memsz);
            && |file| == EHDR_SIZE + PHDR_SIZE && GoodMagic(file) && Loadable(file)
            && Segments(file) == [Segment(PT_LOAD, 0, vaddr, 0, memsz)]
  {
    hide EncodeHeader, EncodeProgramHeader, HoldsHeaders, HeadersInside, GoodMagic, Segments;
    var h, p := OneHeader(), ProgramHeader(PT_LOAD, 0, vaddr, 0, 0, memsz, 0, 0);
    HeaderFields(h);
    ProgramHeaderFields(p);
    assert Table([p], []) == EncodeProgramHeader(p) by { assert [p][1..] == []; }
    EncodeHolds(h, [], [p], [], []);
    FileReadsBack(OneSegment(vaddr, memsz), h, [p]);
    assert ToSegments([p]) == [p.ToSegment()];
  }

  lemma OneSegmentRange(s: Segment)
    requires s.Loads() && s.vaddr < 0xFFFF_FFFF && 0 < s.memsz
    ensures Low([s], 1) == s.vaddr && High([s], 1) == s.vaddr + s.memsz && AnyLoads([s], 1)
  {
    assert [s][0] == s;
    ScanStep([s], 0);
    ScanStart([s]);
  }

  lemma PagesOfOne(s: Segment)
    requires s.Loads() && s.vaddr < 0xFFFF_FFFF && 0 < s.memsz <= TWO_TO_32 - PAGE_SIZE
    ensures PagesNeeded([s]) == (s.memsz + PAGE_SIZE - 1) / PAGE_SIZE
  {
    OneSegmentRange(s);
  }

  /** Linked at 0x08048000, the traditional address, a program of one page is loaded and the machine
      then halts in the dump, unless its page lies above that address. */
  lemma TraditionalAddressFaults(mapped: set<int>, top: int, memory: bool, used: seq<bool>, before: seq<Byte>, used2: seq<bool>, after: seq<Byte>, r: LoadResult)
    requires IdentityMap(mapped, top) && top <= 0xF000_0000 && PageAddress(|used|) <= top
    requires Loadable(OneSegment(0x0804_8000, 1)) && LoadOk(OneSegment(0x0804_8000, 1), mapped, memory, used, before, used2, after, r)
    requires Reply(used, UserRun(1)) != 0
    ensures r.Faulted? <==> !memory || Reply(used, UserRun(1)) < 0x0804_9000
  {
    hide LoadOk, IdentityMap, Loadable, Segments, Reply, OneSegment, GoodMagic, PagesNeeded, Low, AnyLoads;
    var file := OneSegment(0x0804_8000, 1);
    OneSegmentOk(0x0804_8000, 1);
    FileFacts(file);
    var segs := Segments(file);
    OneSegmentRange(segs[0]);
    assert segs == [segs[0]];
    PagesOfOne(segs[0]);
    UserRunInside(used, 1, Reply(used, UserRun(1)));
    LoadReturnsExactly(file, segs, mapped, top, memory, used, before, used2, after, r);
  }

  lemma SameLength(file: seq<Byte>, segs: seq<Segment>, base: int, before: seq<Byte>, after: seq<Byte>)
    requires AllProper(file, segs) && ImageAt(file, segs, |segs|, base, before, after)
    ensures |after| == |before|
  {
  }

  lemma GrantedFree(used: seq<bool>, q: Request)
    requires Reply(used, q) != 0
    ensures RunFree(used, Answer(used, q), q.Count())
  {
  }

  lemma RunListed(pages: seq<Word>, base: int, count: nat)
    requires ListsRun(pages, base, count) && base % PAGE_SIZE == 0
    ensures forall p | base <= p < base + count * PAGE_SIZE :: PageBase(p) in pages
  {
    forall p | base <= p < base + count * PAGE_SIZE ensures PageBase(p) in pages {
      PageOfRun(base, count, p);
      assert pages[(p - base) / PAGE_SIZE] == PageBase(p);
    }
  }

  lemma PageOfRun(base: int, count: nat, p: int)
    requires base % PAGE_SIZE == 0 && base <= p < base + count * PAGE_SIZE
    ensures 0 <= (p - base) / PAGE_SIZE < count && PageBase(p) == base + (p - base) / PAGE_SIZE * PAGE_SIZE
  {
    var q := base / PAGE_SIZE;
    assert p == q * PAGE_SIZE + (p - base);
  }

  // ----- the initial user stack -----

  /** The NUL-terminated string at address a. */
  ghost predicate IsCString(mem: seq<Byte>, a: nat, s: seq<Byte>) {
    a + |s| < |mem| && mem[a..a + |s|] == s && mem[a + |s|] == 0 && 0 !in s
  }

  lemma CStringChar(mem: seq<Byte>, a: nat, s: seq<Byte>, k: nat)
    requires IsCString(mem, a, s) && k < |s|
    ensures mem[a + k] == s[k] != 0
  {
    assert mem[a..a + |s|][k] == s[k];
  }

  /** A C string has only one reading. */
  lemma CStringUnique(mem: seq<Byte>, a: nat, s: seq<Byte>, t: seq<Byte>)
    requires IsCString(mem, a, s) && IsCString(mem, a, t)
    ensures s == t
  {
    if |s| < |t| {
      CStringChar(mem, a, t, |s|);
    } else if |t| < |s| {
      CStringChar(mem, a, s, |t|);
    }
  }

  function StackString(page: int, nameBytes: int): int {
    page + PAGE_SIZE - nameBytes
  }

  /** The stack pointer that `elf_setup_user_stack` returns. */
  function StackTop(page: int, nameBytes: int): int {
    StackString(page, nameBytes) - StackString(page, nameBytes) % 4 - 16
  }

  /** The stack stays inside its page exactly for names of at most 4080 bytes, the NUL included. */
  lemma StackFits(page: int, nameBytes: nat)
    requires page % PAGE_SIZE == 0
    ensures page <= StackTop(page, nameBytes) <==> nameBytes <= 4080
  {
  }

  /** The dump of six words that follows stays in the page exactly for names of at least four bytes;
      for shorter ones it needs the next page as well. */
  lemma StackDumpExactly(mapped: set<int>, page: Word, nameBytes: nat)
    requires page % PAGE_SIZE == 0 && page in mapped && 0 < nameBytes <= 4080
    ensures Readable(mapped, StackTop(page, nameBytes), STACK_DUMP_BYTES) <==> 5 <= nameBytes || Wrap(page + PAGE_SIZE) in mapped
  {
    var esp := StackTop(page, nameBytes);
    AlignDown(page, nameBytes);
    DumpLength(page, nameBytes);
    forall a | esp <= a < esp + STACK_DUMP_BYTES
      ensures ByteReadable(mapped, a) <==> a < page + PAGE_SIZE || Wrap(page + PAGE_SIZE) in mapped
    {
      DumpPage(page, a);
    }
    if nameBytes < 5 {
      assert Readable(mapped, esp, STACK_DUMP_BYTES) ==> ByteReadable(mapped, page + PAGE_SIZE);
    }
  }

  lemma DumpLength(page: Word, nameBytes: nat)
    requires page % PAGE_SIZE == 0 && 0 < nameBytes <= 4080
    ensures var end := StackTop(page, nameBytes) + STACK_DUMP_BYTES - (page + PAGE_SIZE);
            if 5 <= nameBytes then end <= 0 else end == 4
  {
  }

  lemma DumpPage(page: Word, a: int)
    requires page % PAGE_SIZE == 0 && page <= a < page + 2 * PAGE_SIZE
    ensures PageBase(Wrap(a)) == if a < page + PAGE_SIZE then page else Wrap(page + PAGE_SIZE)
  {
    var q := page / PAGE_SIZE;
    assert page == q * PAGE_SIZE && q < 0x10_0000;
    if a < page + PAGE_SIZE {
      WrapSmall(a);
      PageOfRun(page, 1, a);
    } else if q < 0xF_FFFF {
      WrapSmall(a);
      WrapSmall(page + PAGE_SIZE);
      PageOfRun(page, 2, a);
    } else {
      assert page + PAGE_SIZE == TWO_TO_32;
      assert Wrap(a) == a - TWO_TO_32 && Wrap(page + PAGE_SIZE) == 0;
    }
  }

  const STACK_DUMP_BYTES := 24

  /** In memory: halting exactly for names of at most three bytes in the last page. */
  lemma ShortNameAtTheTop(mapped: set<int>, top: int, page: Word, nameBytes: nat)
    requires IdentityMap(mapped, top) && page % PAGE_SIZE == 0 && PAGE_SIZE <= page < top && 0 < nameBytes <= 4080
    ensures Readable(mapped, StackTop(page, nameBytes), STACK_DUMP_BYTES) <==> 5 <= nameBytes || page + PAGE_SIZE < top
  {
    assert PageBase(page) == page;
    StackDumpExactly(mapped, page, nameBytes);
    var next := page + PAGE_SIZE;
    if next < TWO_TO_32 {
      WrapSmall(next);
      assert PageBase(next) == next;
    } else {
      assert next == TWO_TO_32 && Wrap(next) == 0 && PageBase(0) == 0;
    }
  }

  /** System V stack layout: argc = 1, argv = { name, NULL }, envp = { NULL }, in one page. */
  ghost predicate StackOk(name: seq<Byte>, page: nat, before: seq<Byte>, after: seq<Byte>, esp: nat)
    requires |name| + 1 <= 4080
  {
    var text := StackString(page, |name| + 1);
    && |after| == |before| && page + PAGE_SIZE <= |after|
    && esp % 4 == 0 && page <= esp && esp + 16 <= text
    && Full(after, esp) == 1 && Full(after, esp + 4) == text && Full(after, esp + 8) == 0 && Full(after, esp + 12) == 0
    && IsCString(after, text, name)
    && (forall p | 0 <= p < |before| && !(esp <= p < page + PAGE_SIZE) :: after[p] == before[p])
  }

  lemma WordBytes(w: Word)
    ensures var b0, b1, b2, b3 := w % 0x100, w / 0x100 % 0x100, w / 0x1_0000 % 0x100, w / 0x100_0000;
            b0 + b1 * 0x100 + b2 * 0x1_0000 + b3 * 0x100_0000 == w && 0 <= b3 < 0x100
  {
    var h := w / 0x100;
    assert w == h * 0x100 + w % 0x100;
    var g := h / 0x100;
    assert h == g * 0x100 + h % 0x100 && g == w / 0x1_0000;
    assert g == g / 0x100 * 0x100 + g % 0x100 && g / 0x100 == w / 0x100_0000;
  }

  lemma FullOf(m: seq<Byte>, a: nat, b0: Byte, b1: Byte, b2: Byte, b3: Byte, w: Word)
    requires a + 4 <= |m| && m[a] == b0 && m[a + 1] == b1 && m[a + 2] == b2 && m[a + 3] == b3
    requires (b0 as int) + b1 * 0x100 + b2 * 0x1_0000 + b3 * 0x100_0000 == w
    ensures Full(m, a) == w
  {
  }

  /** A store of a 32-bit word. */
  method StoreWord(mem: array<Byte>, a: nat, w: Word)
    requires a + 4 <= mem.Length
    modifies mem
    ensures Full(mem[..], a) == w
    ensures forall p | 0 <= p < mem.Length && !(a <= p < a + 4) :: mem[p] == old(mem[p])
  {
    hide Full;
    WordBytes(w);
    var b0: Byte, b1: Byte, b2: Byte, b3: Byte := w % 0x100, w / 0x100 % 0x100, w / 0x1_0000 % 0x100, w / 0x100_0000;
    mem[a] := b0;
    mem[a + 1] := b1;
    mem[a + 2] := b2;
    mem[a + 3] := b3;
    FullOf(mem[..], a, b0, b1, b2, b3, w);
  }

  lemma SameWord(m: seq<Byte>, n: seq<Byte>, a: nat)
    requires a + 4 <= |m| == |n| && forall p | a <= p < a + 4 :: m[p] == n[p]
    ensures Full(m, a) == Full(n, a)
  {
  }

  /** The four pushes of phase 3. */
  method PushVectors(mem: array<Byte>, top: nat, strAddr: Word) returns (sp: nat)
    requires 16 <= top <= mem.Length
    modifies mem
    ensures sp == top - 16
    ensures Full(mem[..], sp) == 1 && Full(mem[..], sp + 4) == strAddr && Full(mem[..], sp + 8) == 0 && Full(mem[..], sp + 12) == 0
    ensures forall p | 0 <= p < mem.Length && !(sp <= p < top) :: mem[p] == old(mem[p])
  {
    hide Full;
    sp := top;
    sp := sp - 4;
    StoreWord(mem, sp, 0);
    ghost var m1 := mem[..];
    sp := sp - 4;
    StoreWord(mem, sp, 0);
    ghost var m2 := mem[..];
    sp := sp - 4;
    StoreWord(mem, sp, strAddr);
    ghost var m3 := mem[..];
    sp := sp - 4;
    StoreWord(mem, sp, 1);
    SameWord(m1, m2, sp + 12);
    SameWord(m2, m3, sp + 12);
    SameWord(m3, mem[..], sp + 12);
    SameWord(m2, m3, sp + 8);
    SameWord(m3, mem[..], sp + 8);
    SameWord(m3, mem[..], sp + 4);
  }

  lemma NameEnds(prog: seq<Byte>, name: seq<Byte>, n: nat)
    requires IsCString(prog, 0, name) && n <= |name|
    ensures prog[n] == 0 <==> n == |name|
  {
    if n < |name| { CStringChar(prog, 0, name, n); }
  }

  lemma UserPageInside(used: seq<bool>, page: int)
    requires page == Reply(used, UserPage) && page != 0
    ensures page % PAGE_SIZE == 0 && USER_MEM_START <= page && page + PAGE_SIZE <= PageAddress(|used|)
  {
  }

  /** Phase 1: the string at the top of the page. */
  method CopyName(mem: array<Byte>, page: nat, prog: seq<Byte>, ghost name: seq<Byte>, nameLen: nat) returns (strAddr: nat)
    requires page + PAGE_SIZE <= mem.Length && IsCString(prog, 0, name) && nameLen == |name| && |name| + 1 <= 4080
    modifies mem
    ensures strAddr == StackString(page, |name| + 1) && IsCString(mem[..], strAddr, name)
    ensures forall p | 0 <= p < mem.Length && !(strAddr <= p < page + PAGE_SIZE) :: mem[p] == old(mem[p])
  {
    var nameBytes := nameLen + 1;
    var sp := page + PAGE_SIZE - nameBytes;
    strAddr := sp;
    var i := 0;
    while i < nameBytes
      invariant 0 <= i <= nameBytes
      invariant forall k | 0 <= k < i :: mem[sp + k] == prog[k]
      invariant forall p | 0 <= p < mem.Length && !(sp <= p < page + PAGE_SIZE) :: mem[p] == old(mem[p])
    {
      mem[sp + i] := prog[i];
      i := i + 1;
    }
    forall k | 0 <= k < |name| ensures mem[..][strAddr..strAddr + |name|][k] == name[k] {
      assert name[k] == prog[0..|name|][k];
    }
  }

  /** `elf_setup_user_stack` */
  method SetupUserStack(prog: seq<Byte>, ghost name: seq<Byte>, mapped: set<int>, mem: array<Byte>, pmm: Allocator)
    returns (esp: Word, page: Word, halted: bool)
    requires IsCString(prog, 0, name) && |name| + 1 <= 4080
    requires pmm.Valid() && PageAddress(pmm.totalPages) <= mem.Length <= TWO_TO_32
    requires MapsMemory(mapped, PageAddress(pmm.totalPages))
    requires mem as object != pmm.bitmap
    modifies mem, pmm, pmm.bitmap
    ensures pmm.Valid() && pmm.used == PageRuns.After(old(pmm.used), UserPage)
    ensures page == Reply(old(pmm.used), UserPage)
    ensures if page == 0 then esp == 0 && !halted && mem[..] == old(mem[..])
            else
              && esp == StackTop(page, |name| + 1) && StackOk(name, page, old(mem[..]), mem[..], esp)
              && (halted <==> |name| <= 3 && Wrap(page + PAGE_SIZE) !in mapped)
  {
    hide Allocator.Valid, Allocator.BitmapOk, PageRuns.After, Reply, Full, StackOk, Readable, MapsMemory;
    var nameLen := 0;
    while prog[nameLen] != 0
      invariant 0 <= nameLen <= |name|
      decreases |name| - nameLen
    {
      assert prog[nameLen] == prog[0..|name|][nameLen];
      nameLen := nameLen + 1;
    }
    NameEnds(prog, name, nameLen);
    page := pmm.AllocUserPage();
    if page == 0 { return 0, 0, false; }
    UserPageInside(old(pmm.used), page);
    pmm.PageCount();
    ghost var before := mem[..];
    var strAddr := CopyName(mem, page, prog, name, nameLen);
    ghost var named := mem[..];
    AlignDown(page, |name| + 1);
    esp := PushVectors(mem, strAddr - strAddr % 4, strAddr);
    StackBuilt(name, page, before, named, mem[..], esp);
    PageMapped(mapped, PageAddress(pmm.totalPages), page);
    StackDumpExactly(mapped, page, |name| + 1);
    var done := HexdumpLine(mapped, esp, STACK_DUMP_BYTES);
    halted := !done;
  }

  lemma PageMapped(mapped: set<int>, top: int, page: Word)
    requires MapsMemory(mapped, top) && page % PAGE_SIZE == 0 && PAGE_SIZE <= page < top
    ensures page in mapped
  {
    assert PageBase(page) == page;
  }

  lemma AlignDown(page: nat, nameBytes: nat)
    requires page % PAGE_SIZE == 0 && nameBytes <= 4080
    ensures var top := StackTop(page, nameBytes);
            page <= top && top % 4 == 0 && top + 16 <= StackString(page, nameBytes)
  {
    var q := StackString(page, nameBytes) / 4;
    assert StackTop(page, nameBytes) == 4 * (q - 4);
    assert page == 4 * (1024 * (page / PAGE_SIZE));
  }

  lemma StackBuilt(name: seq<Byte>, page: nat, before: seq<Byte>, named: seq<Byte>, after: seq<Byte>, esp: nat)
    requires |name| + 1 <= 4080 && |before| == |named| == |after| && page + PAGE_SIZE <= |after|
    requires esp == StackTop(page, |name| + 1) && page <= esp && esp % 4 == 0 && esp + 16 <= StackString(page, |name| + 1)
    requires IsCString(named, StackString(page, |name| + 1), name)
    requires forall p | 0 <= p < |before| && !(StackString(page, |name| + 1) <= p < page + PAGE_SIZE) :: named[p] == before[p]
    requires forall p | 0 <= p < |before| && !(esp <= p < StackString(page, |name| + 1)) :: after[p] == named[p]
    requires Full(after, esp) == 1 && Full(after, esp + 4) == StackString(page, |name| + 1)
    requires Full(after, esp + 8) == 0 && Full(after, esp + 12) == 0
    ensures StackOk(name, page, before, after, esp)
  {
    hide Full, StackTop;
    var text := StackString(page, |name| + 1);
    assert after[text..text + |name|] == named[text..text + |name|];
  }
}
