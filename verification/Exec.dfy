/** `exec_elf_from_path` of kernel/main.c: the file is read into a buffer, and the pages that the
    new task may use are listed. */
module Exec {
  import opened Words
  import opened Options
  import opened FileModel
  import opened RamFs
  import opened PageRuns
  import opened Pmm
  import opened Elf

  const ELF_LOAD_MAX := 16384
  const ALL_PAGES := 32

  /** What is expected in the buffer: the head of the file. */
  function Head(data: seq<Byte>): seq<Byte> {
    if |data| <= ELF_LOAD_MAX then data else data[..ELF_LOAD_MAX]
  }

  /** The content that target stands for. */
  function Content(s: Fs, target: Target): seq<Byte> {
    if target.Node? && target.id < |s.files| then s.files[target.id].data else []
  }

  /** s differs from s0 at most in the offset of one descriptor. */
  ghost predicate SameButOffset(s0: Fs, s: Fs, t: nat, fd: int) {
    && IsOpen(s0, t, fd) && IsOpen(s, t, fd)
    && s == WithSlot(s0, t, fd, Some(FileModel.At(s0, t, fd).(offset := FileModel.At(s, t, fd).offset)))
  }

  /** The loop has read `got`, from the beginning of the file up to the descriptor's offset. */
  ghost predicate Reading(s0: Fs, s: Fs, t: nat, fd: int, got: seq<Byte>) {
    && FsTable(s) && SameButOffset(s0, s, t, fd)
    && FileModel.At(s, t, fd).offset == |got| <= ELF_LOAD_MAX
    && got <= Content(s0, FileModel.At(s0, t, fd).target)
  }

  lemma StartReading(s: Fs, t: nat, fd: int)
    requires FsOk(s) && IsOpen(s, t, fd) && FileModel.At(s, t, fd).offset == 0
    ensures Reading(s, s, t, fd, [])
  {
    assert s.table[t * MAX_FD_PER_TASK + fd := s.table[t * MAX_FD_PER_TASK + fd]] == s.table;
  }

  /** One turn of the read loop. */
  lemma ReadOn(s0: Fs, s: Fs, t: nat, fd: int, before: seq<Byte>, after: seq<Byte>, total: nat)
    requires FsOk(s) && total < ELF_LOAD_MAX == |before|
    requires Reading(s0, s, t, fd, before[..total])
    requires var bytes := ReadAt(s, t, fd, ELF_LOAD_MAX - total).1;
             if bytes.None? then after == before else Filled(before, after, total, bytes.value)
    ensures var (s1, bytes) := ReadAt(s, t, fd, ELF_LOAD_MAX - total);
            if bytes.None? then s1 == s && after == before && before[..total] == Content(s0, FileModel.At(s0, t, fd).target)
            else
              && total + |bytes.value| <= ELF_LOAD_MAX && |after| == ELF_LOAD_MAX
              && Reading(s0, s1, t, fd, after[..total + |bytes.value|])
              && (bytes.value == [] ==> after[..total] == Content(s0, FileModel.At(s0, t, fd).target))
  {
    var (s1, bytes) := ReadAt(s, t, fd, ELF_LOAD_MAX - total);
    if bytes.Some? {
      var data := Content(s0, FileModel.At(s0, t, fd).target);
      assert bytes.value == Slice(data, total, ELF_LOAD_MAX - total);
      assert after[..total + |bytes.value|] == before[..total] + bytes.value;
      assert data[..total] == before[..total];
    }
  }

  /** The read loop, on a descriptor that has just been opened: the head of the file arrives in the
      buffer, however the reads split it, and only the descriptor's offset changes. */
  method ReadLoop(vfs: Vfs, t: nat, fd: int, buf: array<Byte>) returns (total: nat)
    requires vfs.Valid() && IsOpen(vfs.State(), t, fd) && FileModel.At(vfs.State(), t, fd).offset == 0
    requires buf.Length == ELF_LOAD_MAX && buf !in vfs.Repr
    modifies buf, set f: OpenFile | f in vfs.Repr
    ensures vfs.Valid() && vfs.Repr == old(vfs.Repr) && total <= ELF_LOAD_MAX
    ensures Reading(old(vfs.State()), vfs.State(), t, fd, buf[..total])
    ensures buf[..total] == Head(Content(old(vfs.State()), FileModel.At(old(vfs.State()), t, fd).target))
  {
    hide FsOk, Vfs.State, Vfs.Valid, Reading, Content;
    ghost var s0 := vfs.State();
    StartReading(s0, t, fd);
    total := 0;
    assert buf[..0] == [];
    while total < ELF_LOAD_MAX
      invariant vfs.Valid() && vfs.Repr == old(vfs.Repr) && 0 <= total <= ELF_LOAD_MAX
      invariant Reading(s0, vfs.State(), t, fd, buf[..total])
      decreases ELF_LOAD_MAX - total
    {
      ghost var s := vfs.State();
      ghost var before := buf[..];
      MayRead(s0, s, t, fd, buf[..total]);
      var n := vfs.Read(t, fd, buf, total, ELF_LOAD_MAX - total);
      ReadOn(s0, s, t, fd, before, buf[..], total);
      if n <= 0 {
        HeadRead(s0, vfs.State(), t, fd, buf[..total]);
        return;
      }
      total := total + n;
    }
    HeadRead(s0, vfs.State(), t, fd, buf[..total]);
  }

  lemma MayRead(s0: Fs, s: Fs, t: nat, fd: int, got: seq<Byte>)
    requires FsOk(s) && Reading(s0, s, t, fd, got)
    ensures Task(s, t) && IsOpen(s, t, fd) && FileModel.At(s, t, fd).offset == |got|
  {
  }

  lemma HeadRead(s0: Fs, s: Fs, t: nat, fd: int, got: seq<Byte>)
    requires Reading(s0, s, t, fd, got)
    requires |got| == ELF_LOAD_MAX || got == Content(s0, FileModel.At(s0, t, fd).target)
    ensures got == Head(Content(s0, FileModel.At(s0, t, fd).target))
  {
  }

  /** The first half of `exec_elf_from_path`: open, read, close.  A missing file is created by
      `vfs_open`, stays behind empty, and is then rejected as empty. */
  method ReadImage(vfs: Vfs, t: nat, path: Name, m: Memory, buf: array<Byte>) returns (total: int)
    requires vfs.Valid() && Task(vfs.State(), t) && NoNul(path) && ShortPath(path) && m.Consistent()
    requires buf.Length == ELF_LOAD_MAX && buf !in vfs.Repr
    modifies vfs.Repr, buf
    ensures vfs.Valid() && total <= ELF_LOAD_MAX
    ensures vfs.State() == Opened(old(vfs.State()), t, path, m).0.(table := old(vfs.State()).table)
    ensures var r := Resolve(old(vfs.State()).files, path);
            if total == -1 then Opened(old(vfs.State()), t, path, m).1 == -1
            else total >= 0 && buf[..total] == if r.None? then [] else Head(Content(old(vfs.State()), r.value))
  {
    hide FsOk, Vfs.State, Vfs.Valid, Content, Resolve, FreeFd, NewName;
    ghost var s0 := vfs.State();
    var fd := vfs.Open(t, path, 0, m);
    ghost var s1 := vfs.State();
    AfterOpen(s0, t, path, m);
    if fd < 0 { return -1; }
    total := ReadLoop(vfs, t, fd, buf);
    ghost var s2 := vfs.State();
    var r := vfs.Close(t, fd);
    AfterClose(s0, s1, s2, t, fd, buf[..total]);
  }

  lemma AfterOpen(s: Fs, t: nat, path: Name, m: Memory)
    requires FsOk(s) && Task(s, t) && ShortPath(path) && m.Consistent()
    ensures var (s1, fd) := Opened(s, t, path, m);
            if fd == -1 then s1.table == s.table
            else
              && fd >= 0 && IsOpen(s1, t, fd) && Slot(s, t, fd) && s.table[t * MAX_FD_PER_TASK + fd] == None
              && FileModel.At(s1, t, fd).offset == 0
              && s1.table == s.table[t * MAX_FD_PER_TASK + fd := s1.table[t * MAX_FD_PER_TASK + fd]]
              && var r := Resolve(s.files, path);
                 Content(s1, FileModel.At(s1, t, fd).target) == if r.None? then [] else Content(s, r.value)
  {
    hide Components;
    OpenOk(s, t, path, m);
  }

  lemma AfterClose(s0: Fs, s1: Fs, s2: Fs, t: nat, fd: int, got: seq<Byte>)
    requires Slot(s0, t, fd) && s0.table[t * MAX_FD_PER_TASK + fd] == None && IsOpen(s1, t, fd)
    requires s1.table == s0.table[t * MAX_FD_PER_TASK + fd := s1.table[t * MAX_FD_PER_TASK + fd]]
    requires Reading(s1, s2, t, fd, got)
    ensures IsOpen(s2, t, fd) && Closed(s2, t, fd).0 == s1.(table := s0.table)
  {
    var i := t * MAX_FD_PER_TASK + fd;
    assert s2.table[i := None] == s0.table;
  }

  /** The page list for `task_create_user_with_pages`: the stack page and then the image.  The copy
      stays inside the 32 entries exactly for images of at most 31 pages; for a larger one all 32
      entries are written and the next store goes past them, which is where this method stops. */
  method PageList(stackPage: Word, pages: seq<Word>) returns (all: array<Word>, inside: bool)
    ensures fresh(all) && all.Length == ALL_PAGES
    ensures inside <==> |pages| <= 31
    ensures if inside then all[..|pages| + 1] == [stackPage] + pages else all[..] == ([stackPage] + pages)[..ALL_PAGES]
  {
    all := new Word[ALL_PAGES];
    all[0] := stackPage;
    var i := 0;
    while i < |pages|
      invariant 0 <= i <= |pages| && i < ALL_PAGES && all[0] == stackPage
      invariant forall k | 0 <= k < i :: all[k + 1] == pages[k]
    {
      if i + 1 >= all.Length { return all, false; }
      all[i + 1] := pages[i];
      i := i + 1;
    }
    inside := true;
  }

  /** A file of 84 bytes that is loaded, on every machine with 32 user pages in a row, and whose list
      does not fit. */
  lemma LargeImage(mapped: set<int>, top: int, memory: bool, used: seq<bool>, before: seq<Byte>, used2: seq<bool>, after: seq<Byte>, r: LoadResult)
    requires IdentityMap(mapped, top) && PageAddress(|used|) <= top && Reply(used, UserRun(32)) != 0
    ensures var file := OneSegment(0x1000, 0x2_0000);
            && |file| == 84 && Loadable(file) && PagesNeeded(Segments(file)) == 32
            && (memory && LoadOk(file, mapped, memory, used, before, used2, after, r) ==> r.Returned? && |r.pages| == 32)
  {
    hide IdentityMap, Loadable, Segments, Reply, LoadOk, OneSegment, GoodMagic, PagesNeeded, Low, AnyLoads;
    var file := OneSegment(0x1000, 0x2_0000);
    OneSegmentOk(0x1000, 0x2_0000);
    FileFacts(file);
    var segs := Segments(file);
    OneSegmentRange(segs[0]);
    assert segs == [segs[0]];
    PagesOfOne(segs[0]);
    UserRunInside(used, 32, Reply(used, UserRun(32)));
    if memory && LoadOk(file, mapped, memory, used, before, used2, after, r) {
      LoadReturnsExactly(file, segs, mapped, top, memory, used, before, used2, after, r);
      PagesListed(file, segs, mapped, memory, used, before, used2, after, r);
    }
  }

  lemma PagesListed(file: seq<Byte>, segs: seq<Segment>, mapped: set<int>, memory: bool, used: seq<bool>, before: seq<Byte>, used2: seq<bool>, after: seq<Byte>, r: LoadResult)
    requires Loadable(file) && segs == Segments(file) && LoadOk(file, mapped, memory, used, before, used2, after, r)
    requires !Rejected(file, segs, used) && r.Returned?
    ensures |r.pages| == PagesNeeded(segs)
  {
  }
}
