/** What fs/vfs.c and fs/ramfs.c are meant to provide: named byte sequences, and a table of open
    files with offsets. */
module FileModel {
  import opened Words
  import opened Options

  const MAX_FD_PER_TASK := 16
  const NAME_MAX := 63
  const SLASH: Byte := 0x2F

  /** A name or a path as a C string, without its terminating NUL. */
  type Name = seq<Byte>

  // ----- paths -----

  /** The end of the path component that starts at position p; components are cut after 63 bytes. */
  function ComponentEnd(path: Name, p: nat, n: nat): (e: nat)
    requires p + n <= |path|
    ensures p + n <= e <= |path|
    decreases |path| - p - n
  {
    if p + n < |path| && path[p + n] != SLASH && n < NAME_MAX then ComponentEnd(path, p, n + 1) else p + n
  }

  function SkipSlashes(path: Name, p: nat): (q: nat)
    requires p <= |path|
    ensures p <= q <= |path| && (q < |path| ==> path[q] != SLASH)
    decreases |path| - p
  {
    if p < |path| && path[p] == SLASH then SkipSlashes(path, p + 1) else p
  }

  /** The components that `path_next` delivers from position p on. */
  function Components(path: Name, p: nat): seq<Name>
    requires p <= |path|
    decreases |path| - p
  {
    var q := SkipSlashes(path, p);
    if q == |path| then []
    else
      var e := ComponentEnd(path, q, 1);
      [path[q..e]] + Components(path, e)
  }

  predicate IsComponent(name: Name) {
    0 < |name| && SLASH !in name
  }

  // ----- the state -----

  datatype File = File(name: Name, data: seq<Byte>)

  /** What a descriptor refers to: the root directory, or the file that was created as number id. */
  datatype Target = Root | Node(id: nat)

  datatype Descriptor = Descriptor(target: Target, offset: nat)

  /** The files in the order of their creation, and the descriptors of all tasks: task t owns the
      slots [16t, 16t + 16). */
  datatype Fs = Fs(files: seq<File>, table: seq<Option<Descriptor>>)

  predicate GoodName(name: Name) {
    IsComponent(name) && |name| <= NAME_MAX
  }

  predicate DescriptorOk(d: Option<Descriptor>, files: seq<File>) {
    d.Some? && d.value.target.Node? ==> d.value.target.id < |files|
  }

  ghost predicate FsOk(s: Fs) {
    && (forall i | 0 <= i < |s.files| :: GoodName(s.files[i].name))
    && (forall i, j | 0 <= i < j < |s.files| :: s.files[i].name != s.files[j].name)
    && (forall i | 0 <= i < |s.table| :: DescriptorOk(s.table[i], s.files))
    && |s.table| % MAX_FD_PER_TASK == 0
  }

  /** The file called `name`, or -1. */
  ghost function Find(files: seq<File>, name: Name): (r: int)
    ensures r == -1 <==> forall i | 0 <= i < |files| :: files[i].name != name
    ensures r != -1 ==> 0 <= r < |files| && files[r].name == name
  {
    if files == [] then -1
    else if files[|files| - 1].name == name then |files| - 1
    else Find(files[..|files| - 1], name)
  }

  /** What a path leads to.  Only the root is a directory. */
  ghost function Resolve(files: seq<File>, path: Name): Option<Target> {
    var cs := Components(path, 0);
    if |cs| == 0 then Some(Root)
    else if |cs| == 1 && Find(files, cs[0]) != -1 then Some(Node(Find(files, cs[0])))
    else None
  }

  /** The name under which `vfs_open` creates a missing file: only "/name" is supported. */
  function NewName(path: Name): Option<Name> {
    if |path| > 1 && path[0] == SLASH && SLASH !in path[1..] then Some(path[1..]) else None
  }

  // ----- the operations -----

  /** What `ramfs_create` keeps of a name. */
  function Stored(name: Name): Name {
    if |name| > NAME_MAX then name[..NAME_MAX] else name
  }

  predicate Slot(s: Fs, t: nat, fd: int) {
    0 <= fd < MAX_FD_PER_TASK && t * MAX_FD_PER_TASK + fd < |s.table|
  }

  predicate IsOpen(s: Fs, t: nat, fd: int) {
    Slot(s, t, fd) && s.table[t * MAX_FD_PER_TASK + fd].Some?
  }

  function At(s: Fs, t: nat, fd: int): Descriptor
    requires IsOpen(s, t, fd)
  {
    s.table[t * MAX_FD_PER_TASK + fd].value
  }

  function WithSlot(s: Fs, t: nat, fd: int, d: Option<Descriptor>): Fs
    requires Slot(s, t, fd)
  {
    s.(table := s.table[t * MAX_FD_PER_TASK + fd := d])
  }

  /** The least free descriptor from fd on, or -1. */
  function FreeFd(s: Fs, t: nat, fd: nat): (r: int)
    requires fd <= MAX_FD_PER_TASK && (t + 1) * MAX_FD_PER_TASK <= |s.table|
    ensures r == -1 <==> forall k | fd <= k < MAX_FD_PER_TASK :: IsOpen(s, t, k)
    ensures r != -1 ==> fd <= r && Slot(s, t, r) && !IsOpen(s, t, r) && forall k | fd <= k < r :: IsOpen(s, t, k)
    decreases MAX_FD_PER_TASK - fd
  {
    if fd == MAX_FD_PER_TASK then -1
    else if !IsOpen(s, t, fd) then fd
    else FreeFd(s, t, fd + 1)
  }

  predicate Task(s: Fs, t: nat) {
    (t + 1) * MAX_FD_PER_TASK <= |s.table|
  }

  /** The answers of `kmalloc` in one `vfs_open`: for the wrapper of a child that was found, for the two
      parts of a new file, and for the open file. */
  datatype Memory = Memory(found: bool, node: bool, wrapper: bool, file: bool)
  {
    /** Both wrappers have the same size, and a request that failed fails again
        (`Kheap.RefusedAgain`). */
    predicate Consistent() {
      !found ==> !wrapper
    }
  }

  /** What `vfs_lookup` comes back with: a child without a wrapper is as good as missing. */
  ghost function Found(files: seq<File>, path: Name, found: bool): Option<Target> {
    var r := Resolve(files, path);
    if r.Some? && r.value.Node? && !found then None else r
  }

  ghost function Opened(s: Fs, t: nat, path: Name, m: Memory): (r: (Fs, int))
    requires Task(s, t)
  {
    var fd := FreeFd(s, t, 0);
    if fd == -1 then (s, -1)
    else
      match Found(s.files, path, m.found)
      case Some(target) => if m.file then (WithSlot(s, t, fd, Some(Descriptor(target, 0))), fd) else (s, -1)
      case None =>
        match NewName(path)
        case None => (s, -1)
        case Some(name) =>
          if !m.node || !m.wrapper then (s, -1)
          else
            var created := s.(files := s.files + [File(Stored(name), [])]);
            if m.file then (WithSlot(created, t, fd, Some(Descriptor(Node(|s.files|), 0))), fd) else (created, -1)
  }

  /** The bytes that are left from `offset` on, at most `size` of them. */
  function Slice(data: seq<Byte>, offset: nat, size: nat): seq<Byte> {
    if offset >= |data| then []
    else if offset + size > |data| then data[offset..]
    else data[offset..offset + size]
  }

  function Zeros(n: nat): seq<Byte> {
    seq(n, _ => 0)
  }

  /** The data with `bytes` stored at `offset`, the gap behind the old end filled with zeros. */
  function Splice(data: seq<Byte>, offset: nat, bytes: seq<Byte>): (r: seq<Byte>) {
    if bytes == [] then data
    else
      var padded := if offset > |data| then data + Zeros(offset - |data|) else data;
      padded[..offset] + bytes + if offset + |bytes| < |data| then data[offset + |bytes|..] else []
  }

  /** Result: the bytes read, or None for an error. */
  function ReadAt(s: Fs, t: nat, fd: int, size: nat): (Fs, Option<seq<Byte>>)
    requires FsTable(s)
  {
    if !IsOpen(s, t, fd) || At(s, t, fd).target.Root? then (s, None)
    else
      var d := At(s, t, fd);
      var bytes := Slice(s.files[d.target.id].data, d.offset, size);
      (WithSlot(s, t, fd, Some(d.(offset := d.offset + |bytes|))), Some(bytes))
  }

  predicate FsTable(s: Fs) {
    forall i | 0 <= i < |s.table| :: DescriptorOk(s.table[i], s.files)
  }

  function WriteAt(s: Fs, t: nat, fd: int, bytes: seq<Byte>): (Fs, int)
    requires FsTable(s)
  {
    if !IsOpen(s, t, fd) || At(s, t, fd).target.Root? then (s, -1)
    else
      var d := At(s, t, fd);
      var f := s.files[d.target.id];
      var s1 := s.(files := s.files[d.target.id := f.(data := Splice(f.data, d.offset, bytes))]);
      (WithSlot(s1, t, fd, Some(d.(offset := d.offset + |bytes|))), |bytes|)
  }

  /** A write needs memory if it makes the file longer. */
  predicate Lengthens(s: Fs, t: nat, fd: int, bytes: seq<Byte>)
    requires FsTable(s)
  {
    && IsOpen(s, t, fd) && At(s, t, fd).target.Node? && bytes != []
    && At(s, t, fd).offset + |bytes| > |s.files[At(s, t, fd).target.id].data|
  }

  /** `memory`: the answer of `kmalloc`. */
  function Written(s: Fs, t: nat, fd: int, bytes: seq<Byte>, memory: bool): (Fs, int)
    requires FsTable(s)
  {
    if Lengthens(s, t, fd, bytes) && !memory then (s, -1) else WriteAt(s, t, fd, bytes)
  }

  function Closed(s: Fs, t: nat, fd: int): (Fs, int) {
    if IsOpen(s, t, fd) then (WithSlot(s, t, fd, None), 0) else (s, -1)
  }

  /** Children are listed with the newest first. */
  ghost function Listed(s: Fs, path: Name, index: nat): Option<Name> {
    if Resolve(s.files, path) != Some(Root) || index >= |s.files| then None
    else Some(s.files[|s.files| - 1 - index].name)
  }

  // ----- splice and slice -----

  /** Byte by byte: the new bytes, around them the old ones, and zeros in a gap. */
  lemma SpliceAt(data: seq<Byte>, offset: nat, bytes: seq<Byte>, i: nat)
    requires bytes != []
    ensures |Splice(data, offset, bytes)| == if offset + |bytes| > |data| then offset + |bytes| else |data|
    ensures i < |Splice(data, offset, bytes)| ==>
              Splice(data, offset, bytes)[i] == (if offset <= i < offset + |bytes| then bytes[i - offset] else if i < |data| then data[i] else 0)
  {
  }

  /** Reading where one has just written gives back what was written. */
  lemma ReadBack(data: seq<Byte>, offset: nat, bytes: seq<Byte>)
    requires bytes != []
    ensures Slice(Splice(data, offset, bytes), offset, |bytes|) == bytes
  {
    var r := Splice(data, offset, bytes);
    SpliceAt(data, offset, bytes, 0);
    forall i | 0 <= i < |bytes| ensures r[offset + i] == bytes[i] { SpliceAt(data, offset, bytes, offset + i); }
    assert r[offset..offset + |bytes|] == bytes;
    assert offset + |bytes| == |r| ==> r[offset..] == r[offset..offset + |bytes|];
  }

  /** Writing in two pieces is writing once. */
  lemma SpliceTwice(data: seq<Byte>, offset: nat, a: seq<Byte>, b: seq<Byte>)
    ensures Splice(Splice(data, offset, a), offset + |a|, b) == Splice(data, offset, a + b)
  {
    hide Splice;
    var x := Splice(data, offset, a);
    if a == [] {
      SpliceNothing(data, offset);
      assert a + b == b;
    } else if b == [] {
      SpliceNothing(x, offset + |a|);
      assert a + b == a;
    } else {
      var l, r := Splice(x, offset + |a|, b), Splice(data, offset, a + b);
      SpliceAt(data, offset, a, 0);
      SpliceAt(x, offset + |a|, b, 0);
      SpliceAt(data, offset, a + b, 0);
      forall i | 0 <= i < |l| ensures l[i] == r[i] {
        SpliceAt(data, offset, a, i);
        SpliceAt(x, offset + |a|, b, i);
        SpliceAt(data, offset, a + b, i);
      }
    }
  }

  lemma SpliceNothing(data: seq<Byte>, offset: nat)
    ensures Splice(data, offset, []) == data
  {
  }

  /** Reading in two pieces is reading once. */
  lemma SliceTwice(data: seq<Byte>, offset: nat, m: nat, n: nat)
    ensures var a := Slice(data, offset, m);
            a + Slice(data, offset + |a|, n) == Slice(data, offset, m + n)
  {
  }

  /** The number of bytes that `ramfs_read` copies, with its `uint32_t` sum. */
  function ReadCount(length: Word, offset: Word, size: Word): int {
    if offset >= length then 0 else if Wrap(offset + size) > length then length - offset else size
  }

  /** It stays inside the file exactly if the sum does not wrap around, or nothing is left to read. */
  lemma ReadCountExact(data: seq<Byte>, offset: Word, size: Word)
    requires |data| < TWO_TO_32
    ensures ReadCount(|data|, offset, size) == |Slice(data, offset, size)| <==> offset >= |data| || offset + size < TWO_TO_32
  {
  }

  // ----- names -----

  lemma {:induction false} ComponentStops(path: Name, p: nat, n: nat)
    requires 1 <= n <= NAME_MAX && p + n <= |path|
    requires forall i | p <= i < |path| :: path[i] != SLASH
    ensures ComponentEnd(path, p, n) == if |path| - p <= NAME_MAX then |path| else p + NAME_MAX
    decreases |path| - p - n
  {
    if p + n < |path| && n < NAME_MAX { ComponentStops(path, p, n + 1); }
  }

  /** The bytes of the path from p on without its slashes. */
  function WithoutSlashes(path: Name, p: nat): Name
    requires p <= |path|
    decreases |path| - p
  {
    if p == |path| then [] else (if path[p] == SLASH then [] else [path[p]]) + WithoutSlashes(path, p + 1)
  }

  function Concat(cs: seq<Name>): Name {
    if cs == [] then [] else cs[0] + Concat(cs[1..])
  }

  lemma {:induction false} SkippedSlashes(path: Name, p: nat)
    requires p <= |path|
    ensures WithoutSlashes(path, SkipSlashes(path, p)) == WithoutSlashes(path, p)
    decreases |path| - p
  {
    if p < |path| && path[p] == SLASH { SkippedSlashes(path, p + 1); }
  }

  /** A component is the longest piece without a slash of at most 63 bytes. */
  lemma {:induction false} ComponentIs(path: Name, p: nat, n: nat)
    requires 1 <= n <= NAME_MAX && p + n <= |path| && SLASH !in path[p..p + n]
    ensures var e := ComponentEnd(path, p, n);
            && SLASH !in path[p..e] && e - p <= NAME_MAX
            && (e == |path| || path[e] == SLASH || e - p == NAME_MAX)
            && WithoutSlashes(path, p) == path[p..e] + WithoutSlashes(path, e)
    decreases |path| - p - n
  {
    if p + n < |path| && path[p + n] != SLASH && n < NAME_MAX {
      assert path[p..p + n + 1] == path[p..p + n] + [path[p + n]];
      ComponentIs(path, p, n + 1);
    } else {
      PlainBytes(path, p, p + n);
    }
  }

  lemma {:induction false} PlainBytes(path: Name, p: nat, e: nat)
    requires p <= e <= |path| && SLASH !in path[p..e]
    ensures WithoutSlashes(path, p) == path[p..e] + WithoutSlashes(path, e)
    decreases e - p
  {
    if p < e {
      assert path[p] == path[p..e][0] && path[p..e] == [path[p]] + path[p + 1..e];
      PlainBytes(path, p + 1, e);
    }
  }

  /** The components of a path are names of at most 63 bytes without a slash, and together all its
      bytes but the slashes. */
  lemma {:induction false} ComponentsOk(path: Name, p: nat)
    requires p <= |path|
    ensures forall c | c in Components(path, p) :: GoodName(c)
    ensures Concat(Components(path, p)) == WithoutSlashes(path, p)
    decreases |path| - p
  {
    var q := SkipSlashes(path, p);
    SkippedSlashes(path, p);
    if q < |path| {
      assert path[q..q + 1] == [path[q]];
      ComponentIs(path, q, 1);
      ComponentsOk(path, ComponentEnd(path, q, 1));
    }
  }

  /** Lookup finds what create has stored exactly if the name has at most 63 bytes: a longer name
      is cut on creation, but split into two components on lookup. */
  lemma LookupAgreesWithCreate(files: seq<File>, name: Name)
    requires IsComponent(name)
    ensures NewName([SLASH] + name) == Some(name)
    ensures (Resolve(files + [File(Stored(name), [])], [SLASH] + name).Some?) <==> |name| <= NAME_MAX
    ensures |name| <= NAME_MAX ==> Components([SLASH] + name, 0) == [name]
  {
    hide Components, Find;
    var path := [SLASH] + name;
    assert path[1..] == name;
    OneComponent(name);
    if |name| <= NAME_MAX {
      var all := files + [File(Stored(name), [])];
      assert all[|files|].name == name;
      assert Find(all, name) != -1;
    }
  }

  lemma OneComponent(name: Name)
    requires IsComponent(name)
    ensures if |name| <= NAME_MAX then Components([SLASH] + name, 0) == [name] else |Components([SLASH] + name, 0)| >= 2
  {
    var path := [SLASH] + name;
    assert path[1..] == name;
    assert SkipSlashes(path, 1) == 1;
    assert SkipSlashes(path, 0) == 1;
    ComponentStops(path, 1, 1);
    var e := ComponentEnd(path, 1, 1);
    if |name| <= NAME_MAX {
      assert e == |path| && path[1..e] == name;
      assert Components(path, e) == [];
    } else {
      assert SkipSlashes(path, e) == e < |path|;
      assert |Components(path, e)| >= 1;
    }
  }

  /** A path whose new name, if it has one, is short enough. */
  predicate ShortPath(path: Name) {
    NewName(path).Some? ==> |NewName(path).value| <= NAME_MAX
  }

  lemma NewNamePath(path: Name)
    requires NewName(path).Some?
    ensures IsComponent(NewName(path).value) && path == [SLASH] + NewName(path).value
  {
  }

  lemma FindOnly(files: seq<File>, i: nat)
    requires i < |files| && forall j, k | 0 <= j < k < |files| :: files[j].name != files[k].name
    ensures Find(files, files[i].name) == i
  {
  }

  /** The path resolves to the node of d, which is at the beginning. */
  ghost predicate LeadsTo(s: Fs, path: Name, d: Descriptor) {
    d.offset == 0 && Resolve(s.files, path) == Some(d.target)
  }

  /** `vfs_open` keeps names distinct, and from then on the path leads to the node it opened. */
  lemma OpenOk(s: Fs, t: nat, path: Name, m: Memory)
    requires FsOk(s) && Task(s, t) && ShortPath(path) && m.Consistent()
    ensures FsOk(Opened(s, t, path, m).0)
    ensures var (s1, fd) := Opened(s, t, path, m);
            fd != -1 ==> !IsOpen(s, t, fd) && IsOpen(s1, t, fd) && LeadsTo(s1, path, At(s1, t, fd))
  {
    hide Components, Find;
    var (s1, fd) := Opened(s, t, path, m);
    if |s1.files| > |s.files| {
      NewNamePath(path);
      var name := NewName(path).value;
      LookupAgreesWithCreate(s.files, name);
      assert s1.files[|s.files|].name == name;
      NotThere(s.files, name);
      FindOnly(s1.files, |s.files|);
    }
  }

  /** The lookup of `vfs_open` comes to the root, or to a child for which there is a wrapper. */
  ghost predicate Reaches(s: Fs, path: Name, m: Memory) {
    Resolve(s.files, path) == Some(Root) || (Resolve(s.files, path).Some? && m.found)
  }

  /** "/name" can be created. */
  predicate Creatable(path: Name, m: Memory) {
    1 < |path| && path[0] == SLASH && SLASH !in path[1..] && m.node && m.wrapper
  }

  /** When `vfs_open` succeeds: exactly if a descriptor is free, the path leads to a node or can be
      created, and there is memory for the open file.  It answers with the least free descriptor. */
  lemma OpensExactly(s: Fs, t: nat, path: Name, m: Memory)
    requires FsOk(s) && Task(s, t)
    ensures var fd := Opened(s, t, path, m).1;
            && (fd != -1 <==> (exists k :: 0 <= k < MAX_FD_PER_TASK && !IsOpen(s, t, k)) && (Reaches(s, path, m) || Creatable(path, m)) && m.file)
            && (fd != -1 ==> 0 <= fd < MAX_FD_PER_TASK && !IsOpen(s, t, fd) && forall k | 0 <= k < fd :: IsOpen(s, t, k))
  {
    hide Resolve;
  }

  /** What `vfs_open` changes: a missing file appears, empty, exactly if it can be created and a
      descriptor is free, whether or not the open file can be had; and one descriptor is set. */
  lemma OpenChanges(s: Fs, t: nat, path: Name, m: Memory)
    requires FsOk(s) && Task(s, t) && ShortPath(path)
    ensures var (s1, fd) := Opened(s, t, path, m);
            && s1.files == (if !Reaches(s, path, m) && Creatable(path, m) && (exists k :: 0 <= k < MAX_FD_PER_TASK && !IsOpen(s, t, k))
                            then s.files + [File(path[1..], [])] else s.files)
            && (fd == -1 ==> s1.table == s.table)
            && (fd != -1 ==> Slot(s, t, fd) && forall i | 0 <= i < |s.table| && i != t * MAX_FD_PER_TASK + fd :: s1.table[i] == s.table[i])
  {
    hide Resolve;
  }

  /** `vfs_close` frees an open descriptor, and only that. */
  lemma ClosesExactly(s: Fs, t: nat, fd: int)
    ensures var (s1, r) := Closed(s, t, fd);
            && r == (if IsOpen(s, t, fd) then 0 else -1)
            && !IsOpen(s1, t, fd) && s1.files == s.files && |s1.table| == |s.table|
            && forall i | 0 <= i < |s.table| && !(0 <= fd < MAX_FD_PER_TASK && i == t * MAX_FD_PER_TASK + fd) :: s1.table[i] == s.table[i]
  {
  }

  /** Without that a file could be created twice: exactly if its wrapper cannot be had but a new file can. */
  lemma DuplicateExactly(s: Fs, t: nat, path: Name, m: Memory)
    requires FsOk(s) && Task(s, t) && ShortPath(path)
    ensures FsOk(Opened(s, t, path, m).0) <==>
            !(FreeFd(s, t, 0) != -1 && Resolve(s.files, path).Some? && NewName(path).Some? && !m.found && m.node && m.wrapper)
  {
    hide Components, Find;
    var s1 := Opened(s, t, path, m).0;
    if NewName(path).Some? && Resolve(s.files, path).Some? {
      NewNamePath(path);
      var name := NewName(path).value;
      LookupAgreesWithCreate(s.files, name);
      var i := Find(s.files, name);
      assert Resolve(s.files, path) == Some(Node(i)) && s.files[i].name == name;
      if |s1.files| > |s.files| {
        assert s1.files[i].name == s1.files[|s.files|].name;
      } else {
        assert s1.files == s.files;
      }
    } else if |s1.files| > |s.files| {
      OpenOk(s, t, path, Memory(true, m.node, m.wrapper, m.file));
    }
  }

  lemma NotThere(files: seq<File>, name: Name)
    requires GoodName(name) && Resolve(files, [SLASH] + name).None?
    ensures forall i | 0 <= i < |files| :: files[i].name != name
  {
    LookupAgreesWithCreate(files, name);
  }

  // ----- runs -----

  datatype Op =
    | Open(t: nat, path: Name, m: Memory)
    | Read(t: nat, fd: int, size: nat)
    | Write(t: nat, fd: int, bytes: seq<Byte>, memory: bool)
    | Close(t: nat, fd: int)

  predicate Enabled(s: Fs, op: Op) {
    Task(s, op.t) && (op.Open? ==> ShortPath(op.path) && op.m.Consistent())
  }

  ghost function Step(s: Fs, op: Op): Fs
    requires FsTable(s) && Enabled(s, op)
  {
    match op
    case Open(t, path, m) => Opened(s, t, path, m).0
    case Read(t, fd, size) => ReadAt(s, t, fd, size).0
    case Write(t, fd, bytes, memory) => Written(s, t, fd, bytes, memory).0
    case Close(t, fd) => Closed(s, t, fd).0
  }

  /** s after the operations in order; every operation is enabled when its turn comes. */
  ghost predicate Runs(s: Fs, ops: seq<Op>, s1: Fs)
    decreases |ops|
  {
    if ops == [] then s1 == s
    else FsTable(s) && Enabled(s, ops[0]) && Runs(Step(s, ops[0]), ops[1..], s1)
  }

  /** Files keep their identity and their name, and are never removed. */
  ghost predicate Extends(s: Fs, s1: Fs) {
    && |s.files| <= |s1.files| && |s.table| == |s1.table|
    && forall i | 0 <= i < |s.files| :: s1.files[i].name == s.files[i].name
  }

  predicate WritesTo(s: Fs, op: Op, id: nat) {
    op.Write? && IsOpen(s, op.t, op.fd) && At(s, op.t, op.fd).target == Node(id)
  }

  /** One operation keeps the invariant, touches the bytes of a file only by writing to it, and
      touches no descriptor but its own. */
  lemma StepOk(s: Fs, op: Op)
    requires FsOk(s) && Enabled(s, op)
    ensures FsOk(Step(s, op)) && Extends(s, Step(s, op))
    ensures forall id | 0 <= id < |s.files| && !WritesTo(s, op, id) :: Step(s, op).files[id] == s.files[id]
    ensures forall i | 0 <= i < |s.table| && i / MAX_FD_PER_TASK != op.t :: Step(s, op).table[i] == s.table[i]
  {
    if op.Open? {
      OpenOk(s, op.t, op.path, op.m);
      hide Resolve, NewName;
    }
  }

  ghost predicate NoWriteTo(s: Fs, ops: seq<Op>, id: nat)
    decreases |ops|
  {
    ops == [] || (FsTable(s) && Enabled(s, ops[0]) && !WritesTo(s, ops[0], id) && NoWriteTo(Step(s, ops[0]), ops[1..], id))
  }

  /** Over any run of operations by any tasks: names stay distinct, identities stay put, and the
      bytes of a file that nobody writes to stay the same. */
  lemma {:induction false} RunOk(s: Fs, ops: seq<Op>, s1: Fs, id: nat)
    requires FsOk(s) && Runs(s, ops, s1) && id < |s.files|
    ensures FsOk(s1) && Extends(s, s1)
    ensures NoWriteTo(s, ops, id) ==> s1.files[id] == s.files[id]
    decreases |ops|
  {
    if ops != [] {
      StepOk(s, ops[0]);
      hide FsOk, Step, WritesTo;
      RunOk(Step(s, ops[0]), ops[1..], s1, id);
    }
  }

  /** Once a path leads somewhere it leads there for ever: every later open of the same path, by
      any task, gets the same node. */
  lemma PathStable(s: Fs, ops: seq<Op>, s1: Fs, path: Name)
    requires FsOk(s) && FsOk(s1) && Extends(s, s1) && Resolve(s.files, path).Some?
    ensures Resolve(s1.files, path) == Resolve(s.files, path)
  {
    hide Components;
    var cs := Components(path, 0);
    if |cs| == 1 {
      var i := Find(s.files, cs[0]);
      FindOnly(s1.files, i);
    }
  }

  // ----- the map from names to bytes -----

  /** The bytes of the file called `name`. */
  ghost function Data(s: Fs, name: Name): Option<seq<Byte>> {
    if Find(s.files, name) == -1 then None else Some(s.files[Find(s.files, name)].data)
  }

  /** An open descriptor of a file. */
  predicate IsFile(s: Fs, t: nat, fd: int) {
    IsOpen(s, t, fd) && At(s, t, fd).target.Node?
  }

  /** The data that an open descriptor of a file reads and writes. */
  ghost function DataAt(s: Fs, t: nat, fd: int): seq<Byte>
    requires FsTable(s) && IsFile(s, t, fd)
  {
    s.files[At(s, t, fd).target.id].data
  }

  /** A write fails exactly on what is no open file, or if it makes the file longer and there is no
      memory; then nothing changes. */
  lemma WriteFailsExactly(s: Fs, t: nat, fd: int, bytes: seq<Byte>, memory: bool)
    requires FsTable(s)
    ensures var (s1, n) := Written(s, t, fd, bytes, memory);
            && (n == -1 <==> !IsFile(s, t, fd) || (bytes != [] && At(s, t, fd).offset + |bytes| > |DataAt(s, t, fd)| && !memory))
            && (n == -1 ==> s1 == s)
            && (n != -1 ==> n == |bytes|)
  {
  }

  /** Otherwise it is a splice of the one name that the descriptor belongs to, at the descriptor's
      offset; every other name keeps its bytes, and every other descriptor its offset. */
  lemma WriteIsSplice(s: Fs, t: nat, fd: int, bytes: seq<Byte>, memory: bool, name: Name)
    requires FsOk(s) && Written(s, t, fd, bytes, memory).1 != -1
    ensures IsFile(s, t, fd)
    ensures var s1 := Written(s, t, fd, bytes, memory).0;
            var d := At(s, t, fd);
            && Data(s1, name) == (if name == s.files[d.target.id].name then Some(Splice(Data(s, name).value, d.offset, bytes)) else Data(s, name))
            && IsOpen(s1, t, fd) && At(s1, t, fd) == Descriptor(d.target, d.offset + |bytes|)
            && |s1.table| == |s.table|
            && forall i | 0 <= i < |s.table| && i != t * MAX_FD_PER_TASK + fd :: s1.table[i] == s.table[i]
  {
    hide Splice;
    var s1 := Written(s, t, fd, bytes, memory).0;
    var k := Find(s.files, name);
    if k != -1 { FindOnly(s1.files, k); FindOnly(s.files, k); }
    FindOnly(s.files, At(s, t, fd).target.id);
  }

  /** A read is a slice of that name at the descriptor's offset, and fails exactly on what is no open
      file. */
  lemma ReadIsSlice(s: Fs, t: nat, fd: int, size: nat)
    requires FsOk(s)
    ensures !IsFile(s, t, fd) ==> ReadAt(s, t, fd, size) == (s, None)
    ensures IsFile(s, t, fd) ==>
            var (s1, bytes) := ReadAt(s, t, fd, size);
            var d := At(s, t, fd);
            && bytes == Some(Slice(Data(s, s.files[d.target.id].name).value, d.offset, size))
            && s1.files == s.files
            && IsOpen(s1, t, fd) && At(s1, t, fd) == Descriptor(d.target, d.offset + |bytes.value|)
            && forall i | 0 <= i < |s.table| && i != t * MAX_FD_PER_TASK + fd :: s1.table[i] == s.table[i]
  {
    hide Slice;
    if IsFile(s, t, fd) { FindOnly(s.files, At(s, t, fd).target.id); }
  }

  // ----- chunked access -----

  /** One of several writes, and the answer of `kmalloc` to it. */
  datatype Chunk = Chunk(bytes: seq<Byte>, memory: bool)

  function Flatten(chunks: seq<Chunk>): seq<Byte> {
    if chunks == [] then [] else chunks[0].bytes + Flatten(chunks[1..])
  }

  /** The state after the writes, and the bytes of those that did not fail. */
  function WriteChunks(s: Fs, t: nat, fd: int, chunks: seq<Chunk>): (Fs, seq<Byte>)
    requires FsTable(s)
    decreases |chunks|
  {
    if chunks == [] then (s, [])
    else
      var (s1, n) := Written(s, t, fd, chunks[0].bytes, chunks[0].memory);
      var (s2, rest) := WriteChunks(s1, t, fd, chunks[1..]);
      (s2, (if n == -1 then [] else chunks[0].bytes) + rest)
  }

  /** Writing in chunks is writing everything at once; what is written lacks the chunks that failed,
      hence nothing if there is memory for all of them. */
  lemma {:induction false} ChunksAreOneWrite(s: Fs, t: nat, fd: int, chunks: seq<Chunk>)
    requires FsOk(s) && IsFile(s, t, fd)
    ensures var (s1, accepted) := WriteChunks(s, t, fd, chunks);
            && (s1, |accepted|) == Written(s, t, fd, accepted, true)
            && ((forall c | c in chunks :: c.memory) ==> accepted == Flatten(chunks))
    decreases |chunks|
  {
    if chunks == [] {
      NothingWritten(s, t, fd);
    } else {
      var c := chunks[0];
      var (s1, n) := Written(s, t, fd, c.bytes, c.memory);
      var rest := WriteChunks(s1, t, fd, chunks[1..]).1;
      OneWrite(s, t, fd, c.bytes, c.memory);
      hide Written, FsOk;
      ChunksAreOneWrite(s1, t, fd, chunks[1..]);
      if n == -1 {
        assert [] + rest == rest;
      } else {
        TwoWrites(s, t, fd, c.bytes, rest, c.memory);
      }
    }
  }

  lemma NothingWritten(s: Fs, t: nat, fd: int)
    requires FsOk(s) && IsFile(s, t, fd)
    ensures WriteAt(s, t, fd, []).0 == s
  {
    var d := At(s, t, fd);
    assert s.files[d.target.id := s.files[d.target.id]] == s.files;
    assert s.table[t * MAX_FD_PER_TASK + fd := s.table[t * MAX_FD_PER_TASK + fd]] == s.table;
  }

  lemma TwoWrites(s: Fs, t: nat, fd: int, a: seq<Byte>, b: seq<Byte>, memory: bool)
    requires FsOk(s) && IsFile(s, t, fd) && Written(s, t, fd, a, memory).1 != -1
    requires FsTable(Written(s, t, fd, a, memory).0)
    ensures Written(Written(s, t, fd, a, memory).0, t, fd, b, true).0 == Written(s, t, fd, a + b, true).0
    ensures Written(s, t, fd, a + b, true).1 == |a + b|
  {
    hide Splice;
    var d := At(s, t, fd);
    SpliceTwice(s.files[d.target.id].data, d.offset, a, b);
  }

  function ReadChunks(s: Fs, t: nat, fd: int, sizes: seq<nat>): seq<Byte>
    requires FsTable(s)
    decreases |sizes|
  {
    if sizes == [] then []
    else
      var (s1, bytes) := ReadAt(s, t, fd, sizes[0]);
      (if bytes.Some? then bytes.value else []) + ReadChunks(s1, t, fd, sizes[1..])
  }

  function Sum(sizes: seq<nat>): nat {
    if sizes == [] then 0 else sizes[0] + Sum(sizes[1..])
  }

  /** Reading in chunks is reading everything at once. */
  lemma {:induction false} ChunksAreOneRead(s: Fs, t: nat, fd: int, sizes: seq<nat>)
    requires FsOk(s) && IsOpen(s, t, fd) && At(s, t, fd).target.Node?
    ensures var d := At(s, t, fd);
            ReadChunks(s, t, fd, sizes) == Slice(s.files[d.target.id].data, d.offset, Sum(sizes))
    decreases |sizes|
  {
    if sizes != [] {
      hide Slice, ReadAt;
      var d := At(s, t, fd);
      OneRead(s, t, fd, sizes[0]);
      ChunksAreOneRead(ReadAt(s, t, fd, sizes[0]).0, t, fd, sizes[1..]);
      SliceTwice(s.files[d.target.id].data, d.offset, sizes[0], Sum(sizes[1..]));
    } else {
      assert Slice(s.files[At(s, t, fd).target.id].data, At(s, t, fd).offset, 0) == [];
    }
  }

  lemma OneRead(s: Fs, t: nat, fd: int, size: nat)
    requires FsOk(s) && IsOpen(s, t, fd) && At(s, t, fd).target.Node?
    ensures var (s1, bytes) := ReadAt(s, t, fd, size);
            var d := At(s, t, fd);
            && FsOk(s1) && s1.files == s.files && IsOpen(s1, t, fd) && d.target.id < |s.files|
            && bytes == Some(Slice(s.files[d.target.id].data, d.offset, size))
            && At(s1, t, fd) == Descriptor(d.target, d.offset + |bytes.value|)
  {
    hide Slice;
    StepOk(s, Read(t, fd, size));
  }

  /** What one task writes in any chunks, from any offset into any file, any task reads back in any
      chunks from that offset, whatever all tasks do in between without writing to that file: all
      of it if there was memory, and otherwise all but the chunks whose write failed. */
  lemma RoundTrip(s: Fs, t: nat, fd: int, chunks: seq<Chunk>, ops: seq<Op>, s2: Fs, t2: nat, fd2: int, sizes: seq<nat>)
    requires FsOk(s) && IsFile(s, t, fd)
    requires Runs(WriteChunks(s, t, fd, chunks).0, ops, s2)
    requires NoWriteTo(WriteChunks(s, t, fd, chunks).0, ops, At(s, t, fd).target.id)
    requires FsTable(s2) && IsOpen(s2, t2, fd2)
    requires At(s2, t2, fd2) == Descriptor(At(s, t, fd).target, At(s, t, fd).offset)
    ensures var d, written, got := At(s, t, fd), WriteChunks(s, t, fd, chunks).1, ReadChunks(s2, t2, fd2, sizes);
            && ((forall c | c in chunks :: c.memory) ==> written == Flatten(chunks))
            && (Sum(sizes) == |written| ==> got == written)
            && (Sum(sizes) > |written| && written != [] ==> written <= got)
            && (Sum(sizes) > |written| && |s.files[d.target.id].data| <= d.offset + |written| ==> got == written)
  {
    hide Runs, NoWriteTo;
    var d := At(s, t, fd);
    var id := d.target.id;
    ChunksAreOneWrite(s, t, fd, chunks);
    var (s1, written) := WriteChunks(s, t, fd, chunks);
    OneWrite(s, t, fd, written, true);
    RunOk(s1, ops, s2, id);
    ChunksAreOneRead(s2, t2, fd2, sizes);
    if Sum(sizes) >= |written| {
      ReadLonger(s.files[id].data, d.offset, written, Sum(sizes));
    }
  }

  lemma OneWrite(s: Fs, t: nat, fd: int, bytes: seq<Byte>, memory: bool)
    requires FsOk(s) && IsFile(s, t, fd)
    ensures var (s1, n) := Written(s, t, fd, bytes, memory);
            && FsOk(s1) && IsFile(s1, t, fd) && (memory ==> n != -1) && (n == -1 ==> s1 == s)
            && At(s, t, fd).target.id < |s.files| == |s1.files|
            && (n != -1 ==> s1.files[At(s, t, fd).target.id].data == Splice(DataAt(s, t, fd), At(s, t, fd).offset, bytes))
  {
    hide Splice;
    StepOk(s, Write(t, fd, bytes, memory));
  }

  lemma ReadLonger(data: seq<Byte>, offset: nat, bytes: seq<Byte>, size: nat)
    requires size >= |bytes|
    ensures var got := Slice(Splice(data, offset, bytes), offset, size);
            && (size == |bytes| ==> got == bytes)
            && (bytes != [] ==> bytes <= got)
            && (|data| <= offset + |bytes| ==> got == bytes)
  {
    if bytes != [] {
      ReadBack(data, offset, bytes);
      SpliceAt(data, offset, bytes, 0);
      hide Splice;
      var r := Splice(data, offset, bytes);
      assert r[offset..][..|bytes|] == r[offset..offset + |bytes|];
    }
  }

  // ----- listing -----

  /** Listing the root names every file exactly once and then stops. */
  lemma ListsEachOnce(s: Fs, path: Name, id: nat)
    requires FsOk(s) && id < |s.files| && Resolve(s.files, path) == Some(Root)
    ensures forall index: nat :: Listed(s, path, index) == Some(s.files[id].name) <==> index == |s.files| - 1 - id
    ensures forall index: nat :: Listed(s, path, index).None? <==> index >= |s.files|
  {
  }
}
