/** fs/ramfs.c and fs/vfs.c: nodes in a linked list, a table of open files, and the operations on
    them.  The answers of `kmalloc` are parameters. */
module RamFs {
  import opened Words
  import opened Options
  import opened FileModel

  /** `ramfs_node_t` */
  class RamNode {
    const name: Name
    const isDir: bool
    var data: array?<Byte>
    var size: nat
    var children: RamNode?
    var next: RamNode?

    constructor (n: Name, dir: bool)
      ensures name == n && isDir == dir && data == null && size == 0 && children == null && next == null
    {
      name, isDir := n, dir;
      data, size := null, 0;
      children, next := null, null;
    }

    /** `ramfs_read` of a file; the caller keeps offset + size below 2^32. */
    method Read(offset: nat, buf: array<Byte>, start: nat, want: nat) returns (n: nat)
      requires !isDir && size == |Bytes()| && buf != data
      requires start + want <= buf.Length && offset + want < TWO_TO_32
      modifies buf
      ensures n == |Slice(Bytes(), offset, want)| && n <= want
      ensures Filled(old(buf[..]), buf[..], start, Slice(Bytes(), offset, want))
    {
      if data == null || offset >= size { return 0; }
      n := want;
      if Wrap(offset + n) > size { n := size - offset; }
      var i := 0;
      while i < n
        invariant 0 <= i <= n
        invariant forall j | 0 <= j < buf.Length ::
                    buf[j] == if start <= j < start + i then data[offset + (j - start)] else old(buf[j])
      {
        buf[start + i] := data[offset + i];
        i := i + 1;
      }
    }

    /** The growing half of `ramfs_write`: a larger buffer with the old content and a zeroed gap;
        the rest is whatever `kmalloc` left there. */
    method Grow(needed: nat, offset: nat)
      requires size == |Bytes()| && size < needed && offset <= needed
      modifies this`data, this`size
      ensures data != null && fresh(data) && size == data.Length == needed
      ensures forall j | 0 <= j < needed && (j < old(size) || j < offset) ::
                data[j] == if j < old(size) then old(Bytes())[j] else 0
    {
      ghost var before := Bytes();
      var bigger := new Byte[needed];
      var i := 0;
      while i < size
        invariant unchanged(this) && Bytes() == before && size == |before|
        invariant 0 <= i <= size
        invariant forall j | 0 <= j < i :: bigger[j] == before[j]
      {
        bigger[i] := data[i];
        i := i + 1;
      }
      i := size;
      while i < offset
        invariant unchanged(this) && Bytes() == before && size == |before|
        invariant size <= i && (i <= offset || i == size)
        invariant forall j | 0 <= j < i :: bigger[j] == if j < size then before[j] else 0
      {
        bigger[i] := 0;
        i := i + 1;
      }
      data := bigger;
      size := needed;
    }

    /** `ramfs_write` to a file */
    method Write(offset: nat, bytes: seq<Byte>, memory: bool) returns (n: int)
      requires !isDir && size == |Bytes()| && offset + |bytes| < TWO_TO_32
      modifies this`data, this`size, data
      ensures size == |Bytes()| && (data == old(data) || fresh(data))
      ensures if bytes != [] && offset + |bytes| > |old(Bytes())| && !memory then n == -1 && Bytes() == old(Bytes())
              else n == |bytes| && Bytes() == Splice(old(Bytes()), offset, bytes)
    {
      if |bytes| == 0 { return 0; }
      var needed := Wrap(offset + |bytes|);
      ghost var before := Bytes();
      if needed > size {
        if !memory { return -1; }
        Grow(needed, offset);
      }
      ghost var grown := Bytes();
      var i := 0;
      while i < |bytes|
        invariant 0 <= i <= |bytes| && data != null && (data == old(data) || fresh(data))
        invariant size == |Bytes()| == |grown|
        invariant forall j | 0 <= j < size ::
                    data[j] == if offset <= j < offset + i then bytes[j - offset] else grown[j]
      {
        data[offset + i] := bytes[i];
        i := i + 1;
      }
      Overwritten(before, grown, offset, bytes, Bytes());
      return |bytes|;
    }

    /** The content: nothing before the first write. */
    function Bytes(): seq<Byte>
      reads this, data
    {
      if data == null then [] else data[..]
    }
  }

  lemma Overwritten(before: seq<Byte>, grown: seq<Byte>, offset: nat, bytes: seq<Byte>, after: seq<Byte>)
    requires bytes != []
    requires |grown| == if offset + |bytes| > |before| then offset + |bytes| else |before|
    requires forall j | 0 <= j < |grown| && (j < |before| || j < offset) :: grown[j] == if j < |before| then before[j] else 0
    requires |after| == |grown|
    requires forall j | 0 <= j < |after| :: after[j] == if offset <= j < offset + |bytes| then bytes[j - offset] else grown[j]
    ensures after == Splice(before, offset, bytes)
  {
    var r := Splice(before, offset, bytes);
    SpliceAt(before, offset, bytes, 0);
    hide Splice;
    forall j | 0 <= j < |after| ensures after[j] == r[j] {
      SpliceAt(before, offset, bytes, j);
    }
  }

  /** `vfs_file_t`; the ghost number says which node it refers to, -1 for the root. */
  class OpenFile {
    const node: RamNode
    const flags: int
    ghost const id: int
    var offset: nat

    constructor (n: RamNode, f: int, ghost i: int)
      ensures node == n && flags == f && id == i && offset == 0
    {
      node, flags, id, offset := n, f, i, 0;
    }
  }

  // ----- C strings -----

  function CharAt(s: Name, i: nat): int {
    if i < |s| then s[i] else 0
  }

  predicate NoNul(s: Name) {
    forall i | 0 <= i < |s| :: s[i] != 0
  }

  /** The comparison loop of `ramfs_lookup`. */
  method NamesMatch(a: Name, b: Name) returns (same: bool)
    requires |a| <= NAME_MAX && |b| <= NAME_MAX && NoNul(a) && NoNul(b)
    ensures same <==> a == b
  {
    var i := 0;
    while i < 64
      invariant 0 <= i <= 64 && i <= |a| && i <= |b| && a[..i] == b[..i]
    {
      if CharAt(a, i) != CharAt(b, i) { return false; }
      if CharAt(b, i) == 0 { return true; }
      i := i + 1;
    }
    assert false;
  }

  /** The copy loop that fills a node's name. */
  method CopyName(name: Name) returns (r: Name)
    requires NoNul(name)
    ensures r == Stored(name)
  {
    r := [];
    var i := 0;
    while CharAt(name, i) != 0 && i < 63
      invariant 0 <= i <= 63 && i <= |name| && r == name[..i]
      decreases 63 - i
    {
      r := r + [name[i]];
      i := i + 1;
    }
  }

  lemma SkipStep(path: Name, p: nat)
    requires p <= |path|
    ensures SkipSlashes(path, p) == if p < |path| && path[p] == SLASH then SkipSlashes(path, p + 1) else p
  {
  }

  lemma EndStep(path: Name, q: nat, n: nat)
    requires q + n <= |path|
    ensures ComponentEnd(path, q, n) ==
            if q + n < |path| && path[q + n] != SLASH && n < NAME_MAX then ComponentEnd(path, q, n + 1) else q + n
  {
  }

  lemma NextComponent(path: Name, start: nat)
    requires start <= |path|
    ensures var q := SkipSlashes(path, start);
            Components(path, start) ==
            if q == |path| then []
            else [path[q..ComponentEnd(path, q, 1)]] + Components(path, ComponentEnd(path, q, 1))
  {
  }

  /** `path_next` */
  method PathNext(path: Name, start: nat) returns (found: bool, name: Name, p: nat)
    requires start <= |path| && NoNul(path)
    ensures start <= p <= |path| && Components(path, start) == if found then [name] + Components(path, p) else []
    ensures found ==> GoodName(name) && NoNul(name) && p > start
  {
    hide Components, SkipSlashes, ComponentEnd;
    NextComponent(path, start);
    p := start;
    while CharAt(path, p) == SLASH
      invariant start <= p <= |path| && SkipSlashes(path, p) == SkipSlashes(path, start)
      decreases |path| - p
    {
      SkipStep(path, p);
      p := p + 1;
    }
    SkipStep(path, p);
    if CharAt(path, p) == 0 { return false, [], p; }
    ghost var q := p;
    name := [];
    var i := 0;
    while CharAt(path, p) != SLASH && CharAt(path, p) != 0 && i < 63
      invariant 0 <= i <= 63 && p == q + i <= |path| && name == path[q..p] && SLASH !in name
      invariant i > 0 ==> ComponentEnd(path, q, i) == ComponentEnd(path, q, 1)
      decreases 63 - i
    {
      if i > 0 { EndStep(path, q, i); }
      assert path[q..p + 1] == path[q..p] + [path[p]];
      name := name + [path[p]];
      p := p + 1;
      i := i + 1;
    }
    EndStep(path, q, i);
    found := true;
  }

  // ----- the file system -----

  class Vfs {
    const root: RamNode
    const slots: array<OpenFile?>
    /** The root's children in the order of their creation. */
    ghost var nodes: seq<RamNode>
    ghost var Repr: set<object>

    ghost predicate NodeOk(k: int)
      reads this, Repr
      requires 0 <= k < |nodes|
    {
      var n := nodes[k];
      && n in Repr && n != root && !n.isDir && NoNul(n.name)
      && (n.data != null ==> n.data in Repr && n.data as object != slots)
      && n.size == |n.Bytes()|
      && n.children == null && n.next == (if k == 0 then null else nodes[k - 1])
    }

    ghost predicate Owned()
      reads this, Repr
    {
      && this in Repr && root in Repr && slots in Repr
      && root.isDir && root.children == (if nodes == [] then null else nodes[|nodes| - 1])
    }

    ghost predicate NodesOk()
      reads this, Repr
    {
      && (forall k {:trigger NodeOk(k)} | 0 <= k < |nodes| :: NodeOk(k))
      && (forall j, k {:trigger Apart(j, k)} | 0 <= j < k < |nodes| :: Apart(j, k))
    }

    ghost predicate Apart(j: int, k: int)
      reads this, Repr
      requires 0 <= j < k < |nodes|
    {
      && nodes[j] in Repr && nodes[k] in Repr
      && nodes[j] != nodes[k] && (nodes[j].data != null ==> nodes[j].data != nodes[k].data)
    }

    ghost predicate SlotOk(i: int)
      reads this, Repr, slots
      requires 0 <= i < slots.Length
    {
      var f := slots[i];
      f != null ==>
        && f in Repr && -1 <= f.id < |nodes| && f.node == (if f.id == -1 then root else nodes[f.id])
    }

    ghost predicate SlotsOk()
      reads this, Repr, slots
    {
      && (forall i {:trigger SlotOk(i)} | 0 <= i < slots.Length :: SlotOk(i))
      && (forall i, j {:trigger SlotsApart(i, j)} | 0 <= i < j < slots.Length :: SlotsApart(i, j))
    }

    ghost predicate SlotsApart(i: int, j: int)
      reads slots
      requires 0 <= i < j < slots.Length
    {
      slots[i] != null ==> slots[i] != slots[j]
    }

    ghost predicate Valid()
      reads this, Repr, slots
      ensures Valid() ==> Owned() && NodesOk() && SlotsOk() && FsOk(State())
    {
      Owned() && NodesOk() && SlotsOk() && FsOk(State())
    }

    /** The abstract state. */
    ghost function State(): Fs
      reads this, Repr, slots
      requires Owned() && NodesOk() && SlotsOk()
    {
      Fs(Files(), Table())
    }

    ghost function Files(): seq<File>
      reads this, Repr
      requires NodesOk()
    {
      seq(|nodes|, k requires 0 <= k < |nodes| && NodeOk(k) reads this, Repr => File(nodes[k].name, nodes[k].Bytes()))
    }

    ghost function Table(): seq<Option<Descriptor>>
      reads this, Repr, slots
      requires SlotsOk()
    {
      seq(slots.Length, i requires 0 <= i < slots.Length && SlotOk(i) reads this, Repr, slots =>
        if slots[i] == null then None
        else Some(Descriptor(if slots[i].id == -1 then Root else Node(slots[i].id), slots[i].offset)))
    }

    /** `ramfs_init` and `vfs_mount`, with the empty descriptor tables of n tasks */
    constructor (n: nat)
      ensures Valid() && fresh(Repr)
      ensures State() == Fs([], seq(n * MAX_FD_PER_TASK, _ => None))
    {
      root := new RamNode([SLASH], true);
      slots := new OpenFile?[n * MAX_FD_PER_TASK](_ => null);
      nodes := [];
      new;
      Repr := {this, root, slots};
      assert Table() == seq(n * MAX_FD_PER_TASK, _ => None);
      assert Files() == [];
    }

    lemma NodeFacts(k: nat)
      requires Valid() && k < |nodes|
      ensures |State().files| == |nodes| && State().files[k] == File(nodes[k].name, nodes[k].Bytes())
      ensures NodeOk(k) && GoodName(nodes[k].name)
    {
      assert GoodName(State().files[k].name);
    }

    lemma FileCount()
      requires Valid()
      ensures |State().files| == |nodes| && root.isDir
    {
    }

    ghost function ChildAt(id: int): RamNode?
      reads this
    {
      if 0 <= id < |nodes| then nodes[id] else null
    }

    /** The node that a resolved path stands for. */
    ghost function NodeOf(target: Option<Target>): RamNode?
      reads this
    {
      match target
      case None => null
      case Some(Root) => root
      case Some(Node(id)) => ChildAt(id)
    }

    /** `ramfs_lookup`; `memory` is the answer of `kmalloc` for the wrapper. */
    method LookupChild(dir: RamNode, name: Name, memory: bool) returns (n: RamNode?, ghost id: int)
      requires Valid() && (dir == root || (!dir.isDir && dir in nodes)) && GoodName(name) && NoNul(name)
      ensures id == if dir == root then Find(State().files, name) else -1
      ensures n == if dir == root && memory then ChildAt(Find(State().files, name)) else null
      ensures id == -1 || 0 <= id < |nodes|
    {
      FileCount();
      if !dir.isDir { return null, -1; }
      id := |nodes| - 1;
      var child := dir.children;
      assert child == if id == -1 then null else nodes[id];
      hide Valid, Owned, NodesOk, State, Find;
      while child != null
        invariant -1 <= id < |nodes|
        invariant child == if id == -1 then null else nodes[id]
        invariant forall k | id < k < |nodes| :: State().files[k].name != name
        decreases id
      {
        NodeFacts(id);
        var same := NamesMatch(child.name, name);
        if same {
          FindOnly(State().files, id);
          if !memory { return null, id; }
          return child, id;
        }
        child := child.next;
        id := id - 1;
      }
      n := null;
    }

    /** `vfs_lookup` */
    method Lookup(path: Name, memory: bool) returns (n: RamNode?, ghost target: Option<Target>)
      requires Valid() && NoNul(path)
      ensures target == FileModel.Found(State().files, path, memory)
      ensures n == NodeOf(FileModel.Found(State().files, path, memory))
      ensures target.Some? && target.value.Node? ==> target.value.id < |nodes|
    {
      hide Valid, Owned, NodesOk, SlotsOk, State, Find, Components, Resolve;
      FileCount();
      var cur := root;
      ghost var id := -1;
      var found, name, p := PathNext(path, 0);
      ghost var files := State().files;
      while found
        invariant p <= |path| && (found ==> GoodName(name) && NoNul(name))
        invariant -1 <= id < |nodes| && cur == if id == -1 then root else nodes[id]
        invariant Walked(files, path, id, if found then [name] + Components(path, p) else [])
        invariant id != -1 ==> memory
        decreases |path| - p, found
      {
        WalkOn(files, path, id, name, Components(path, p));
        if id != -1 { NodeFacts(id); }
        if !cur.isDir { return null, None; }
        ghost var childId;
        var child;
        child, childId := LookupChild(cur, name, memory);
        if child == null {
          if childId != -1 { NoRoot(files, path, childId, Components(path, p)); }
          return null, None;
        }
        cur, id := child, childId;
        found, name, p := PathNext(path, p);
      }
      WalkEnd(files, path, id);
      return cur, Some(if id == -1 then Root else Node(id));
    }

    /** `ramfs_create` in the root directory; without memory for both parts the new node is taken out again. */
    method Create(name: Name, m: Memory) returns (n: RamNode?)
      requires Valid() && NoNul(name) && GoodName(name) && (m.node && m.wrapper ==> Find(State().files, name) == -1)
      modifies this, root
      ensures if m.node && m.wrapper then
                && Valid() && n != null && fresh(n) && Repr == old(Repr) + {n} && nodes == old(nodes) + [n]
                && State() == old(State()).(files := old(State().files) + [File(name, [])])
              else n == null && Valid() && Repr == old(Repr) && nodes == old(nodes) && State() == old(State())
    {
      if !m.node { return null; }
      if !m.wrapper {
        Withdraw(name);
        return null;
      }
      n := Add(name);
    }

    /** The node is linked in and, as its wrapper cannot be had, taken out again. */
    method Withdraw(name: Name)
      requires Valid() && NoNul(name)
      modifies root`children
      ensures root.children == old(root.children) && Valid() && State() == old(State())
    {
      ghost var first := root.children;
      var kept := CopyName(name);
      var n := new RamNode(kept, false);
      n.next := root.children;
      root.children := n;
      root.children := n.next;
      assert root.children == first;
    }

    /** The new node becomes the first child. */
    method Add(name: Name) returns (n: RamNode)
      requires Valid() && NoNul(name) && GoodName(name) && Find(State().files, name) == -1
      modifies this, root
      ensures Valid() && fresh(n) && Repr == old(Repr) + {n}
      ensures nodes == old(nodes) + [n]
      ensures State() == old(State()).(files := old(State().files) + [File(name, [])])
    {
      hide FsOk, GoodName, Find;
      FsOkCreate(State(), name);
      var kept := CopyName(name);
      ShortStored(name);
      n := new RamNode(kept, false);
      n.next := root.children;
      root.children := n;
      nodes := nodes + [n];
      Repr := Repr + {n};
      forall k | 0 <= k < |nodes| ensures NodeOk(k) {
        assert k < |old(nodes)| ==> old(NodeOk(k));
      }
      forall j, k | 0 <= j < k < |nodes| ensures Apart(j, k) {
        assert k < |old(nodes)| ==> old(Apart(j, k));
        assert old(NodeOk(j));
      }
      forall i | 0 <= i < slots.Length ensures SlotOk(i) {
        assert old(SlotOk(i));
      }
      forall i, j | 0 <= i < j < slots.Length ensures SlotsApart(i, j) {
        assert old(SlotsApart(i, j));
      }
      assert Table() == old(Table());
      assert Files() == old(Files()) + [File(name, [])];
    }

    /** The search for a free descriptor at the head of `vfs_open`. */
    method FindFd(t: nat) returns (fd: int)
      requires Valid() && Task(State(), t)
      ensures fd == FreeFd(State(), t, 0)
    {
      var i := 0;
      while i < MAX_FD_PER_TASK
        invariant 0 <= i <= MAX_FD_PER_TASK
        invariant FreeFd(State(), t, i) == FreeFd(State(), t, 0)
      {
        if slots[t * MAX_FD_PER_TASK + i] == null { return i; }
        i := i + 1;
      }
      return -1;
    }

    /** A new open file goes into a free slot. */
    method Install(i: nat, f: OpenFile)
      requires Valid() && i < slots.Length && slots[i] == null && f !in Repr && f.offset == 0
      requires -1 <= f.id < |nodes| && f.node == (if f.id == -1 then root else nodes[f.id])
      modifies this`Repr, slots
      ensures Valid() && Repr == old(Repr) + {f} && nodes == old(nodes)
      ensures State() == old(State()).(table := old(State().table)[i := Some(Descriptor(if f.id == -1 then Root else Node(f.id), 0))])
    {
      slots[i] := f;
      Repr := Repr + {f};
      forall k | 0 <= k < |nodes| ensures NodeOk(k) {
        assert old(NodeOk(k));
      }
      forall j, k | 0 <= j < k < |nodes| ensures Apart(j, k) {
        assert old(Apart(j, k));
      }
      forall j | 0 <= j < slots.Length ensures SlotOk(j) {
        assert old(SlotOk(j));
      }
      forall j, k | 0 <= j < k < slots.Length ensures SlotsApart(j, k) {
        assert old(SlotsApart(j, k)) && old(SlotOk(j)) && old(SlotOk(k));
      }
      assert Files() == old(Files());
      assert Table() == old(Table())[i := Some(Descriptor(if f.id == -1 then Root else Node(f.id), 0))];
    }

    /** The search for the last slash in `vfs_open`. */
    static method LastSlash(path: Name) returns (last: int)
      ensures -1 <= last < |path| && (last >= 0 ==> path[last] == SLASH)
      ensures forall k | last < k < |path| :: path[k] != SLASH
    {
      last := -1;
      var q := 0;
      while q < |path|
        invariant 0 <= q <= |path| && -1 <= last < q && (last >= 0 ==> path[last] == SLASH)
        invariant forall k | last < k < q :: path[k] != SLASH
      {
        if path[q] == SLASH { last := q; }
        q := q + 1;
      }
    }

    /** `vfs_open` for task t, when `kmalloc` answers as m says */
    method Open(t: nat, path: Name, flags: int, m: Memory) returns (fd: int)
      requires Valid() && Task(State(), t) && NoNul(path) && ShortPath(path) && m.Consistent()
      modifies Repr
      ensures Valid() && fresh(Repr - old(Repr))
      ensures (State(), fd) == Opened(old(State()), t, path, m)
    {
      hide FsOk, Resolve, FreeFd, Owned, NodesOk, SlotsOk, Valid, State, NewName, ShortPath, NoNul;
      OwnParts();
      fd := FindFd(t);
      if fd == -1 { return; }
      FreeSlot(t, fd);
      ghost var target;
      var node;
      node, target := Lookup(path, m.found);
      ghost var id := if target.Some? && target.value.Node? then target.value.id else -1;
      if node == null {
        var last := LastSlash(path);
        NewNameBySlash(path, last);
        if last == -1 || last + 1 == |path| || last != 0 { return -1; }
        MissingName(State().files, path, m);
        node := Create(path[1..], m);
        if node == null { return -1; }
        id := |nodes| - 1;
      }
      if !m.file { return -1; }
      var file := new OpenFile(node, flags, id);
      Install(t * MAX_FD_PER_TASK + fd, file);
    }

    lemma OwnParts()
      requires Valid()
      ensures this in Repr && root in Repr && slots in Repr && |State().table| == slots.Length && |State().files| == |nodes|
    {
    }

    lemma FreeSlot(t: nat, fd: int)
      requires Valid() && Task(State(), t) && fd == FreeFd(State(), t, 0) != -1
      ensures 0 <= fd < MAX_FD_PER_TASK && t * MAX_FD_PER_TASK + fd < slots.Length && slots[t * MAX_FD_PER_TASK + fd] == null
    {
    }

    /** The offset of an open file moves on. */
    method Advance(i: nat, n: nat)
      requires Valid() && i < slots.Length && slots[i] != null
      modifies slots[i]
      ensures Valid() && State().files == old(State().files)
      ensures old(State().table[i]).Some? && i < |old(State().table)|
      ensures State().table == old(State().table)[i := Some(old(State().table[i]).value.(offset := old(State().table[i]).value.offset + n))]
    {
      var f := slots[i];
      assert SlotOk(i);
      f.offset := f.offset + n;
      forall k | 0 <= k < |nodes| ensures NodeOk(k) {
        assert old(NodeOk(k));
      }
      forall j, k | 0 <= j < k < |nodes| ensures Apart(j, k) {
        assert old(Apart(j, k));
      }
      forall j | 0 <= j < slots.Length ensures SlotOk(j) && (j != i ==> slots[j] != f) {
        assert old(SlotOk(j));
        assert if j < i then old(SlotsApart(j, i)) else j > i ==> old(SlotsApart(i, j));
      }
      forall j, k | 0 <= j < k < slots.Length ensures SlotsApart(j, k) {
        assert old(SlotsApart(j, k));
      }
      assert Files() == old(Files());
      assert Table() == old(Table())[i := Some(old(Table())[i].value.(offset := old(Table())[i].value.offset + n))];
    }

    /** `ramfs_write` to child number id: the list of children stays in order. */
    method WriteInto(ghost id: nat, node: RamNode, offset: nat, bytes: seq<Byte>, memory: bool) returns (n: int)
      requires Valid() && id < |nodes| && node == nodes[id] && offset + |bytes| < TWO_TO_32
      modifies this`Repr, node, node.data
      ensures Owned() && NodesOk() && old(Repr) <= Repr && fresh(Repr - old(Repr))
      ensures n == if bytes != [] && offset + |bytes| > |old(node.Bytes())| && !memory then -1 else |bytes|
      ensures forall k | 0 <= k < |nodes| ::
                nodes[k].Bytes() == if k == id && n != -1 then Splice(old(node.Bytes()), offset, bytes) else old(nodes[k].Bytes())
    {
      hide FsOk, Splice, SlotsOk, State;
      assert NodeOk(id);
      n := node.Write(offset, bytes, memory);
      if node.data != null { Repr := Repr + {node.data}; }
      assert forall k | 0 <= k < |nodes| && k != id :: nodes[k] != node && nodes[k].Bytes() == old(nodes[k].Bytes()) by {
        forall k | 0 <= k < |nodes| && k != id ensures nodes[k] != node && nodes[k].Bytes() == old(nodes[k].Bytes()) {
          assert old(NodeOk(k));
          assert if k < id then old(Apart(k, id)) else old(Apart(id, k));
        }
      }
      forall k | 0 <= k < |nodes| ensures NodeOk(k) {
        assert old(NodeOk(k));
      }
      forall j, k | 0 <= j < k < |nodes| ensures Apart(j, k) {
        assert old(Apart(j, k)) && old(NodeOk(j)) && old(NodeOk(k));
      }
    }

    /** The same, with the descriptors. */
    method WriteNode(ghost id: nat, node: RamNode, offset: nat, bytes: seq<Byte>, memory: bool) returns (n: int)
      requires Valid() && id < |nodes| && node == nodes[id] && offset + |bytes| < TWO_TO_32
      modifies this`Repr, node, node.data
      ensures Valid() && fresh(Repr - old(Repr)) && State().table == old(State().table)
      ensures id < |old(State().files)|
      ensures n == if bytes != [] && offset + |bytes| > |old(State().files[id].data)| && !memory then -1 else |bytes|
      ensures State().files == if n == -1 then old(State().files)
                               else old(State().files)[id := old(State().files[id]).(data := Splice(old(State().files[id].data), offset, bytes))]
    {
      hide FsOk, Splice, NodeOk, Apart;
      FsOkWrite(State(), id, Splice(State().files[id].data, offset, bytes));
      n := WriteInto(id, node, offset, bytes, memory);
      forall j | 0 <= j < slots.Length ensures SlotOk(j) && (slots[j] != null ==> slots[j].offset == old(slots[j].offset)) {
        assert old(SlotOk(j));
      }
      forall j, k | 0 <= j < k < slots.Length ensures SlotsApart(j, k) {
        assert old(SlotsApart(j, k));
      }
      assert Table() == old(Table());
      assert Files() == if n == -1 then old(Files()) else old(Files())[id := old(Files())[id].(data := Splice(old(Files())[id].data, offset, bytes))];
    }

    /** The arguments `vfs_read` and `vfs_write` are good for: the end of the access is below 2^32. */
    ghost predicate InRange(t: nat, fd: int, size: nat)
      reads this, Repr, slots
      requires Valid()
    {
      size < 0x8000_0000 && (IsOpen(State(), t, fd) ==> FileModel.At(State(), t, fd).offset + size < TWO_TO_32)
    }

    /** `vfs_write` for task t; `memory` is the answer of `kmalloc` for a longer buffer. */
    method Write(t: nat, fd: int, bytes: seq<Byte>, memory: bool) returns (n: int)
      requires Valid() && Task(State(), t) && InRange(t, fd, |bytes|)
      modifies Repr
      ensures Valid() && fresh(Repr - old(Repr))
      ensures (State(), n) == Written(old(State()), t, fd, bytes, memory)
    {
      hide FsOk, NodesOk, SlotsOk, Owned, Splice;
      OwnParts();
      if fd < 0 || fd >= MAX_FD_PER_TASK || slots[t * MAX_FD_PER_TASK + fd] == null {
        NotOpen(t, fd);
        return -1;
      }
      var i := t * MAX_FD_PER_TASK + fd;
      var file := slots[i];
      SlotFacts(t, fd);
      if file.node.isDir { return -1; }
      ghost var s := State();
      n := WriteNode(file.id, file.node, file.offset, bytes, memory);
      if n > 0 {
        Advance(i, n);
      } else {
        ghost var id := file.id;
        assert s.files[id := s.files[id]] == s.files;
        NothingWritten(s, t, fd) by { assert FsOk(s); }
      }
    }

    lemma NotOpen(t: nat, fd: int)
      requires Valid() && Task(State(), t)
      ensures IsOpen(State(), t, fd) <==> 0 <= fd < MAX_FD_PER_TASK && t * MAX_FD_PER_TASK + fd < slots.Length && slots[t * MAX_FD_PER_TASK + fd] != null
    {
    }

    lemma SlotFacts(t: nat, fd: int)
      requires Valid() && IsOpen(State(), t, fd)
      ensures var i := t * MAX_FD_PER_TASK + fd;
              && i < slots.Length && slots[i] != null && slots[i] in Repr
              && FileModel.At(State(), t, fd) == Descriptor(if slots[i].id == -1 then Root else Node(slots[i].id), slots[i].offset)
              && (if slots[i].id == -1 then slots[i].node.isDir
                  else 0 <= slots[i].id < |nodes| && slots[i].node == nodes[slots[i].id] && NodeOk(slots[i].id))
    {
      assert SlotOk(t * MAX_FD_PER_TASK + fd);
      if slots[t * MAX_FD_PER_TASK + fd].id != -1 { assert NodeOk(slots[t * MAX_FD_PER_TASK + fd].id); }
    }

    /** `vfs_read` for task t into buf from position start on */
    method Read(t: nat, fd: int, buf: array<Byte>, start: nat, size: nat) returns (n: int)
      requires Valid() && Task(State(), t) && InRange(t, fd, size)
      requires buf !in Repr && start + size <= buf.Length
      modifies buf, set f: OpenFile | f in Repr
      ensures Valid() && Repr == old(Repr)
      ensures var (s1, bytes) := ReadAt(old(State()), t, fd, size);
              State() == s1 && if bytes.None? then n == -1 && buf[..] == old(buf[..]) else n == |bytes.value| <= size && Filled(old(buf[..]), buf[..], start, bytes.value)
    {
      hide FsOk, NodesOk, SlotsOk, Owned, Slice;
      OwnParts();
      NotOpen(t, fd);
      if fd < 0 || fd >= MAX_FD_PER_TASK || slots[t * MAX_FD_PER_TASK + fd] == null { return -1; }
      var i := t * MAX_FD_PER_TASK + fd;
      var file := slots[i];
      SlotFacts(t, fd);
      if file.node.isDir { return -1; }
      n := file.node.Read(file.offset, buf, start, size);
      if n > 0 { Advance(i, n); }
    }

    /** `vfs_close` for task t */
    method Close(t: nat, fd: int) returns (r: int)
      requires Valid() && Task(State(), t)
      modifies slots
      ensures Valid() && Repr == old(Repr)
      ensures (State(), r) == Closed(old(State()), t, fd)
    {
      hide FsOk;
      OwnParts();
      NotOpen(t, fd);
      if fd < 0 || fd >= MAX_FD_PER_TASK || slots[t * MAX_FD_PER_TASK + fd] == null { return -1; }
      ghost var i := t * MAX_FD_PER_TASK + fd;
      FsOkClose(State(), i);
      slots[t * MAX_FD_PER_TASK + fd] := null;
      forall k | 0 <= k < |nodes| ensures NodeOk(k) {
        assert old(NodeOk(k));
      }
      forall j, k | 0 <= j < k < |nodes| ensures Apart(j, k) {
        assert old(Apart(j, k));
      }
      forall j | 0 <= j < slots.Length ensures SlotOk(j) {
        assert old(SlotOk(j));
      }
      forall j, k | 0 <= j < k < slots.Length ensures SlotsApart(j, k) {
        assert old(SlotsApart(j, k));
      }
      assert Files() == old(Files());
      assert Table() == old(Table())[i := None];
      return 0;
    }

    /** `vfs_readdir` and `ramfs_readdir` */
    method ReadDir(path: Name, index: nat, memory: bool) returns (r: int, name: Name)
      requires Valid() && NoNul(path)
      ensures if Listed(State(), path, index).None? then r == -1 else r == 0 && name == Listed(State(), path, index).value
    {
      hide Valid, State, Resolve, NodesOk, Owned;
      name := [];
      FileCount();
      ghost var target;
      var dir;
      dir, target := Lookup(path, memory);
      if dir == null { return -1, []; }
      if target.value.Node? { NodeFacts(target.value.id); }
      if !dir.isDir { return -1, []; }
      FirstChild();
      var child := dir.children;
      var i := 0;
      while child != null
        invariant i <= |nodes| && (i <= index || |nodes| == 0)
        invariant child == if i == |nodes| then null else nodes[|nodes| - 1 - i]
        decreases |nodes| - i
      {
        NodeFacts(|nodes| - 1 - i);
        if i == index {
          name := CopyName(child.name);
          ShortStored(child.name);
          return 0, name;
        }
        child := child.next;
        i := i + 1;
      }
      return -1, [];
    }

    lemma FirstChild()
      requires Valid()
      ensures root.children == if nodes == [] then null else nodes[|nodes| - 1]
    {
    }
  }

  /** buf after the bytes have been stored from position start on. */
  ghost predicate Filled(before: seq<Byte>, after: seq<Byte>, start: nat, bytes: seq<Byte>) {
    && |after| == |before|
    && forall j | 0 <= j < |before| :: after[j] == if start <= j < start + |bytes| then bytes[j - start] else before[j]
  }

  lemma FsOkClose(s: Fs, i: nat)
    requires FsOk(s) && i < |s.table|
    ensures FsOk(s.(table := s.table[i := None]))
  {
  }

  lemma NewNameBySlash(path: Name, last: int)
    requires -1 <= last < |path| && (last >= 0 ==> path[last] == SLASH)
    requires forall k | last < k < |path| :: path[k] != SLASH
    ensures NewName(path) == if last == 0 && |path| > 1 then Some(path[1..]) else None
  {
    if last > 0 { assert path[1..][last - 1] == SLASH; }
  }

  lemma MissingName(files: seq<File>, path: Name, m: Memory)
    requires NewName(path).Some? && ShortPath(path) && NoNul(path) && FileModel.Found(files, path, m.found).None? && m.Consistent()
    ensures GoodName(path[1..]) && NoNul(path[1..]) && (m.node && m.wrapper ==> Find(files, path[1..]) == -1)
  {
    NewNamePath(path);
    if m.wrapper { NotThere(files, path[1..]); }
  }

  lemma ShortStored(name: Name)
    requires GoodName(name)
    ensures Stored(name) == name
  {
  }

  lemma FsOkWrite(s: Fs, id: nat, data: seq<Byte>)
    requires FsOk(s) && id < |s.files|
    ensures FsOk(s.(files := s.files[id := s.files[id].(data := data)]))
  {
  }

  lemma FsOkCreate(s: Fs, name: Name)
    requires FsOk(s) && GoodName(name) && Find(s.files, name) == -1
    ensures FsOk(s.(files := s.files + [File(name, [])]))
  {
    var files := s.files + [File(name, [])];
    forall i, j | 0 <= i < j < |files| ensures files[i].name != files[j].name {
      assert files[i] == s.files[i];
    }
  }

  /** The lookup has got from the root to node id, and these components are left. */
  ghost predicate Walked(files: seq<File>, path: Name, id: int, rest: seq<Name>) {
    if id == -1 then Components(path, 0) == rest
    else 0 <= id < |files| && Components(path, 0) == [files[id].name] + rest && id == Find(files, files[id].name)
  }

  lemma WalkOn(files: seq<File>, path: Name, id: int, name: Name, rest: seq<Name>)
    requires Walked(files, path, id, [name] + rest)
    ensures id != -1 || Find(files, name) == -1 ==> Resolve(files, path) == None
    ensures id == -1 && Find(files, name) != -1 ==> Walked(files, path, Find(files, name), rest)
  {
    hide Components;
    if id != -1 {
      assert |Components(path, 0)| >= 2;
    } else {
      assert Components(path, 0)[0] == name;
    }
  }

  /** A lookup that has come to a child does not come to the root. */
  lemma NoRoot(files: seq<File>, path: Name, id: int, rest: seq<Name>)
    requires Walked(files, path, id, rest) && id != -1
    ensures Resolve(files, path) != Some(Root)
  {
    hide Components;
  }

  lemma WalkEnd(files: seq<File>, path: Name, id: int)
    requires Walked(files, path, id, [])
    ensures Resolve(files, path) == Some(if id == -1 then Root else Node(id))
  {
    hide Components;
  }
}
