/** The kernel heap as a value: memory words, the block tiling and the free list threaded
    through the free blocks, and the elementary changes that mm/kheap.c makes to them. */
module HeapState {
  import opened Words
  import opened PageRuns

  const HEADER_SIZE := 8
  const MIN_BLOCK_SIZE := 16
  const FREE := 4     // offset of the free flag
  const NEXT := 8     // offset of the next link of a free block
  const PREV := 12    // offset of the previous link of a free block

  /** A run of contiguous pages that the heap obtained at once. */
  datatype Span = Span(lo: int, hi: int)

  /** mem[a] is the 32-bit word at byte address a, for the multiples of 4 below the user region.
      starts (the block addresses), list (the free list in order) and spans are what the words
      stand for. */
  datatype Heap = Heap(mem: seq<Word>, head: Word, starts: set<int>, list: seq<int>, spans: seq<Span>)
  {
    /** The header and link words of block a lie in memory. */
    ghost predicate Has(a: int) {
      MANAGED_BASE <= a && a + MIN_BLOCK_SIZE <= |mem|
    }

    function End(a: int): int
      requires 0 <= a < |mem|
    {
      a + mem[a]
    }

    ghost predicate IsLive(a: int) {
      a in starts && 0 <= a && a + FREE < |mem| && mem[a + FREE] == 0
    }
  }

  // ----- the invariant -----

  ghost predicate SpanOk(h: Heap, s: Span) {
    && MANAGED_BASE <= s.lo < s.hi <= |h.mem|
    && s.lo % PAGE_SIZE == 0 && s.hi % PAGE_SIZE == 0
    && s.lo in h.starts
  }

  ghost predicate InSpan(spans: seq<Span>, a: int, e: int) {
    exists s :: s in spans && s.lo <= a && e <= s.hi
  }

  ghost predicate SpanEnd(spans: seq<Span>, e: int) {
    exists s :: s in spans && s.hi == e
  }

  ghost predicate BlockOk(h: Heap, a: int) {
    && h.Has(a) && a % 8 == 0 && h.mem[a] % 8 == 0 && MIN_BLOCK_SIZE <= h.mem[a]
    && h.End(a) <= |h.mem| && InSpan(h.spans, a, h.End(a))
    && (h.End(a) in h.starts || SpanEnd(h.spans, h.End(a)))
  }

  ghost predicate Precedes(h: Heap, a: int, b: int) {
    0 <= a < |h.mem| && h.End(a) <= b
  }

  /** The blocks tile the spans: they do not overlap, every block starts where its predecessor
      ends, and each span begins with a block and ends with one. */
  ghost predicate Tiled(h: Heap) {
    && |h.mem| == USER_MEM_START
    && (forall s | s in h.spans :: SpanOk(h, s))
    && (forall i, j | 0 <= i < j < |h.spans| :: h.spans[i].hi <= h.spans[j].lo || h.spans[j].hi <= h.spans[i].lo)
    && (forall a {:trigger BlockOk(h, a)} | a in h.starts :: BlockOk(h, a))
    && (forall a, b {:trigger Precedes(h, a, b)} | a in h.starts && b in h.starts && a < b :: Precedes(h, a, b))
  }

  function At(list: seq<int>, i: int): int {
    if 0 <= i < |list| then list[i] else 0
  }

  ghost predicate LinkOk(h: Heap, i: nat)
    requires i < |h.list|
  {
    var b := h.list[i];
    && b in h.starts && h.Has(b)
    && h.mem[b + NEXT] == At(h.list, i + 1) && h.mem[b + PREV] == At(h.list, i - 1)
  }

  /** The words at the NEXT and PREV offsets thread the free list in both directions. */
  ghost predicate Linked(h: Heap) {
    && h.head == At(h.list, 0)
    && (forall i {:trigger LinkOk(h, i)} | 0 <= i < |h.list| :: LinkOk(h, i))
    && (forall i, j | 0 <= i < j < |h.list| :: h.list[i] != h.list[j])
  }

  /** The free list holds exactly the free blocks; `pending` are blocks that are marked free but
      not in the list. */
  ghost predicate Flagged(h: Heap, pending: set<int>) {
    && (forall a | a in pending :: a !in h.list)
    && forall a | a in h.starts ::
         && h.Has(a)
         && h.mem[a + FREE] == if a in h.list || a in pending then 1 else 0
  }

  ghost predicate HeapOk(h: Heap, pending: set<int>) {
    Tiled(h) && Linked(h) && Flagged(h, pending) && pending <= h.starts
  }

  // ----- consequences -----

  /** Blocks are at least 16 bytes apart, so their four header and link words are distinct. */
  lemma Apart(h: Heap, a: int, b: int)
    requires Tiled(h) && a in h.starts && b in h.starts && a != b
    ensures a + MIN_BLOCK_SIZE <= b || b + MIN_BLOCK_SIZE <= a
  {
    assert BlockOk(h, a) && BlockOk(h, b);
    assert if a < b then Precedes(h, a, b) else Precedes(h, b, a);
  }

  // ----- the elementary changes -----

  /** `fl_insert` */
  ghost function Insert(h: Heap, b: Word): Heap
    requires h.Has(b) && (h.head == 0 || h.Has(h.head))
  {
    var m1 := h.mem[b + FREE := 1][b + NEXT := h.head][b + PREV := 0];
    var m2 := if h.head != 0 then m1[h.head + PREV := b] else m1;
    h.(mem := m2, head := b, list := [b] + h.list)
  }

  /** The neighbours' links and the list head changed to `next` and `prev`. */
  ghost function Relink(h: Heap, n: Word, p: Word, next: Word, prev: Word): Heap
    requires (p == 0 || h.Has(p)) && (n == 0 || h.Has(n))
  {
    var m1 := if p != 0 then h.mem[p + NEXT := next] else h.mem;
    var m2 := if n != 0 then m1[n + PREV := prev] else m1;
    h.(mem := m2, head := if p != 0 then h.head else next)
  }

  /** `fl_remove` of the i-th block of the list */
  ghost function Remove(h: Heap, i: nat): Heap
    requires i < |h.list| && LinkOk(h, i) && (i > 0 ==> LinkOk(h, i - 1)) && (i + 1 < |h.list| ==> LinkOk(h, i + 1))
  {
    var n, p := h.mem[h.list[i] + NEXT], h.mem[h.list[i] + PREV];
    Relink(h, n, p, n, p).(list := Without(h.list, i))
  }

  /** Changes outside the size words keep the tiling. */
  lemma SameBlocks(h: Heap, h': Heap)
    requires Tiled(h) && h'.starts == h.starts && h'.spans == h.spans && |h.mem| == |h'.mem|
    requires forall a | a in h.starts && 0 <= a < |h.mem| :: h'.mem[a] == h.mem[a]
    ensures Tiled(h')
  {
    forall a | a in h'.starts ensures BlockOk(h', a) {
      assert BlockOk(h, a);
    }
    forall s | s in h'.spans ensures SpanOk(h', s) {
      assert SpanOk(h, s);
    }
    forall a, b | a in h'.starts && b in h'.starts && a < b ensures Precedes(h', a, b) {
      assert Precedes(h, a, b);
    }
  }

  // ----- fl_insert -----

  lemma InsertOk(h: Heap, b: Word, pending: set<int>)
    requires HeapOk(h, pending) && b in pending
    ensures h.Has(b) && (h.head == 0 || h.Has(h.head)) && HeapOk(Insert(h, b), pending - {b})
  {
    assert BlockOk(h, b);
    if h.head != 0 { assert LinkOk(h, 0); }
    var h' := Insert(h, b);
    assert Tiled(h') by {
      forall a | a in h.starts && 0 <= a < |h.mem| ensures h'.mem[a] == h.mem[a] {
        if a != b { Apart(h, a, b); }
        if h.head != 0 && a != h.head { Apart(h, a, h.head); }
      }
      SameBlocks(h, h');
    }
    assert Linked(h') by { InsertLinked(h, b, pending); }
    assert Flagged(h', pending - {b}) by { InsertFlagged(h, b, pending); }
  }

  lemma InsertLinked(h: Heap, b: Word, pending: set<int>)
    requires HeapOk(h, pending) && b in pending && h.Has(b) && (h.head == 0 || (h.Has(h.head) && h.head in h.starts))
    ensures Linked(Insert(h, b))
  {
    hide Tiled, BlockOk;
    var h' := Insert(h, b);
    if h.list != [] {
      assert LinkOk(h, 0) && h.list[0] in h.list;
      Apart(h, h.head, b);
    }
    forall i | 0 <= i < |h'.list| ensures LinkOk(h', i) {
      if i > 0 {
        assert LinkOk(h, i - 1);
        assert h.list[i - 1] in h.list;
        Apart(h, h.list[i - 1], b);
        assert h.head == h.list[0];
        if i > 1 { Apart(h, h.list[i - 1], h.head); }
      }
    }
  }

  lemma InsertFlagged(h: Heap, b: Word, pending: set<int>)
    requires HeapOk(h, pending) && b in pending && h.Has(b) && (h.head == 0 || (h.Has(h.head) && h.head in h.starts))
    ensures Flagged(Insert(h, b), pending - {b})
  {
    hide Tiled, BlockOk, Linked;
    var h' := Insert(h, b);
    forall a | a in h.starts
      ensures h'.Has(a) && h'.mem[a + FREE] == if a in h'.list || a in pending - {b} then 1 else 0
    {
      if a != b { Apart(h, a, b); }
      if h.head != 0 && a != h.head { Apart(h, a, h.head); }
    }
  }

  // ----- fl_remove -----

  /** The free-list neighbours of the i-th block. */
  lemma Neighbours(h: Heap, i: nat)
    requires Linked(h) && i < |h.list|
    ensures LinkOk(h, i) && (i > 0 ==> LinkOk(h, i - 1)) && (i + 1 < |h.list| ==> LinkOk(h, i + 1))
    ensures h.mem[h.list[i] + NEXT] == At(h.list, i + 1) && h.mem[h.list[i] + PREV] == At(h.list, i - 1)
    ensures At(h.list, i + 1) != 0 <==> i + 1 < |h.list|
    ensures At(h.list, i - 1) != 0 <==> i > 0
    ensures i > 0 ==> h.Has(At(h.list, i - 1)) && At(h.list, i - 1) in h.starts
    ensures i + 1 < |h.list| ==> h.Has(At(h.list, i + 1)) && At(h.list, i + 1) in h.starts
  {
  }

  lemma RelinkWord(h: Heap, n: Word, p: Word, next: Word, prev: Word, a: int, d: int)
    requires Tiled(h) && a in h.starts && (d == 0 || d == FREE)
    requires (p == 0 || (h.Has(p) && p in h.starts)) && (n == 0 || (h.Has(n) && n in h.starts))
    ensures h.Has(a) && Relink(h, n, p, next, prev).mem[a + d] == h.mem[a + d]
  {
    assert BlockOk(h, a);
    if p != 0 && a != p { Apart(h, a, p); }
    if n != 0 && a != n { Apart(h, a, n); }
  }

  lemma RelinkLink(h: Heap, n: Word, p: Word, next: Word, prev: Word, a: int)
    requires Tiled(h) && a in h.starts
    requires (p == 0 || (h.Has(p) && p in h.starts)) && (n == 0 || (h.Has(n) && n in h.starts))
    ensures var h' := Relink(h, n, p, next, prev);
            && h'.starts == h.starts && h'.list == h.list && h'.spans == h.spans
    ensures var m := Relink(h, n, p, next, prev).mem;
            && h.Has(a) && |m| == |h.mem|
            && m[a + NEXT] == (if a == p then next else h.mem[a + NEXT])
            && m[a + PREV] == (if a == n then prev else h.mem[a + PREV])
  {
    assert BlockOk(h, a);
    if p != 0 && a != p { Apart(h, a, p); }
    if n != 0 && a != n { Apart(h, a, n); }
  }

  /** Relinking to blocks of the heap changes no size and no flag. */
  lemma RelinkKeeps(h: Heap, n: Word, p: Word, next: Word, prev: Word, pending: set<int>)
    requires Tiled(h) && Flagged(h, pending)
    requires (p == 0 || (h.Has(p) && p in h.starts)) && (n == 0 || (h.Has(n) && n in h.starts))
    ensures Tiled(Relink(h, n, p, next, prev)) && Flagged(Relink(h, n, p, next, prev), pending)
  {
    var h' := Relink(h, n, p, next, prev);
    assert Tiled(h') by {
      forall a | a in h.starts && 0 <= a < |h.mem| ensures h'.mem[a] == h.mem[a] {
        RelinkWord(h, n, p, next, prev, a, 0);
      }
      SameBlocks(h, h');
    }
    forall a | a in h.starts
      ensures h'.Has(a) && h'.mem[a + FREE] == if a in h'.list || a in pending then 1 else 0
    {
      RelinkWord(h, n, p, next, prev, a, FREE);
    }
  }

  lemma RemoveOk(h: Heap, i: nat, pending: set<int>)
    requires HeapOk(h, pending) && i < |h.list|
    ensures LinkOk(h, i) && (i > 0 ==> LinkOk(h, i - 1)) && (i + 1 < |h.list| ==> LinkOk(h, i + 1))
    ensures HeapOk(Remove(h, i), pending + {h.list[i]})
  {
    Neighbours(h, i);
    var h' := Remove(h, i);
    var n, p := h.mem[h.list[i] + NEXT], h.mem[h.list[i] + PREV];
    assert Linked(h') by { RemoveLinked(h, i); }
    RelinkKeeps(h, n, p, n, p, pending);
    SameBlocks(Relink(h, n, p, n, p), h');
    assert Flagged(h', pending + {h.list[i]}) by { RemoveFlagged(h, Relink(h, n, p, n, p), i, pending); }
  }

  lemma RemoveFlagged(h: Heap, h1: Heap, i: nat, pending: set<int>)
    requires HeapOk(h, pending) && i < |h.list|
    requires Flagged(h1, pending) && h1.starts == h.starts && h1.list == h.list
    ensures Flagged(h1.(list := Without(h.list, i)), pending + {h.list[i]})
  {
    var list' := Without(h.list, i);
    forall a ensures a in list' <==> a in h.list && a != h.list[i] {
      if a in h.list {
        var k :| 0 <= k < |h.list| && h.list[k] == a;
        assert k < i ==> list'[k] == a;
        assert k > i ==> list'[k - 1] == a;
      }
      if a in list' {
        var k :| 0 <= k < |list'| && list'[k] == a;
        assert if k < i then h.list[k] == a else h.list[k + 1] == a;
      }
    }
  }

  lemma RemoveLinked(h: Heap, i: nat)
    requires Tiled(h) && Linked(h) && i < |h.list|
    requires LinkOk(h, i) && (i > 0 ==> LinkOk(h, i - 1)) && (i + 1 < |h.list| ==> LinkOk(h, i + 1))
    ensures Linked(Remove(h, i))
  {
    hide Tiled, BlockOk;
    Neighbours(h, i);
    var h' := Remove(h, i);
    forall k | 0 <= k < |h'.list| ensures LinkOk(h', k) {
      RemoveLink(h, i, k);
    }
  }

  function Without(list: seq<int>, i: nat): seq<int>
    requires i < |list|
  {
    list[..i] + list[i + 1..]
  }

  lemma WithoutAt(list: seq<int>, i: nat, k: nat)
    requires i < |list| && k + 1 < |list|
    ensures var o := if k < i then k else k + 1;
            && Without(list, i)[k] == list[o]
            && At(Without(list, i), k + 1) == (if o == i - 1 then At(list, i + 1) else At(list, o + 1))
            && At(Without(list, i), k - 1) == (if o == i + 1 then At(list, i - 1) else At(list, o - 1))
  {
  }

  /** A position of the free list is determined by its block. */
  lemma Position(h: Heap, o: nat, q: int)
    requires Linked(h) && o < |h.list|
    ensures h.list[o] == At(h.list, q) <==> o == q
  {
    assert LinkOk(h, o);
  }

  lemma RemoveLink(h: Heap, i: nat, k: nat)
    requires Tiled(h) && Linked(h) && i < |h.list| && k + 1 < |h.list|
    requires LinkOk(h, i) && (i > 0 ==> LinkOk(h, i - 1)) && (i + 1 < |h.list| ==> LinkOk(h, i + 1))
    ensures LinkOk(Remove(h, i), k)
  {
    hide Tiled, BlockOk, Relink, Linked, At, Without;
    Neighbours(h, i);
    var o := if k < i then k else k + 1;
    Neighbours(h, o);
    var n, p := h.mem[h.list[i] + NEXT], h.mem[h.list[i] + PREV];
    RelinkLink(h, n, p, n, p, h.list[o]);
    WithoutAt(h.list, i, k);
    Position(h, o, i - 1);
    Position(h, o, i + 1);
  }

  // ----- the free flag -----

  ghost function SetFlag(h: Heap, b: int, flag: Word): Heap
    requires h.Has(b)
  {
    h.(mem := h.mem[b + FREE := flag])
  }

  /** `b->free = 1` on a live block, `b->free = 0` on a free block outside the list. */
  lemma SetFlagOk(h: Heap, b: int, flag: Word, pending: set<int>)
    requires HeapOk(h, pending) && b in h.starts && b !in h.list && (flag == 0 || flag == 1)
    ensures h.Has(b)
    ensures HeapOk(SetFlag(h, b, flag), if flag == 1 then pending + {b} else pending - {b})
  {
    hide BlockOk;
    var h' := SetFlag(h, b, flag);
    forall a | a in h.starts && a != b ensures a + MIN_BLOCK_SIZE <= b || b + MIN_BLOCK_SIZE <= a {
      Apart(h, a, b);
    }
    assert Tiled(h') by { SameBlocks(h, h'); }
    assert Linked(h') by {
      forall i | 0 <= i < |h.list| ensures LinkOk(h', i) {
        assert LinkOk(h, i);
      }
    }
  }

  // ----- merging with the following block -----

  /** `a->size += c->size` for the block c after a, which must not be in the list. */
  ghost function Absorb(h: Heap, a: int, c: int): Heap
    requires h.Has(a) && h.Has(c)
  {
    h.(mem := h.mem[a := Wrap(h.End(a) - a + h.mem[c])], starts := h.starts - {c})
  }

  lemma SpansMeet(h: Heap, s: Span, t: Span, x: int)
    requires Tiled(h) && s in h.spans && t in h.spans && s.lo <= x < s.hi && t.lo <= x < t.hi
    ensures s == t
  {
    var i :| 0 <= i < |h.spans| && h.spans[i] == s;
    var j :| 0 <= j < |h.spans| && h.spans[j] == t;
  }

  /** A block inside a page belongs to the same span as its predecessor. */
  lemma SameSpan(h: Heap, a: int, c: int) returns (s: Span)
    requires Tiled(h) && BlockOk(h, a) && BlockOk(h, c) && c == h.End(a) && c % PAGE_SIZE != 0
    ensures s in h.spans && s.lo <= a && h.End(c) <= s.hi <= |h.mem|
  {
    s :| s in h.spans && s.lo <= a && h.End(a) <= s.hi;
    var t :| t in h.spans && t.lo <= c && h.End(c) <= t.hi;
    assert SpanOk(h, s) && SpanOk(h, t);
    SpansMeet(h, s, t, c);
  }

  lemma AbsorbSelf(h: Heap, a: int, c: int)
    requires Tiled(h) && a in h.starts && c in h.starts && h.Has(a) && h.Has(c)
    requires c == h.End(a) && c % PAGE_SIZE != 0
    ensures BlockOk(Absorb(h, a, c), a) && Absorb(h, a, c).End(a) == h.End(c)
  {
    assert BlockOk(h, a) && BlockOk(h, c);
    hide Tiled;
    var s := SameSpan(h, a, c);
  }

  lemma AbsorbOther(h: Heap, a: int, c: int, x: int)
    requires Tiled(h) && a in h.starts && c in h.starts && h.Has(a) && h.Has(c)
    requires c == h.End(a) && c % PAGE_SIZE != 0 && x in h.starts && x != c && x != a
    ensures BlockOk(Absorb(h, a, c), x)
  {
    assert BlockOk(h, x) && BlockOk(h, a);
    assert if x < a then Precedes(h, x, a) else Precedes(h, a, x);
  }

  lemma AbsorbPrecedes(h: Heap, a: int, c: int, x: int, y: int)
    requires Tiled(h) && a in h.starts && c in h.starts && h.Has(a) && h.Has(c)
    requires c == h.End(a) && c % PAGE_SIZE != 0 && x in h.starts - {c} && y in h.starts - {c} && x < y
    ensures Precedes(Absorb(h, a, c), x, y)
  {
    AbsorbSelf(h, a, c);
    assert Precedes(h, x, y);
    if x == a {
      assert BlockOk(h, y);
      assert if c < y then Precedes(h, c, y) else Precedes(h, y, c);
    }
  }

  lemma AbsorbTiled(h: Heap, a: int, c: int)
    requires Tiled(h) && a in h.starts && c in h.starts && h.Has(a) && h.Has(c)
    requires c == h.End(a) && c % PAGE_SIZE != 0
    ensures Tiled(Absorb(h, a, c)) && Absorb(h, a, c).End(a) == h.End(c)
  {
    hide BlockOk, Precedes;
    var h' := Absorb(h, a, c);
    AbsorbSelf(h, a, c);
    forall x | x in h'.starts ensures BlockOk(h', x) {
      if x != a { AbsorbOther(h, a, c, x); }
    }
    forall s | s in h'.spans ensures SpanOk(h', s) {
      assert SpanOk(h, s);
    }
    forall x, y | x in h'.starts && y in h'.starts && x < y ensures Precedes(h', x, y) {
      AbsorbPrecedes(h, a, c, x, y);
    }
  }

  lemma AbsorbOk(h: Heap, a: int, c: int, pending: set<int>)
    requires HeapOk(h, pending) && a in h.starts && c in pending && h.Has(a)
    requires c == h.End(a) && c % PAGE_SIZE != 0
    ensures h.Has(c) && HeapOk(Absorb(h, a, c), pending - {c})
    ensures Absorb(h, a, c).End(a) == h.End(c)
  {
    assert BlockOk(h, c);
    var h' := Absorb(h, a, c);
    AbsorbTiled(h, a, c);
    forall x | x in h.starts && x != a ensures x + MIN_BLOCK_SIZE <= a || a + MIN_BLOCK_SIZE <= x {
      Apart(h, x, a);
    }
    assert Linked(h') by {
      forall i | 0 <= i < |h.list| ensures LinkOk(h', i) {
        assert LinkOk(h, i) && h.list[i] in h.list;
      }
    }
  }

  // ----- splitting -----

  /** The i-th free block can be cut after `needed` bytes. */
  ghost predicate CanSplit(h: Heap, i: nat, needed: Word) {
    && i < |h.list| && h.Has(h.list[i]) && h.End(h.list[i]) <= |h.mem| == USER_MEM_START
    && needed % 8 == 0 && MIN_BLOCK_SIZE <= needed && needed + MIN_BLOCK_SIZE <= h.mem[h.list[i]]
    && LinkOk(h, i) && (i > 0 ==> LinkOk(h, i - 1)) && (i + 1 < |h.list| ==> LinkOk(h, i + 1))
  }

  /** The stores of a split: the rest's four words, the neighbours' links, the block's size. */
  ghost function Cut(m: seq<Word>, b: Word, r: Word, n: Word, p: Word): (m': seq<Word>)
    requires b + MIN_BLOCK_SIZE <= r && r + MIN_BLOCK_SIZE <= |m| && r <= b + m[b]
    requires p + MIN_BLOCK_SIZE <= |m| && n + MIN_BLOCK_SIZE <= |m|
    ensures |m'| == |m|
    ensures forall k | 0 <= k < |m| ::
              m'[k] == if k == b then r - b
                       else if n != 0 && k == n + PREV then r
                       else if p != 0 && k == p + NEXT then r
                       else if k == r + PREV then p
                       else if k == r + NEXT then n
                       else if k == r + FREE then 1
                       else if k == r then b + m[b] - r
                       else m[k]
  {
    var m0 := m[r := b + m[b] - r][r + FREE := 1][r + NEXT := n][r + PREV := p];
    var m1 := if p != 0 then m0[p + NEXT := r] else m0;
    var m2 := if n != 0 then m1[n + PREV := r] else m1;
    m2[b := r - b]
  }

  /** The split of `kmalloc`: the rest takes the place of the block in the free list. */
  ghost function Split(h: Heap, i: nat, needed: Word): Heap
    requires CanSplit(h, i, needed)
  {
    var b := h.list[i];
    var r := b + needed;
    var n, p := h.mem[b + NEXT], h.mem[b + PREV];
    Heap(Cut(h.mem, b, r, n, p), if p != 0 then h.head else r, h.starts + {r}, h.list[i := r], h.spans)
  }

  /** A word inside block b, past its header, is no header or link word of another block. */
  lemma InsideApart(h: Heap, b: int, k: int, a: int)
    requires Tiled(h) && a in h.starts && b in h.starts && a != b && h.Has(b) && b <= k < h.End(b)
    ensures k < a || a + MIN_BLOCK_SIZE <= k
  {
    assert BlockOk(h, a);
    assert if a < b then Precedes(h, a, b) else Precedes(h, b, a);
  }

  /** Word d of block a against the words that a split of block i writes. */
  lemma SplitApart(h: Heap, i: nat, needed: Word, a: int, d: int)
    requires HeapOk(h, {}) && CanSplit(h, i, needed) && a in h.starts && 0 <= d < MIN_BLOCK_SIZE
    ensures var b := h.list[i];
            && h.Has(a) && b in h.starts
            && (a + d < b + needed || b + needed + MIN_BLOCK_SIZE <= a + d)
            && (a + d == b <==> a == b && d == 0)
  {
    var b := h.list[i];
    assert BlockOk(h, a);
    if a != b {
      Apart(h, a, b);
      InsideApart(h, b, b + needed, a);
      InsideApart(h, b, b + needed + MIN_BLOCK_SIZE - 1, a);
    }
  }

  /** A link word of block a against another block's. */
  lemma LinkApart(h: Heap, a: int, d: int, p: int, e: int)
    requires Tiled(h) && a in h.starts && p in h.starts && 0 <= d < MIN_BLOCK_SIZE && 0 <= e < MIN_BLOCK_SIZE
    ensures a + d == p + e <==> a == p && d == e
  {
    if a != p { Apart(h, a, p); }
  }

  /** The words of the blocks after a split. */
  lemma SplitWords(h: Heap, i: nat, needed: Word, a: int, d: int)
    requires HeapOk(h, {}) && CanSplit(h, i, needed) && a in h.starts && d in {0, FREE, NEXT, PREV}
    ensures h.Has(a)
    ensures var b, r := h.list[i], h.list[i] + needed;
            Split(h, i, needed).mem[a + d] ==
              if a == b && d == 0 then needed
              else if a == h.mem[b + PREV] && d == NEXT then r
              else if a == h.mem[b + NEXT] && d == PREV then r
              else h.mem[a + d]
  {
    hide Tiled, Flagged, BlockOk, Linked, At, Cut;
    var b := h.list[i];
    SplitApart(h, i, needed, a, d);
    Neighbours(h, i);
    var n, p := h.mem[b + NEXT], h.mem[b + PREV];
    if p != 0 { LinkApart(h, a, d, p, NEXT); }
    if n != 0 { LinkApart(h, a, d, n, PREV); }
  }

  /** The words of the rest after a split. */
  lemma SplitRest(h: Heap, i: nat, needed: Word)
    requires HeapOk(h, {}) && CanSplit(h, i, needed)
    ensures var m, b, r := Split(h, i, needed).mem, h.list[i], h.list[i] + needed;
            && r !in h.starts && m[r] == h.mem[b] - needed && m[r + FREE] == 1
            && m[r + NEXT] == h.mem[b + NEXT] && m[r + PREV] == h.mem[b + PREV]
  {
    hide Tiled, Flagged, BlockOk, Linked, At, Cut;
    var b := h.list[i];
    SplitApart(h, i, needed, b, 0);
    Neighbours(h, i);
    var n, p := h.mem[b + NEXT], h.mem[b + PREV];
    if p != 0 { SplitApart(h, i, needed, p, NEXT); }
    if n != 0 { SplitApart(h, i, needed, n, PREV); }
    if b + needed in h.starts { SplitApart(h, i, needed, b + needed, 0); }
  }

  lemma SplitBlock(h: Heap, i: nat, needed: Word, x: int)
    requires HeapOk(h, {}) && CanSplit(h, i, needed) && x in Split(h, i, needed).starts
    ensures BlockOk(Split(h, i, needed), x)
  {
    hide Tiled, Flagged, Linked, At, Cut, LinkOk;
    var b := h.list[i];
    SplitRest(h, i, needed);
    assert b in h.starts by { StartOf(h, i); }
    TiledBlock(h, b);
    if x in h.starts {
      TiledBlock(h, x);
      SplitWords(h, i, needed, x, 0);
    }
  }

  lemma StartOf(h: Heap, i: nat)
    requires Linked(h) && i < |h.list|
    ensures h.list[i] in h.starts
  {
    assert LinkOk(h, i);
  }

  lemma TiledBlock(h: Heap, x: int)
    requires Tiled(h) && x in h.starts
    ensures BlockOk(h, x) && |h.mem| == USER_MEM_START
  {
  }

  lemma TiledPrecedes(h: Heap, x: int, y: int)
    requires Tiled(h) && x in h.starts && y in h.starts && x < y
    ensures Precedes(h, x, y)
  {
  }

  lemma SplitPrecedes(h: Heap, i: nat, needed: Word, x: int, y: int)
    requires HeapOk(h, {}) && CanSplit(h, i, needed) && x < y
    requires x in Split(h, i, needed).starts && y in Split(h, i, needed).starts
    ensures Precedes(Split(h, i, needed), x, y)
  {
    var b := h.list[i];
    var r := b + needed;
    hide Tiled, Flagged, Linked, At, Cut;
    SplitRest(h, i, needed);
    TiledBlock(h, b);
    if x in h.starts { SplitWords(h, i, needed, x, 0); TiledBlock(h, x); }
    if y in h.starts { TiledBlock(h, y); }
    if x in h.starts && y in h.starts { TiledPrecedes(h, x, y); }
    if x in h.starts && x != b { if x < b { TiledPrecedes(h, x, b); } else { TiledPrecedes(h, b, x); } }
    if y in h.starts && y != b { if y < b { TiledPrecedes(h, y, b); } else { TiledPrecedes(h, b, y); } }
  }

  lemma SplitTiled(h: Heap, i: nat, needed: Word)
    requires HeapOk(h, {}) && CanSplit(h, i, needed)
    ensures Tiled(Split(h, i, needed))
  {
    hide BlockOk, Precedes, Cut, Linked, Flagged;
    var h' := Split(h, i, needed);
    forall x | x in h'.starts ensures BlockOk(h', x) {
      SplitBlock(h, i, needed, x);
    }
    forall s | s in h'.spans ensures SpanOk(h', s) {
      assert SpanOk(h, s);
    }
    forall x, y | x in h'.starts && y in h'.starts && x < y ensures Precedes(h', x, y) {
      SplitPrecedes(h, i, needed, x, y);
    }
  }

  lemma ReplacedAt(list: seq<int>, i: nat, r: int, k: int)
    requires i < |list|
    ensures At(list[i := r], k) == if k == i then r else At(list, k)
  {
  }

  lemma SplitLinkRest(h: Heap, i: nat, needed: Word)
    requires HeapOk(h, {}) && CanSplit(h, i, needed)
    ensures LinkOk(Split(h, i, needed), i)
  {
    hide HeapOk, Tiled, Flagged, BlockOk, Linked, At, Cut;
    assert Linked(h) by { Parts(h, {}); }
    Neighbours(h, i);
    ReplacedAt(h.list, i, h.list[i] + needed, i + 1);
    ReplacedAt(h.list, i, h.list[i] + needed, i - 1);
    SplitRest(h, i, needed);
  }

  lemma SplitShape(h: Heap, i: nat, needed: Word)
    requires CanSplit(h, i, needed)
    ensures var h' := Split(h, i, needed);
            h'.list == h.list[i := h.list[i] + needed] && h'.starts == h.starts + {h.list[i] + needed} && |h'.mem| == |h.mem|
  {
  }

  lemma SplitLinkOther(h: Heap, i: nat, needed: Word, k: nat)
    requires HeapOk(h, {}) && CanSplit(h, i, needed) && k < |h.list| && k != i
    ensures LinkOk(Split(h, i, needed), k)
  {
    hide HeapOk, Tiled, Flagged, Linked, At, Cut, Split, CanSplit;
    Parts(h, {});
    StartOf(h, k);
    TiledBlock(h, h.list[k]);
    SplitShape(h, i, needed);
    SplitNext(h, i, needed, k);
    SplitPrev(h, i, needed, k);
  }

  lemma SplitNext(h: Heap, i: nat, needed: Word, k: nat)
    requires HeapOk(h, {}) && CanSplit(h, i, needed) && k < |h.list| && k != i && h.list[k] in h.starts
    ensures h.Has(h.list[k])
    ensures Split(h, i, needed).mem[h.list[k] + NEXT] == At(h.list[i := h.list[i] + needed], k + 1)
  {
    hide HeapOk, Tiled, Flagged, BlockOk, Linked, At, Split, LinkOk;
    Parts(h, {});
    SplitWords(h, i, needed, h.list[k], NEXT);
    Neighbours(h, i);
    Neighbours(h, k);
    ReplacedAt(h.list, i, h.list[i] + needed, k + 1);
    Position(h, k, i - 1);
  }

  lemma SplitPrev(h: Heap, i: nat, needed: Word, k: nat)
    requires HeapOk(h, {}) && CanSplit(h, i, needed) && k < |h.list| && k != i && h.list[k] in h.starts
    ensures h.Has(h.list[k])
    ensures Split(h, i, needed).mem[h.list[k] + PREV] == At(h.list[i := h.list[i] + needed], k - 1)
  {
    hide HeapOk, Tiled, Flagged, BlockOk, Linked, At, Split, LinkOk;
    Parts(h, {});
    SplitWords(h, i, needed, h.list[k], PREV);
    Neighbours(h, i);
    Neighbours(h, k);
    ReplacedAt(h.list, i, h.list[i] + needed, k - 1);
    Position(h, k, i + 1);
  }

  lemma Parts(h: Heap, pending: set<int>)
    requires HeapOk(h, pending)
    ensures Tiled(h) && Linked(h) && Flagged(h, pending)
  {
  }

  lemma SplitFlagged(h: Heap, i: nat, needed: Word)
    requires HeapOk(h, {}) && CanSplit(h, i, needed)
    ensures Flagged(Split(h, i, needed), {h.list[i]})
  {
    hide Tiled, BlockOk, Cut, At;
    var h' := Split(h, i, needed);
    var b, r := h.list[i], h.list[i] + needed;
    SplitRest(h, i, needed);
    assert b !in h'.list;
    forall a | a in h'.starts
      ensures h'.Has(a) && h'.mem[a + FREE] == if a in h'.list || a in {b} then 1 else 0
    {
      if a != r {
        SplitWords(h, i, needed, a, FREE);
        if a != b {
          if a in h.list {
            var k :| 0 <= k < |h.list| && h.list[k] == a;
            assert h'.list[k] == a;
          }
        }
      } else {
        assert h'.list[i] == r;
      }
    }
  }

  lemma SplitOk(h: Heap, i: nat, needed: Word)
    requires HeapOk(h, {}) && CanSplit(h, i, needed)
    ensures HeapOk(Split(h, i, needed), {h.list[i]})
  {
    var h' := Split(h, i, needed);
    SplitTiled(h, i, needed);
    SplitFlagged(h, i, needed);
    hide Tiled, Flagged, BlockOk, Cut;
    Neighbours(h, i);
    SplitRest(h, i, needed);
    forall k | 0 <= k < |h'.list| ensures LinkOk(h', k) {
      if k == i { SplitLinkRest(h, i, needed); } else { SplitLinkOther(h, i, needed, k); }
    }
    forall x, y | 0 <= x < y < |h'.list| ensures h'.list[x] != h'.list[y] {
      assert LinkOk(h, x) && LinkOk(h, y);
    }
  }

  // ----- growing -----

  /** A run of pages that the heap does not have yet. */
  ghost predicate NewSpan(h: Heap, s: Span) {
    && MANAGED_BASE <= s.lo < s.hi <= |h.mem| == USER_MEM_START
    && s.lo % PAGE_SIZE == 0 && s.hi % PAGE_SIZE == 0
    && forall t | t in h.spans :: s.hi <= t.lo || t.hi <= s.lo
  }

  /** `block->size = pages * PAGE_SIZE` on a new span */
  ghost function AddSpan(h: Heap, s: Span): Heap
    requires NewSpan(h, s)
  {
    h.(mem := h.mem[s.lo := s.hi - s.lo], starts := h.starts + {s.lo}, spans := h.spans + [s])
  }

  /** A new span becomes one free block at the head of the list. */
  ghost function Grow(h: Heap, s: Span): Heap
    requires NewSpan(h, s) && (h.head == 0 || h.Has(h.head))
  {
    Insert(AddSpan(h, s), s.lo)
  }

  lemma OutsideNewSpan(h: Heap, s: Span, a: int)
    requires Tiled(h) && NewSpan(h, s) && a in h.starts
    ensures BlockOk(h, a) && (h.End(a) <= s.lo || s.hi <= a)
  {
    assert BlockOk(h, a);
    var t :| t in h.spans && t.lo <= a && h.End(a) <= t.hi;
  }

  lemma PageIsAligned(x: int, y: int)
    requires x % PAGE_SIZE == 0 && y % PAGE_SIZE == 0
    ensures x % 8 == 0 && (x - y) % 8 == 0 && (x > y ==> x - y >= PAGE_SIZE)
  {
  }

  lemma AddSpanBlock(h: Heap, s: Span, flag: Word, a: int)
    requires Tiled(h) && NewSpan(h, s) && a in h.starts + {s.lo}
    ensures BlockOk(SetFlag(AddSpan(h, s), s.lo, flag), a)
  {
    var spans' := h.spans + [s];
    assert s in spans';
    if a in h.starts {
      OutsideNewSpan(h, s, a);
      hide Tiled, NewSpan;
      var t :| t in h.spans && t.lo <= a && h.End(a) <= t.hi;
      assert t in spans';
      if h.End(a) !in h.starts {
        var u :| u in h.spans && u.hi == h.End(a);
        assert u in spans';
      }
    } else {
      hide Tiled;
      PageIsAligned(s.lo, 0);
      PageIsAligned(s.hi, s.lo);
    }
  }

  lemma AddSpanTiled(h: Heap, s: Span, flag: Word)
    requires Tiled(h) && NewSpan(h, s)
    ensures Tiled(SetFlag(AddSpan(h, s), s.lo, flag))
  {
    hide BlockOk, Precedes;
    var h' := SetFlag(AddSpan(h, s), s.lo, flag);
    forall a | a in h'.starts ensures BlockOk(h', a) {
      AddSpanBlock(h, s, flag, a);
    }
    forall t | t in h'.spans ensures SpanOk(h', t) {
      assert t in h.spans ==> SpanOk(h, t);
    }
    forall x, y | x in h'.starts && y in h'.starts && x < y ensures Precedes(h', x, y) {
      AddSpanPrecedes(h, s, flag, x, y);
    }
  }

  lemma AddSpanPrecedes(h: Heap, s: Span, flag: Word, x: int, y: int)
    requires Tiled(h) && NewSpan(h, s) && x in h.starts + {s.lo} && y in h.starts + {s.lo} && x < y
    ensures Precedes(SetFlag(AddSpan(h, s), s.lo, flag), x, y)
  {
    if x in h.starts { OutsideNewSpan(h, s, x); }
    if y in h.starts { OutsideNewSpan(h, s, y); }
    if x in h.starts && y in h.starts { TiledPrecedes(h, x, y); }
  }

  lemma GrowOk(h: Heap, s: Span)
    requires HeapOk(h, {}) && NewSpan(h, s)
    ensures (h.head == 0 || h.Has(h.head)) && HeapOk(Grow(h, s), {})
    ensures s.lo !in h.starts
  {
    if h.head != 0 { assert LinkOk(h, 0); }
    if s.lo in h.starts { OutsideNewSpan(h, s, s.lo); }
    var h1 := SetFlag(AddSpan(h, s), s.lo, 1);
    AddSpanOk(h, s);
    hide Tiled, Linked, Flagged, BlockOk;
    InsertOk(h1, s.lo, {s.lo});
    assert {s.lo} - {s.lo} == {};
    assert Insert(h1, s.lo).mem == Grow(h, s).mem;
  }

  lemma AddSpanOk(h: Heap, s: Span)
    requires HeapOk(h, {}) && NewSpan(h, s)
    ensures HeapOk(SetFlag(AddSpan(h, s), s.lo, 1), {s.lo})
  {
    var h1 := SetFlag(AddSpan(h, s), s.lo, 1);
    AddSpanTiled(h, s, 1);
    forall a | a in h.starts ensures a + MIN_BLOCK_SIZE <= s.lo || s.hi <= a { OutsideNewSpan(h, s, a); }
    hide Tiled, BlockOk;
    forall i | 0 <= i < |h.list| ensures LinkOk(h1, i) && h.list[i] != s.lo { assert LinkOk(h, i); }
  }

  // ----- allocation -----

  /** The position of the first free block of at least `needed` bytes, from position i on. */
  ghost function FirstFit(h: Heap, needed: Word, i: nat): (r: nat)
    requires Linked(h) && i <= |h.list|
    ensures i <= r <= |h.list|
    ensures r < |h.list| ==> h.Has(h.list[r]) && needed <= h.mem[h.list[r]]
    ensures forall k | i <= k < r :: h.Has(h.list[k]) && h.mem[h.list[k]] < needed
    decreases |h.list| - i
  {
    if i == |h.list| then i
    else
      assert LinkOk(h, i);
      if needed <= h.mem[h.list[i]] then i else FirstFit(h, needed, i + 1)
  }

  /** `kmalloc` once it found the i-th free block. */
  ghost function Carve(h: Heap, i: nat, needed: Word): Heap
    requires HeapOk(h, {}) && i < |h.list| && h.Has(h.list[i]) && needed <= h.mem[h.list[i]]
    requires needed % 8 == 0 && MIN_BLOCK_SIZE <= needed
  {
    Neighbours(h, i);
    if MIN_BLOCK_SIZE <= h.mem[h.list[i]] - needed then
      TiledBlock(h, h.list[i]);
      SetFlag(Split(h, i, needed), h.list[i], 0)
    else
      SetFlag(Remove(h, i), h.list[i], 0)
  }

  /** The block at the i-th position taken off the free list, whole or cut. */
  ghost predicate Taken(h: Heap, h1: Heap, b: int, needed: Word) {
    && HeapOk(h1, {b}) && h1.spans == h.spans && h.Has(b) && |h1.mem| == |h.mem|
    && needed <= h1.mem[b] <= h.mem[b] && h1.mem[b] < needed + MIN_BLOCK_SIZE
  }

  lemma TakeCut(h: Heap, i: nat, needed: Word)
    requires HeapOk(h, {}) && CanSplit(h, i, needed)
    ensures Taken(h, Split(h, i, needed), h.list[i], needed)
  {
    SplitOk(h, i, needed);
    StartOf(h, i);
    SplitWords(h, i, needed, h.list[i], 0);
  }

  lemma TakeWhole(h: Heap, i: nat, needed: Word)
    requires HeapOk(h, {}) && i < |h.list| && h.Has(h.list[i]) && needed <= h.mem[h.list[i]] < needed + MIN_BLOCK_SIZE
    requires LinkOk(h, i) && (i > 0 ==> LinkOk(h, i - 1)) && (i + 1 < |h.list| ==> LinkOk(h, i + 1))
    ensures Taken(h, Remove(h, i), h.list[i], needed)
  {
    var b := h.list[i];
    RemoveOk(h, i, {});
    Neighbours(h, i);
    assert {} + {b} == {b};
    RelinkWord(h, h.mem[b + NEXT], h.mem[b + PREV], h.mem[b + NEXT], h.mem[b + PREV], b, 0);
  }

  lemma CarveOk(h: Heap, i: nat, needed: Word)
    requires HeapOk(h, {}) && i < |h.list| && h.Has(h.list[i]) && needed <= h.mem[h.list[i]]
    requires needed % 8 == 0 && MIN_BLOCK_SIZE <= needed
    ensures var h', b := Carve(h, i, needed), h.list[i];
            && HeapOk(h', {}) && h'.IsLive(b) && h'.spans == h.spans
            && needed <= h'.mem[b] <= h.mem[b] && h'.mem[b] < needed + MIN_BLOCK_SIZE
  {
    hide Tiled, Linked, Split, Remove;
    var b := h.list[i];
    Neighbours(h, i);
    TiledBlock(h, b);
    var h1;
    if MIN_BLOCK_SIZE <= h.mem[b] - needed {
      h1 := Split(h, i, needed);
      TakeCut(h, i, needed);
    } else {
      h1 := Remove(h, i);
      TakeWhole(h, i, needed);
    }
    SetFlagOk(h1, b, 0, {b});
    assert {b} - {b} == {};
  }
}
