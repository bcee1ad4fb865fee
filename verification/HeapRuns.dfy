/** What allocation and release leave alone, freeing, and every run of the two. */
module HeapRuns {
  import opened Words
  import opened Options
  import opened PageRuns
  import opened HeapState

  // ----- what the elementary changes leave alone -----

  /** Address k lies in no free block. */
  ghost predicate OutsideFree(h: Heap, pending: set<int>, k: int) {
    forall x | x in h.starts && (x in h.list || x in pending) && 0 <= x < |h.mem| :: k < x || h.End(x) <= k
  }

  /** Word k is unchanged, and still outside all free blocks. */
  ghost predicate Untouched(h: Heap, h': Heap, pending': set<int>, k: int) {
    0 <= k < |h.mem| == |h'.mem| && h'.mem[k] == h.mem[k] && OutsideFree(h', pending', k)
  }

  /** The header and link words of a free block lie inside it. */
  lemma OutsideWords(h: Heap, pending: set<int>, k: int, x: int)
    requires Tiled(h) && OutsideFree(h, pending, k) && x in h.starts && (x in h.list || x in pending)
    ensures k < x || x + MIN_BLOCK_SIZE <= k
  {
    TiledBlock(h, x);
  }

  lemma RelinkFrame(h: Heap, n: Word, p: Word, next: Word, prev: Word, k: nat)
    requires (p == 0 || h.Has(p)) && (n == 0 || h.Has(n)) && k < |h.mem|
    requires p != 0 ==> k < p || p + MIN_BLOCK_SIZE <= k
    requires n != 0 ==> k < n || n + MIN_BLOCK_SIZE <= k
    ensures Relink(h, n, p, next, prev).mem[k] == h.mem[k]
  {
  }

  lemma InsertFrame(h: Heap, b: Word, pending: set<int>, k: nat)
    requires HeapOk(h, pending) && b in pending && k < |h.mem| && OutsideFree(h, pending, k)
    requires h.Has(b) && (h.head == 0 || h.Has(h.head))
    ensures Untouched(h, Insert(h, b), pending - {b}, k)
  {
    OutsideWords(h, pending, k, b);
    if h.list != [] {
      StartOf(h, 0);
      OutsideWords(h, pending, k, h.head);
    }
    InsertOk(h, b, pending);
    hide Tiled, Linked, Flagged;
    var h' := Insert(h, b);
    forall x | x in h'.starts && (x in h'.list || x in pending - {b}) && 0 <= x < |h'.mem| ensures k < x || h'.End(x) <= k {
      assert h'.mem[x] == h.mem[x] by { SameSizeInsert(h, b, pending, x); }
    }
  }

  lemma SameSizeInsert(h: Heap, b: Word, pending: set<int>, x: int)
    requires HeapOk(h, pending) && b in pending && h.Has(b) && (h.head == 0 || h.Has(h.head)) && x in h.starts
    ensures 0 <= x < |h.mem| == |Insert(h, b).mem| && Insert(h, b).mem[x] == h.mem[x]
  {
    TiledBlock(h, x);
    if x != b { Apart(h, x, b); }
    if h.list != [] {
      StartOf(h, 0);
      if x != h.head { Apart(h, x, h.head); }
    }
  }

  lemma RemoveFrame(h: Heap, i: nat, pending: set<int>, k: nat)
    requires HeapOk(h, pending) && i < |h.list| && k < |h.mem| && OutsideFree(h, pending, k)
    requires LinkOk(h, i) && (i > 0 ==> LinkOk(h, i - 1)) && (i + 1 < |h.list| ==> LinkOk(h, i + 1))
    ensures Untouched(h, Remove(h, i), pending + {h.list[i]}, k)
  {
    Neighbours(h, i);
    var n, p := h.mem[h.list[i] + NEXT], h.mem[h.list[i] + PREV];
    if p != 0 { OutsideWords(h, pending, k, p); }
    if n != 0 { OutsideWords(h, pending, k, n); }
    RelinkFrame(h, n, p, n, p, k);
    var h' := Remove(h, i);
    forall x | x in h'.starts && (x in h'.list || x in pending + {h.list[i]}) && 0 <= x < |h'.mem| ensures k < x || h'.End(x) <= k {
      RelinkWord(h, n, p, n, p, x, 0);
      assert x in h'.list ==> x in h.list;
    }
  }

  lemma SetFlagFrame(h: Heap, b: int, flag: Word, pending: set<int>, k: nat)
    requires HeapOk(h, pending) && b in h.starts && b !in h.list && (flag == 0 || flag == 1) && h.Has(b)
    requires k < |h.mem| && OutsideFree(h, pending, k) && (k < b || h.End(b) <= k)
    ensures Untouched(h, SetFlag(h, b, flag), if flag == 1 then pending + {b} else pending - {b}, k)
  {
    TiledBlock(h, b);
    var h' := SetFlag(h, b, flag);
    forall x | x in h.starts && 0 <= x < |h.mem| ensures h'.mem[x] == h.mem[x] {
      if x != b { Apart(h, x, b); }
    }
  }

  lemma AbsorbFrame(h: Heap, a: int, c: int, pending: set<int>, k: nat)
    requires HeapOk(h, pending) && a in h.starts && (a in h.list || a in pending) && c in pending && h.Has(a) && h.Has(c)
    requires c == h.End(a) && c % PAGE_SIZE != 0
    requires k < |h.mem| && OutsideFree(h, pending, k)
    ensures Untouched(h, Absorb(h, a, c), pending - {c}, k)
  {
    OutsideWords(h, pending, k, a);
    AbsorbTiled(h, a, c);
    hide Tiled, Linked, Flagged;
  }

  lemma SplitFrameWord(h: Heap, i: nat, needed: Word, k: nat)
    requires HeapOk(h, {}) && CanSplit(h, i, needed) && k < |h.mem| && OutsideFree(h, {}, k)
    ensures Split(h, i, needed).mem[k] == h.mem[k]
  {
    hide HeapOk, Linked, Flagged, Tiled, LinkOk;
    var b := h.list[i];
    Parts(h, {});
    Neighbours(h, i);
    StartOf(h, i);
    var n, p := h.mem[b + NEXT], h.mem[b + PREV];
    if p != 0 { NextInList(h, i - 1); OutsideWords(h, {}, k, p); }
    if n != 0 { NextInList(h, i + 1); OutsideWords(h, {}, k, n); }
  }

  lemma NextInList(h: Heap, i: int)
    requires Linked(h) && At(h.list, i) != 0
    ensures At(h.list, i) in h.list
  {
  }

  lemma SplitFrame(h: Heap, i: nat, needed: Word, k: nat)
    requires HeapOk(h, {}) && CanSplit(h, i, needed) && k < |h.mem| && OutsideFree(h, {}, k)
    ensures Untouched(h, Split(h, i, needed), {h.list[i]}, k)
  {
    hide HeapOk, Linked, Flagged, Tiled, LinkOk, Cut;
    SplitFrameWord(h, i, needed, k);
    Parts(h, {});
    StartOf(h, i);
    SplitRest(h, i, needed);
    var h', b := Split(h, i, needed), h.list[i];
    forall x | x in h'.starts && (x in h'.list || x in {b}) && 0 <= x < |h'.mem| ensures k < x || h'.End(x) <= k {
      if x in h.starts {
        SplitWords(h, i, needed, x, 0);
        assert x in h.list;
      }
    }
  }

  lemma GrowFrame(h: Heap, s: Span, k: nat)
    requires HeapOk(h, {}) && NewSpan(h, s) && (h.head == 0 || h.Has(h.head))
    requires k < |h.mem| && OutsideFree(h, {}, k) && (k < s.lo || s.hi <= k)
    ensures Untouched(h, Grow(h, s), {}, k)
  {
    PageIsAligned(s.hi, s.lo);
    if h.list != [] {
      StartOf(h, 0);
      OutsideWords(h, {}, k, h.head);
    }
    var h' := Grow(h, s);
    forall x | x in h'.starts && x in h'.list && 0 <= x < |h'.mem| ensures k < x || h'.End(x) <= k {
      GrowFrameAt(h, s, k, x);
    }
  }

  lemma GrowFrameAt(h: Heap, s: Span, k: nat, x: int)
    requires HeapOk(h, {}) && NewSpan(h, s) && (h.head == 0 || h.Has(h.head))
    requires k < |h.mem| && OutsideFree(h, {}, k) && (k < s.lo || s.hi <= k)
    requires var h' := Grow(h, s); x in h'.starts && x in h'.list && 0 <= x < |h'.mem|
    ensures k < x || Grow(h, s).End(x) <= k
  {
    PageIsAligned(s.hi, s.lo);
    GrowOk(h, s);
    if h.list != [] { StartOf(h, 0); }
    if x != s.lo {
      OutsideNewSpan(h, s, x);
      if h.list != [] && x != h.head { Apart(h, x, h.head); }
    } else if h.list != [] {
      OutsideNewSpan(h, s, h.head);
    }
  }

  // ----- release -----

  ghost function IndexOf(list: seq<int>, x: int): (i: nat)
    requires x in list
    ensures i < |list| && list[i] == x
  {
    if list[0] == x then 0 else 1 + IndexOf(list[1..], x)
  }

  /** The end of a block that lies inside the page of a block start is itself a block start. */
  lemma NextInPage(h: Heap, a: int, pageOf: int)
    requires Tiled(h) && a in h.starts && 0 <= a < |h.mem|
    requires PageBase(pageOf) < h.End(a) < PageBase(pageOf) + PAGE_SIZE
    ensures h.End(a) in h.starts && h.End(a) % PAGE_SIZE != 0
  {
    TiledBlock(h, a);
    forall u | u in h.spans ensures u.hi % PAGE_SIZE == 0 {
      assert SpanOk(h, u);
    }
  }

  /** `coalesce_forward`, for a block that is marked free but not listed. */
  ghost function Forward(h: Heap, b: int): Heap
    requires HeapOk(h, {b})
  {
    TiledBlock(h, b);
    var c := h.End(b);
    if c >= PageBase(b) + PAGE_SIZE then h
    else
      NextInPage(h, b, b);
      TiledBlock(h, c);
      if h.mem[c + FREE] != 1 then h
      else
        Neighbours(h, IndexOf(h.list, c));
        Absorb(Remove(h, IndexOf(h.list, c)), b, c)
  }

  lemma RemoveSizes(h: Heap, i: nat, pending: set<int>, x: int)
    requires HeapOk(h, pending) && i < |h.list| && x in h.starts
    requires LinkOk(h, i) && (i > 0 ==> LinkOk(h, i - 1)) && (i + 1 < |h.list| ==> LinkOk(h, i + 1))
    ensures h.Has(x) && Remove(h, i).mem[x] == h.mem[x]
  {
    Neighbours(h, i);
    var n, p := h.mem[h.list[i] + NEXT], h.mem[h.list[i] + PREV];
    RelinkWord(h, n, p, n, p, x, 0);
  }

  /** The next block c is free: it leaves the list and joins b. */
  ghost predicate JoinsNext(h: Heap, b: int, c: int) {
    HeapOk(h, {b}) && h.Has(b) && c == h.End(b) && c in h.starts && c in h.list && c % PAGE_SIZE != 0 && h.Has(c)
  }

  lemma RemoveNext(h: Heap, b: int, c: int)
    requires JoinsNext(h, b, c)
    ensures var i := IndexOf(h.list, c);
            && LinkOk(h, i) && (i > 0 ==> LinkOk(h, i - 1)) && (i + 1 < |h.list| ==> LinkOk(h, i + 1))
            && var h1 := Remove(h, i);
            && HeapOk(h1, {b, c}) && h1.starts == h.starts && h1.spans == h.spans && |h1.mem| == |h.mem|
            && h1.mem[b] == h.mem[b] && h1.mem[c] == h.mem[c] && (forall x | x in h1.list :: x in h.list)
  {
    var i := IndexOf(h.list, c);
    RemoveOk(h, i, {b});
    RemoveSizes(h, i, {b}, b);
    RemoveSizes(h, i, {b}, c);
    assert {b} + {c} == {b, c};
  }

  lemma JoinNext(h: Heap, b: int, c: int)
    requires JoinsNext(h, b, c)
    ensures var i := IndexOf(h.list, c);
            && LinkOk(h, i) && (i > 0 ==> LinkOk(h, i - 1)) && (i + 1 < |h.list| ==> LinkOk(h, i + 1))
            && var h' := Absorb(Remove(h, i), b, c);
            && HeapOk(h', {b}) && h'.starts == h.starts - {c} && h'.spans == h.spans && |h'.mem| == |h.mem|
            && h'.End(b) == h.End(c) && (forall x | x in h'.list :: x in h.list)
  {
    hide Tiled, Linked, Flagged, Remove, LinkOk;
    TiledBlock(h, b);
    RemoveNext(h, b, c);
    AbsorbOk(Remove(h, IndexOf(h.list, c)), b, c, {b, c});
    assert {b, c} - {c} == {b} by { assert b != c; }
  }

  /** What forward coalescing does: nothing, or the free block after b joins b. */
  lemma ForwardOk(h: Heap, b: int)
    requires HeapOk(h, {b})
    ensures var h' := Forward(h, b);
            && HeapOk(h', {b}) && h.Has(b) && h.End(b) <= h'.End(b) && |h'.mem| == |h.mem|
            && h'.starts <= h.starts && h'.spans == h.spans
            && (forall x | x in h.starts && x <= b :: x in h'.starts)
            && (forall x | x in h.starts && x !in h.list :: x in h'.starts)
            && (forall x | x in h'.list :: x in h.list)
  {
    TiledBlock(h, b);
    var c := h.End(b);
    if c < PageBase(b) + PAGE_SIZE {
      NextInPage(h, b, b);
      TiledBlock(h, c);
      if h.mem[c + FREE] == 1 {
        hide Tiled, Linked, LinkOk, BlockOk;
        JoinNext(h, b, c);
      }
    }
  }

  lemma ForwardFrame(h: Heap, b: int, k: nat)
    requires HeapOk(h, {b}) && k < |h.mem| && OutsideFree(h, {b}, k)
    ensures Untouched(h, Forward(h, b), {b}, k)
  {
    TiledBlock(h, b);
    var c := h.End(b);
    if c < PageBase(b) + PAGE_SIZE {
      NextInPage(h, b, b);
      TiledBlock(h, c);
      if h.mem[c + FREE] == 1 {
        hide Tiled, Linked, Flagged, Remove, LinkOk, BlockOk;
        RemoveNext(h, b, c);
        RemoveFrame(h, IndexOf(h.list, c), {b}, k);
        assert {b} + {c} == {b, c};
        AbsorbFrame(Remove(h, IndexOf(h.list, c)), b, c, {b, c}, k);
        assert {b, c} - {c} == {b} by { assert b != c; }
      }
    }
  }

  /** The block before b, found by walking from a block start at or after the start of b's page. */
  ghost function WalkPrev(h: Heap, curr: int, b: int): (p: int)
    requires Tiled(h) && curr in h.starts && b in h.starts && PageBase(b) <= curr < b
    ensures p in h.starts && curr <= p < b && h.Has(p) && h.End(p) == b
    decreases b - curr
  {
    TiledBlock(h, curr);
    TiledPrecedes(h, curr, b);
    if h.End(curr) == b then curr
    else
      NextInPage(h, curr, b);
      WalkPrev(h, h.End(curr), b)
  }

  /** The page of b starts with the link of the first listed block to the second.  Read as a size it
      takes the walk past b at once, and the word after it, the 0 of the first block's other link,
      says `not free`. */
  ghost predicate LinkAtPage(h: Heap, b: int) {
    |h.list| >= 2 && h.list[0] + NEXT == PageBase(b)
  }

  /** The walk from the start of b's page comes to a sound end. */
  ghost predicate PageOk(h: Heap, b: int) {
    PageBase(b) in h.starts || LinkAtPage(h, b)
  }

  /** `coalesce_backward` and the insertion that `kfree` does otherwise. */
  ghost function Backward(h: Heap, b: int): Heap
    requires HeapOk(h, {b}) && PageOk(h, b)
  {
    TiledBlock(h, b);
    HeadOk(h);
    if b == PageBase(b) || PageBase(b) !in h.starts then Insert(h, b)
    else
      var p := WalkPrev(h, PageBase(b), b);
      if h.mem[p + FREE] == 1 then Absorb(h, p, b) else Insert(h, b)
  }

  lemma HeadOk(h: Heap)
    requires Linked(h)
    ensures h.head == 0 || (h.Has(h.head) && h.head in h.starts)
  {
    if h.list != [] { assert LinkOk(h, 0); }
  }

  /** The first half of `kfree`: live block b is marked free and joined with a free block after it. */
  ghost function Merged(h: Heap, b: int): (h': Heap)
    requires HeapOk(h, {}) && h.IsLive(b)
    ensures HeapOk(h', {b}) && |h'.mem| == |h.mem|
  {
    SetFlagOk(h, b, 1, {});
    assert {} + {b} == {b};
    ForwardOk(SetFlag(h, b, 1), b);
    Forward(SetFlag(h, b, 1), b)
  }

  /** What `kfree` of b demands, exactly (`FreeSoundExactly`). */
  ghost predicate CanFree(h: Heap, b: int) {
    HeapOk(h, {}) && h.IsLive(b) && PageOk(Merged(h, b), b)
  }

  /** `kfree` of live block b. */
  ghost function Release(h: Heap, b: int): Heap
    requires CanFree(h, b)
  {
    Backward(Merged(h, b), b)
  }

  /** The page condition can be read off before the call. */
  lemma MergedStarts(h: Heap, b: int)
    requires HeapOk(h, {}) && h.IsLive(b)
    ensures PageBase(b) in Merged(h, b).starts <==> PageBase(b) in h.starts
  {
    SetFlagOk(h, b, 1, {});
    assert {} + {b} == {b};
    TiledBlock(h, b);
    ForwardOk(SetFlag(h, b, 1), b);
  }

  lemma BackwardOk(h: Heap, b: int)
    requires HeapOk(h, {b}) && PageOk(h, b)
    ensures h.Has(b)
    ensures var h' := Backward(h, b);
            && HeapOk(h', {}) && |h'.mem| == |h.mem| && h'.spans == h.spans
            && (forall x | x in h.starts && x != b :: x in h'.starts)
            && exists f :: f in h'.list && h'.Has(f) && f <= b && h.End(b) <= h'.End(f)
  {
    TiledBlock(h, b);
    HeadOk(h);
    var h' := Backward(h, b);
    if b != PageBase(b) && PageBase(b) in h.starts && h.mem[WalkPrev(h, PageBase(b), b) + FREE] == 1 {
      var p := WalkPrev(h, PageBase(b), b);
      assert b % PAGE_SIZE != 0;
      AbsorbOk(h, p, b, {b});
      assert {b} - {b} == {};
      assert p in h'.list;
    } else {
      InsertOk(h, b, {b});
      assert {b} - {b} == {};
      SameSizeInsert(h, b, {b}, b);
      assert b in h'.list;
    }
  }

  lemma BackwardFrame(h: Heap, b: int, k: nat)
    requires HeapOk(h, {b}) && PageOk(h, b) && k < |h.mem| && OutsideFree(h, {b}, k)
    ensures Untouched(h, Backward(h, b), {}, k)
  {
    hide Linked, Flagged, Untouched, OutsideFree, Absorb, Insert;
    TiledBlock(h, b);
    HeadOk(h);
    assert {b} - {b} == {};
    if b != PageBase(b) && PageBase(b) in h.starts && h.mem[WalkPrev(h, PageBase(b), b) + FREE] == 1 {
      FreeIffListed(h, b, WalkPrev(h, PageBase(b), b));
      AbsorbFrame(h, WalkPrev(h, PageBase(b), b), b, {b}, k);
    } else {
      InsertFrame(h, b, {b}, k);
    }
  }

  /** Freeing keeps the heap well formed, and the freed block's bytes belong to one listed free
      block, which may extend to both sides. */
  lemma ReleaseOk(h: Heap, b: int)
    requires CanFree(h, b)
    ensures var h' := Release(h, b);
            && HeapOk(h', {}) && h'.spans == h.spans && h.Has(b)
            && (forall x | x in h.starts && x !in h.list && x != b :: x in h'.starts)
            && exists f :: f in h'.list && h'.Has(f) && f <= b && h.End(b) <= h'.End(f)
  {
    TiledBlock(h, b);
    SetFlagOk(h, b, 1, {});
    assert {} + {b} == {b};
    var h1 := SetFlag(h, b, 1);
    ForwardOk(h1, b);
    var h2 := Forward(h1, b);
    hide Tiled, Linked, Flagged, Forward, Backward;
    BackwardOk(h2, b);
  }

  /** The block behind b, if it is free and starts in b's page. */
  ghost predicate Ahead(h: Heap, b: int)
    requires 0 <= b < |h.mem|
  {
    h.End(b) < PageBase(b) + PAGE_SIZE && h.End(b) in h.list
  }

  /** p is the free block in front of b, and b's page starts with a block. */
  ghost predicate IsBehind(h: Heap, b: int, p: int) {
    PageBase(b) in h.starts && p in h.list && PageBase(b) <= p < b && h.Has(p) && h.End(p) == b
  }

  /** The free list after b's neighbour c has left it, if it is free. */
  ghost function ListWithout(list: seq<int>, c: int): seq<int> {
    if c in list then Without(list, IndexOf(list, c)) else list
  }

  lemma ForwardExactly(h: Heap, b: int)
    requires HeapOk(h, {b}) && h.Has(b)
    ensures var h', c := Forward(h, b), h.End(b);
            && h'.starts == (if Ahead(h, b) then h.starts - {c} else h.starts)
            && h'.list == (if Ahead(h, b) then ListWithout(h.list, c) else h.list)
            && SameSizes(h, h', b)
  {
    hide Tiled, Linked, Flagged, Remove, BlockOk, LinkOk;
    TiledBlock(h, b);
    AllInside(h, {b});
    var c := h.End(b);
    if c < PageBase(b) + PAGE_SIZE {
      NextInPage(h, b, b);
      TiledBlock(h, c);
      FreeIffListed(h, b, c);
      if c in h.list { JoinExactly(h, b, c); }
    }
  }

  /** All blocks but b keep their size. */
  ghost predicate SameSizes(h: Heap, h': Heap, b: int) {
    |h'.mem| == |h.mem| && forall x | x in h.starts && x != b :: h.Has(x) && h'.mem[x] == h.mem[x]
  }

  lemma AllInside(h: Heap, pending: set<int>)
    requires HeapOk(h, pending)
    ensures forall x | x in h.starts :: h.Has(x)
  {
    forall x | x in h.starts ensures h.Has(x) { TiledBlock(h, x); }
  }

  lemma JoinExactly(h: Heap, b: int, c: int)
    requires JoinsNext(h, b, c)
    ensures var i := IndexOf(h.list, c);
            && LinkOk(h, i) && (i > 0 ==> LinkOk(h, i - 1)) && (i + 1 < |h.list| ==> LinkOk(h, i + 1))
            && var h' := Absorb(Remove(h, i), b, c);
            h'.starts == h.starts - {c} && h'.list == ListWithout(h.list, c) && SameSizes(h, h', b)
  {
    hide Tiled, Linked, Flagged, Remove, LinkOk;
    var i := IndexOf(h.list, c);
    RemoveNext(h, b, c);
    RemovedList(h, i);
    forall x | x in h.starts ensures h.Has(x) && Remove(h, i).mem[x] == h.mem[x] { RemoveSizes(h, i, {b}, x); }
  }

  lemma RemovedList(h: Heap, i: nat)
    requires i < |h.list| && LinkOk(h, i) && (i > 0 ==> LinkOk(h, i - 1)) && (i + 1 < |h.list| ==> LinkOk(h, i + 1))
    ensures Remove(h, i).list == Without(h.list, i)
  {
  }

  lemma FreeIffListed(h: Heap, b: int, x: int)
    requires HeapOk(h, {b}) && x in h.starts && x != b
    ensures h.Has(x) && (h.mem[x + FREE] == 1 <==> x in h.list)
  {
  }

  lemma BackwardExactly(h: Heap, b: int)
    requires HeapOk(h, {b}) && PageOk(h, b)
    ensures var h', joined := Backward(h, b), exists p :: IsBehind(h, b, p);
            h'.starts == (if joined then h.starts - {b} else h.starts) && h'.list == (if joined then h.list else [b] + h.list)
  {
    TiledBlock(h, b);
    HeadOk(h);
    if b != PageBase(b) && PageBase(b) in h.starts {
      var p := WalkPrev(h, PageBase(b), b);
      FreeIffListed(h, b, p);
      hide Linked, Flagged;
      forall q | IsBehind(h, b, q) ensures q == p {
        assert q in h.starts by { ListedStart(h, q); }
        if q < p { TiledPrecedes(h, q, p); } else if p < q { TiledPrecedes(h, p, q); }
      }
      if p in h.list { assert IsBehind(h, b, p); }
    }
  }

  /** `kfree`, exactly: the free block behind b in the same page and the free block in front of b are
      joined with b, and nothing else; the result takes the front block's place in the free list, or
      the head of the list. */
  lemma ReleaseExactly(h: Heap, b: int)
    requires CanFree(h, b)
    ensures h.Has(b)
    ensures var h', c, joined := Release(h, b), h.End(b), exists p :: IsBehind(h, b, p);
            var starts := if Ahead(h, b) then h.starts - {c} else h.starts;
            var list := if Ahead(h, b) then ListWithout(h.list, c) else h.list;
            && h'.starts == (if joined then starts - {b} else starts)
            && h'.list == (if joined then list else [b] + list)
  {
    hide Tiled, Linked, Flagged, Forward, Backward;
    TiledBlock(h, b);
    FlagSizes(h, b);
    var h1 := SetFlag(h, b, 1);
    ForwardExactly(h1, b);
    var h2 := Forward(h1, b);
    MergedStarts(h, b);
    BackwardExactly(h2, b);
    SizesTwice(h, h1, h2, b);
    hide HeapOk, Ahead, SameSizes, SetFlag;
    forall p ensures IsBehind(h2, b, p) <==> IsBehind(h, b, p) { SameBehind(h, h2, b, p); }
  }

  lemma FlagSizes(h: Heap, b: int)
    requires HeapOk(h, {}) && h.IsLive(b)
    ensures h.Has(b)
    ensures var h1 := SetFlag(h, b, 1);
            && HeapOk(h1, {b}) && h1.mem[b] == h.mem[b] && SameSizes(h, h1, b) && (Ahead(h1, b) <==> Ahead(h, b)) && h1.End(b) == h.End(b)
  {
    hide Tiled, Linked, Flagged;
    TiledBlock(h, b);
    LiveUnlisted(h, b);
    SetFlagOk(h, b, 1, {});
    assert {} + {b} == {b};
    AllInside(h, {});
    forall x | x in h.starts && x != b ensures x != b + FREE { Apart(h, x, b); }
  }

  lemma SizesTwice(h: Heap, h1: Heap, h2: Heap, b: int)
    requires SameSizes(h, h1, b) && SameSizes(h1, h2, b) && h1.starts == h.starts
    ensures SameSizes(h, h2, b)
  {
  }

  lemma SameBehind(h: Heap, h2: Heap, b: int, p: int)
    requires HeapOk(h, {}) && b in h.starts && h.Has(b) && h.mem[b] > 0 && SameSizes(h, h2, b)
    requires h2.list == if Ahead(h, b) then ListWithout(h.list, h.End(b)) else h.list
    requires PageBase(b) in h2.starts <==> PageBase(b) in h.starts
    ensures IsBehind(h2, b, p) <==> IsBehind(h, b, p)
  {
    hide Tiled, Linked, Flagged;
    if p in h.list { ListedStart(h, p); }
    if p < b { InListWithout(h.list, h.End(b), p); }
  }

  lemma InListWithout(list: seq<int>, c: int, p: int)
    requires p != c
    ensures p in ListWithout(list, c) <==> p in list
  {
    if c in list {
      var i := IndexOf(list, c);
      assert list == list[..i] + [list[i]] + list[i + 1..];
    }
  }

  /** Freeing changes no word outside the free blocks and the freed block. */
  lemma ReleaseFrame(h: Heap, b: int, k: nat)
    requires CanFree(h, b) && k < |h.mem| && OutsideFree(h, {}, k) && 0 <= b < |h.mem| && (k < b || h.End(b) <= k)
    ensures Untouched(h, Release(h, b), {}, k)
  {
    TiledBlock(h, b);
    SetFlagOk(h, b, 1, {});
    assert {} + {b} == {b};
    SetFlagFrame(h, b, 1, {}, k);
    var h1 := SetFlag(h, b, 1);
    ForwardOk(h1, b);
    ForwardFrame(h1, b, k);
    var h2 := Forward(h1, b);
    hide Tiled, Linked, Flagged, Forward, Backward;
    BackwardFrame(h2, b, k);
  }

  // ----- live blocks -----

  /** Live block a is still there, with the same size and the same words. */
  ghost predicate KeepsBlock(h: Heap, h': Heap, a: int)
    requires h.Has(a)
  {
    && h'.IsLive(a) && |h'.mem| == |h.mem| && h.End(a) <= |h.mem|
    && forall k | a <= k < h.End(a) :: h'.mem[k] == h.mem[k]
  }

  lemma LiveOutsideFree(h: Heap, a: int, k: int)
    requires HeapOk(h, {}) && h.IsLive(a) && h.Has(a) && a <= k < h.End(a)
    ensures OutsideFree(h, {}, k)
  {
    forall x | x in h.starts && x in h.list && 0 <= x < |h.mem| ensures k < x || h.End(x) <= k {
      if a < x { TiledPrecedes(h, a, x); } else { TiledPrecedes(h, x, a); }
    }
  }

  lemma SameWords(h: Heap, h': Heap, a: int)
    requires BlockOk(h, a) && h.IsLive(a) && a in h'.starts && |h'.mem| == |h.mem|
    requires forall k | a <= k < h.End(a) :: h'.mem[k] == h.mem[k]
    ensures KeepsBlock(h, h', a)
  {
    assert h'.mem[a + FREE] == h.mem[a + FREE];
  }

  lemma LiveUnlisted(h: Heap, a: int)
    requires Flagged(h, {}) && h.IsLive(a)
    ensures a !in h.list
  {
  }

  lemma ReleaseKeepsLive(h: Heap, b: int, a: int)
    requires CanFree(h, b) && h.IsLive(a) && a != b
    ensures h.Has(a) && KeepsBlock(h, Release(h, b), a)
  {
    TiledBlock(h, a);
    TiledBlock(h, b);
    if a < b { TiledPrecedes(h, a, b); } else { TiledPrecedes(h, b, a); }
    ReleaseOk(h, b);
    LiveUnlisted(h, a);
    var h' := Release(h, b);
    hide Release, Tiled, Linked, Flagged, CanFree, BlockOk;
    forall k | a <= k < h.End(a) ensures |h'.mem| == |h.mem| && h'.mem[k] == h.mem[k] {
      LiveOutsideFree(h, a, k);
      ReleaseFrame(h, b, k);
    }
    SameWords(h, h', a);
  }

  /** Words that allocation leaves alone: those outside all free blocks. */
  lemma CarveFrame(h: Heap, i: nat, needed: Word, k: nat)
    requires HeapOk(h, {}) && i < |h.list| && h.Has(h.list[i]) && needed <= h.mem[h.list[i]]
    requires needed % 8 == 0 && MIN_BLOCK_SIZE <= needed
    requires k < |h.mem| && OutsideFree(h, {}, k)
    ensures Untouched(h, Carve(h, i, needed), {}, k)
  {
    var b := h.list[i];
    Neighbours(h, i);
    TiledBlock(h, b);
    var h1;
    if MIN_BLOCK_SIZE <= h.mem[b] - needed {
      h1 := Split(h, i, needed);
      TakeCut(h, i, needed);
      SplitFrame(h, i, needed, k);
    } else {
      h1 := Remove(h, i);
      TakeWhole(h, i, needed);
      RemoveFrame(h, i, {}, k);
      assert {} + {b} == {b};
    }
    hide Tiled, Linked, Split, Remove, LinkOk;
    assert b in h1.starts && b in {b};
    SetFlagFrame(h1, b, 0, {b}, k);
    assert {b} - {b} == {};
  }

  lemma CarveStarts(h: Heap, i: nat, needed: Word, a: int)
    requires HeapOk(h, {}) && i < |h.list| && h.Has(h.list[i]) && needed <= h.mem[h.list[i]]
    requires needed % 8 == 0 && MIN_BLOCK_SIZE <= needed && a in h.starts
    ensures a in Carve(h, i, needed).starts
  {
    Neighbours(h, i);
    TiledBlock(h, h.list[i]);
  }

  lemma CarveKeepsLive(h: Heap, i: nat, needed: Word, a: int)
    requires HeapOk(h, {}) && i < |h.list| && h.Has(h.list[i]) && needed <= h.mem[h.list[i]]
    requires needed % 8 == 0 && MIN_BLOCK_SIZE <= needed && h.IsLive(a)
    ensures h.Has(a) && KeepsBlock(h, Carve(h, i, needed), a) && a != h.list[i]
  {
    TiledBlock(h, a);
    LiveUnlisted(h, a);
    CarveStarts(h, i, needed, a);
    var h' := Carve(h, i, needed);
    hide Carve, Tiled, Linked, Flagged, BlockOk;
    forall k | a <= k < h.End(a) ensures |h'.mem| == |h.mem| && h'.mem[k] == h.mem[k] {
      LiveOutsideFree(h, a, k);
      CarveFrame(h, i, needed, k);
    }
    SameWords(h, h', a);
  }

  lemma GrowKeepsLive(h: Heap, s: Span, a: int)
    requires HeapOk(h, {}) && NewSpan(h, s) && h.IsLive(a) && (h.head == 0 || h.Has(h.head))
    ensures h.Has(a) && KeepsBlock(h, Grow(h, s), a)
  {
    TiledBlock(h, a);
    OutsideNewSpan(h, s, a);
    var h' := Grow(h, s);
    hide Tiled, Linked, Flagged, BlockOk;
    forall k | a <= k < h.End(a) ensures |h'.mem| == |h.mem| && h'.mem[k] == h.mem[k] {
      LiveOutsideFree(h, a, k);
      GrowFrame(h, s, k);
    }
    SameWords(h, h', a);
  }

  // ----- the blocks account for every byte -----

  /** A span end is no address inside a span. */
  lemma NotAnEnd(h: Heap, s: Span, e: int)
    requires Tiled(h) && s in h.spans && s.lo < e < s.hi
    ensures !SpanEnd(h.spans, e)
  {
    forall u | u in h.spans ensures u.hi != e {
      assert SpanOk(h, u);
      if u.hi == e { SpansMeet(h, u, s, e - 1); }
    }
  }

  /** The block that holds address x, found by walking from block `from`. */
  lemma Covering(h: Heap, s: Span, from: int, x: int) returns (a: int)
    requires Tiled(h) && s in h.spans && from in h.starts && s.lo <= from <= x < s.hi
    ensures a in h.starts && h.Has(a) && a <= x < h.End(a)
    decreases x - from
  {
    TiledBlock(h, from);
    a := from;
    if h.End(from) <= x {
      NotAnEnd(h, s, h.End(from));
      a := Covering(h, s, h.End(from), x);
    }
  }

  /** Every byte of the heap's pages belongs to exactly one block. */
  lemma EveryByteInOneBlock(h: Heap, s: Span, x: int)
    requires Tiled(h) && s in h.spans && s.lo <= x < s.hi
    ensures exists a :: a in h.starts && h.Has(a) && a <= x < h.End(a)
    ensures forall a, b | a in h.starts && b in h.starts && h.Has(a) && h.Has(b) && a <= x < h.End(a) && b <= x < h.End(b) :: a == b
  {
    assert SpanOk(h, s);
    var a := Covering(h, s, s.lo, x);
    forall a, b | a in h.starts && b in h.starts && h.Has(a) && h.Has(b) && a <= x < h.End(a) && b <= x < h.End(b) ensures a == b {
      if a < b { TiledPrecedes(h, a, b); } else if b < a { TiledPrecedes(h, b, a); }
    }
  }

  /** The sizes of the blocks from block a to the end of its span. */
  ghost function SizesFrom(h: Heap, s: Span, a: int): int
    requires Tiled(h) && s in h.spans && a in h.starts && s.lo <= a < s.hi
    decreases s.hi - a
  {
    TiledBlock(h, a);
    if h.End(a) >= s.hi then h.mem[a]
    else
      NotAnEnd(h, s, h.End(a));
      h.mem[a] + SizesFrom(h, s, h.End(a))
  }

  /** The block sizes of a span add up to its pages. */
  lemma {:induction false} SizesAddUp(h: Heap, s: Span, a: int)
    requires Tiled(h) && s in h.spans && a in h.starts && s.lo <= a < s.hi
    ensures SizesFrom(h, s, a) == s.hi - a
    decreases s.hi - a
  {
    TiledBlock(h, a);
    assert SpanOk(h, s);
    if h.End(a) < s.hi {
      NotAnEnd(h, s, h.End(a));
      SizesAddUp(h, s, h.End(a));
    } else {
      var t :| t in h.spans && t.lo <= a && h.End(a) <= t.hi;
      SpansMeet(h, s, t, a);
    }
  }

  // ----- memory that the heap does not look at -----

  /** Address k is no word that the free list or a block header uses. */
  ghost predicate Unused(h: Heap, k: int) {
    && (forall x | x in h.starts :: k != x && k != x + FREE)
    && (forall x | x in h.list :: k != x + NEXT && k != x + PREV)
  }

  /** Changes to such words keep the heap. */
  lemma UnusedChanges(h: Heap, m: seq<Word>)
    requires HeapOk(h, {}) && |m| == |h.mem|
    requires forall k | 0 <= k < |m| && m[k] != h.mem[k] :: Unused(h, k)
    ensures HeapOk(h.(mem := m), {})
    ensures forall x | x in h.starts :: h.Has(x) && m[x] == h.mem[x] && m[x + FREE] == h.mem[x + FREE]
  {
    hide Tiled, BlockOk;
    var h' := h.(mem := m);
    forall x | x in h.starts ensures h.Has(x) && m[x] == h.mem[x] && m[x + FREE] == h.mem[x + FREE] { TiledBlock(h, x); assert h.Has(x) by { HasBlock(h, x); } }
    SameBlocks(h, h');
    forall i | 0 <= i < |h.list| ensures LinkOk(h', i) {
      assert LinkOk(h, i) && h.list[i] in h.list;
    }
  }

  lemma HasBlock(h: Heap, x: int)
    requires Tiled(h) && x in h.starts
    ensures h.Has(x) && |h.mem| == USER_MEM_START && x % 8 == 0
  {
    TiledBlock(h, x);
  }

  /** Payload words of live blocks and words outside the spans are such words. */
  lemma PayloadUnused(h: Heap, a: int, k: int)
    requires HeapOk(h, {}) && InPayload(h, a, k)
    ensures Unused(h, k)
  {
    HasBlock(h, a);
    forall x | x in h.starts ensures k != x && k != x + FREE && (x in h.list ==> k != x + NEXT && k != x + PREV) {
      WriteKeeps(h, a, k, 0, x);
    }
    forall x | x in h.list ensures x in h.starts { ListedStart(h, x); }
  }

  lemma ListedStart(h: Heap, x: int)
    requires Linked(h) && x in h.list
    ensures x in h.starts
  {
    var i :| 0 <= i < |h.list| && h.list[i] == x;
    StartOf(h, i);
  }

  ghost predicate OutsideSpans(h: Heap, k: int) {
    forall s | s in h.spans :: k < s.lo || s.hi <= k
  }

  lemma OutsideUnused(h: Heap, k: int)
    requires HeapOk(h, {}) && OutsideSpans(h, k)
    ensures Unused(h, k) && OutsideFree(h, {}, k)
  {
    forall x | x in h.starts ensures k < x || h.End(x) <= k { TiledBlock(h, x); }
    forall x | x in h.starts ensures h.Has(x) && x + MIN_BLOCK_SIZE <= h.End(x) { TiledBlock(h, x); }
    forall x | x in h.list ensures x in h.starts { ListedStart(h, x); }
  }

  // ----- when the backward walk is sound -----

  /** The loop `while (curr < b) { prev = curr; curr += curr->size; }` leaves with prev == r after
      n rounds. */
  ghost predicate Walks(m: seq<Word>, curr: Word, prev: int, b: int, r: int, n: nat)
    decreases n
  {
    if n == 0 then curr >= b && r == prev
    else curr < b && curr < |m| && Walks(m, Wrap(curr + m[curr]), curr, b, r, n - 1)
  }

  ghost predicate FindsPredecessor(h: Heap, m: seq<Word>, b: int) {
    exists r, n: nat :: r in h.starts && Walks(m, Wrap(PageBase(b)), 0, b, r, n) && 0 <= r < |h.mem| && h.End(r) == b
  }

  /** m gives the same heap other contents: headers and links agree, all else is arbitrary. */
  ghost predicate SameHeap(h: Heap, m: seq<Word>) {
    HeapOk(h.(mem := m), {}) && |m| == |h.mem| && forall a | a in h.starts && 0 <= a < |m| :: m[a] == h.mem[a]
  }

  lemma {:induction false} WalkFromStart(h: Heap, curr: int, prev: int, b: int) returns (n: nat)
    requires Tiled(h) && curr in h.starts && b in h.starts && PageBase(b) <= curr < b && 0 <= curr < TWO_TO_32
    ensures Walks(h.mem, curr, prev, b, WalkPrev(h, curr, b), n)
    decreases b - curr
  {
    TiledBlock(h, curr);
    TiledPrecedes(h, curr, b);
    assert Wrap(curr + h.mem[curr]) == h.End(curr);
    if h.End(curr) == b {
      assert Walks(h.mem, h.End(curr), curr, b, curr, 0);
      n := 1;
    } else {
      NextInPage(h, curr, b);
      n := WalkFromStart(h, h.End(curr), curr, b);
      n := n + 1;
    }
  }

  /** A size word 0 makes the walk stand still for ever. */
  lemma {:induction false} StuckAtZero(m: seq<Word>, curr: Word, prev: int, b: int, r: int, n: nat)
    requires curr < |m| && m[curr] == 0 && curr < b
    ensures !Walks(m, curr, prev, b, r, n)
    decreases n
  {
    if n > 0 { StuckAtZero(m, curr, curr, b, r, n - 1); }
  }

  lemma NotInHeader(h: Heap, ps: nat, a: int)
    requires Tiled(h) && ps % 8 == 0 && a in h.starts && ps != a
    ensures h.Has(a) && ps != a + FREE && ps != a + PREV
  {
    TiledBlock(h, a);
  }

  /** Storing 0 at an address that holds neither a header nor a link of a free block. */
  lemma ZeroElsewhere(h: Heap, ps: nat)
    requires HeapOk(h, {}) && ps % 8 == 0 && ps < |h.mem| && ps !in h.starts
    requires forall f | f in h.list :: ps != f + NEXT
    ensures SameHeap(h, h.mem[ps := 0])
  {
    hide Tiled, BlockOk;
    var h' := h.(mem := h.mem[ps := 0]);
    forall a | a in h.starts ensures h.Has(a) && ps != a + FREE && ps != a + PREV { NotInHeader(h, ps, a); }
    SameBlocks(h, h');
    forall i | 0 <= i < |h.list| ensures LinkOk(h', i) {
      assert LinkOk(h, i) && h.list[i] in h.list;
    }
  }

  /** The walk is misled by a stale word 0 at the start of the page ... */
  lemma MisledByZero(h: Heap, b: int, c: int)
    requires HeapOk(h, {}) && b in h.starts && PageBase(b) !in h.starts && c in h.starts && h.Has(c) && h.Has(b)
    requires c <= PageBase(b) < h.End(c) && !(c in h.list && PageBase(b) == c + NEXT)
    ensures PageBase(b) < |h.mem| && SameHeap(h, h.mem[PageBase(b) := 0]) && !FindsPredecessor(h, h.mem[PageBase(b) := 0], b)
  {
    hide Tiled, Linked, Flagged, BlockOk, SameHeap;
    TiledBlock(h, b);
    var ps := PageBase(b);
    var m := h.mem[ps := 0];
    forall f | f in h.list ensures ps != f + NEXT {
      if ps == f + NEXT { InsideFree(h, f, c, ps); }
    }
    ZeroElsewhere(h, ps);
    forall r, n: nat ensures !Walks(m, ps, 0, b, r, n) { StuckAtZero(m, ps, 0, b, r, n); }
  }

  /** ... or by the link word of a free block there. */
  lemma MisledByLink(h: Heap, b: int, c: int)
    requires HeapOk(h, {}) && b in h.starts && PageBase(b) !in h.starts && h.Has(b)
    requires c in h.list && PageBase(b) == c + NEXT
    ensures !FindsPredecessor(h, h.mem, b)
  {
    NextIsAddress(h, c);
    hide Tiled, Linked, Flagged, BlockOk;
    var ps := PageBase(b);
    if h.mem[ps] == 0 {
      forall r, n: nat ensures !Walks(h.mem, ps, 0, b, r, n) { StuckAtZero(h.mem, ps, 0, b, r, n); }
    } else {
      forall r, n: nat | Walks(h.mem, ps, 0, b, r, n) ensures r == ps {
        assert n > 0 && Walks(h.mem, Wrap(ps + h.mem[ps]), ps, b, r, n - 1);
        assert Wrap(ps + h.mem[ps]) >= b;
      }
    }
  }

  /** If b's page does not start with a block, some contents of the heap mislead the walk. */
  lemma WalkMisled(h: Heap, b: int) returns (m: seq<Word>)
    requires HeapOk(h, {}) && b in h.starts && PageBase(b) !in h.starts
    ensures SameHeap(h, m) && !FindsPredecessor(h, m, b)
  {
    TiledBlock(h, b);
    var s :| s in h.spans && s.lo <= b && h.End(b) <= s.hi;
    assert SpanOk(h, s);
    var c := Covering(h, s, s.lo, PageBase(b));
    hide Tiled, Linked, Flagged, BlockOk;
    if c in h.list && PageBase(b) == c + NEXT {
      m := h.mem;
      assert h.(mem := m) == h;
      MisledByLink(h, b, c);
    } else {
      m := h.mem[PageBase(b) := 0];
      MisledByZero(h, b, c);
    }
  }

  lemma NextIsAddress(h: Heap, c: int)
    requires Linked(h) && c in h.list
    ensures h.Has(c) && (h.mem[c + NEXT] == 0 || MANAGED_BASE <= h.mem[c + NEXT] < |h.mem|)
  {
    var i :| 0 <= i < |h.list| && h.list[i] == c;
    Neighbours(h, i);
  }

  lemma InsideFree(h: Heap, f: int, c: int, ps: int)
    requires Tiled(h) && Linked(h) && f in h.list && c in h.starts && h.Has(c) && c <= ps < h.End(c) && ps == f + NEXT
    ensures f == c
  {
    var i :| 0 <= i < |h.list| && h.list[i] == f;
    StartOf(h, i);
    TiledBlock(h, f);
    if f < c { TiledPrecedes(h, f, c); } else if c < f { TiledPrecedes(h, c, f); }
  }

  /** The backward walk of `kfree` finds the block before b, whatever the heap's clients and
      former clients have left in memory, exactly if b's page starts with a block. */
  lemma BackwardWalkSound(h: Heap, b: int)
    requires HeapOk(h, {}) && b in h.starts && b % PAGE_SIZE != 0
    ensures PageBase(b) in h.starts <==> forall m | SameHeap(h, m) :: FindsPredecessor(h, m, b)
  {
    TiledBlock(h, b);
    if PageBase(b) in h.starts {
      forall m | SameHeap(h, m) ensures FindsPredecessor(h, m, b) {
        var h' := h.(mem := m);
        var n := WalkFromStart(h', PageBase(b), 0, b);
        var p := WalkPrev(h', PageBase(b), b);
        TiledBlock(h, p);
        assert Walks(m, Wrap(PageBase(b)), 0, b, p, n);
      }
    } else {
      var m := WalkMisled(h, b);
    }
  }

  // ----- requests -----

  /** The block size that `kmalloc(size)` looks for; both additions wrap. */
  function Needed(size: Word): Word {
    var aligned := Wrap(size + 7) / 8 * 8;
    var needed := Wrap(aligned + HEADER_SIZE);
    if needed < MIN_BLOCK_SIZE then MIN_BLOCK_SIZE else needed
  }

  /** A block of the computed size holds the request exactly for requests up to 2^32 - 16 bytes:
      beyond that the additions wrap and `kmalloc` returns a block of 16 bytes. */
  lemma NeededHoldsRequest(size: Word)
    ensures Needed(size) % 8 == 0 && MIN_BLOCK_SIZE <= Needed(size)
    ensures Needed(size) - HEADER_SIZE >= size <==> size <= TWO_TO_32 - 16
    ensures size <= TWO_TO_32 - 16 ==> Needed(size) == MIN_BLOCK_SIZE || Needed(size) - HEADER_SIZE < size + 8
  {
  }

  /** The answer to a request: a new live block, 8-aligned, big enough, away from all others,
      which keep their contents. */
  lemma MallocOk(h: Heap, size: Word, a: int)
    requires HeapOk(h, {}) && FirstFit(h, Needed(size), 0) < |h.list|
    requires h.IsLive(a)
    ensures var i := FirstFit(h, Needed(size), 0);
            && Needed(size) % 8 == 0 && MIN_BLOCK_SIZE <= Needed(size)
            && var h', b := Carve(h, i, Needed(size)), h.list[i];
            && HeapOk(h', {}) && h'.IsLive(b) && a != b && (b + HEADER_SIZE) % 8 == 0
            && Needed(size) <= h'.mem[b]
            && h.Has(a) && KeepsBlock(h, h', a) && (h'.End(b) <= a || h'.End(a) <= b)
  {
    hide Needed, FirstFit, Carve, Tiled, Linked, Flagged;
    NeededHoldsRequest(size);
    var i := FirstFit(h, Needed(size), 0);
    CarveOk(h, i, Needed(size));
    CarveKeepsLive(h, i, Needed(size), a);
    var h', b := Carve(h, i, Needed(size)), h.list[i];
    TiledBlock(h', b);
    if a < b { TiledPrecedes(h', a, b); } else { TiledPrecedes(h', b, a); }
  }

  // ----- every run -----

  /** What the kernel does with its heap.  `kmalloc` is a number of expansions, each from a
      heap in which no free block fits, followed by Malloc. */
  datatype HeapOp =
    | Malloc(size: Word)
    | Expand(s: Span)
    | Free(b: int)
    | Write(k: nat, v: Word)     // a client stores into its payload

  ghost predicate Enabled(h: Heap, op: HeapOp) {
    match op
    case Malloc(size) => true
    case Expand(s) => NewSpan(h, s)
    case Free(b) => CanFree(h, b)
    case Write(k, v) => exists a :: InPayload(h, a, k)
  }

  ghost predicate InPayload(h: Heap, a: int, k: int) {
    h.IsLive(a) && h.Has(a) && a + HEADER_SIZE <= k < h.End(a)
  }

  ghost function Step(h: Heap, op: HeapOp): Heap
    requires HeapOk(h, {}) && Enabled(h, op)
  {
    match op
    case Malloc(size) =>
      NeededHoldsRequest(size);
      var i := FirstFit(h, Needed(size), 0);
      if i == |h.list| then h else Carve(h, i, Needed(size))
    case Expand(s) => HeadOk(h); Grow(h, s)
    case Free(b) => Release(h, b)
    case Write(k, v) => if k < |h.mem| then h.(mem := h.mem[k := v]) else h
  }

  /** `kmalloc`, exactly: of the first free block that is big enough the rest takes the place in the
      free list if it can hold a block of its own, and otherwise the whole block is handed out. */
  lemma MallocExactly(h: Heap, size: Word)
    requires HeapOk(h, {})
    ensures var h', n, i := Step(h, Malloc(size)), Needed(size), FirstFit(h, Needed(size), 0);
            if i == |h.list| then h' == h && forall x | x in h.list :: h.Has(x) && h.mem[x] < n
            else
              var b := h.list[i];
              && h.Has(b) && |h'.mem| == |h.mem| && n <= h.mem[b] && (forall k | 0 <= k < i :: h.Has(h.list[k]) && h.mem[h.list[k]] < n)
              && if h.mem[b] < n + MIN_BLOCK_SIZE then h'.starts == h.starts && h'.list == Without(h.list, i)
                 else h'.starts == h.starts + {b + n} && h'.list == h.list[i := b + n] && h'.mem[b] == n
  {
    NeededHoldsRequest(size);
    var n, i := Needed(size), FirstFit(h, Needed(size), 0);
    hide HeapOk, Needed, FirstFit, Carve;
    if i < |h.list| { CarveExactly(h, i, n); }
  }

  lemma CarveExactly(h: Heap, i: nat, n: Word)
    requires HeapOk(h, {}) && i < |h.list| && h.Has(h.list[i]) && n <= h.mem[h.list[i]] && n % 8 == 0 && MIN_BLOCK_SIZE <= n
    ensures var h', b := Carve(h, i, n), h.list[i];
            && |h'.mem| == |h.mem|
            && if h.mem[b] < n + MIN_BLOCK_SIZE then h'.starts == h.starts && h'.list == Without(h.list, i)
               else h'.starts == h.starts + {b + n} && h'.list == h.list[i := b + n] && h'.mem[b] == n
  {
    hide Tiled, Linked, Flagged, Split, Remove;
    var b := h.list[i];
    Neighbours(h, i);
    TiledBlock(h, b);
    if MIN_BLOCK_SIZE <= h.mem[b] - n {
      StartOf(h, i);
      SplitShape(h, i, n);
      SplitWords(h, i, n, b, 0);
    } else {
      RemovedShape(h, i);
    }
  }

  lemma RemovedShape(h: Heap, i: nat)
    requires i < |h.list| && LinkOk(h, i) && (i > 0 ==> LinkOk(h, i - 1)) && (i + 1 < |h.list| ==> LinkOk(h, i + 1))
    ensures Remove(h, i).starts == h.starts && Remove(h, i).list == Without(h.list, i) && |Remove(h, i).mem| == |h.mem|
  {
  }

  lemma WriteKeeps(h: Heap, a: int, k: nat, v: Word, x: int)
    requires HeapOk(h, {}) && InPayload(h, a, k) && x in h.starts
    ensures k < |h.mem| && h.Has(x) && k != x && k != x + FREE
    ensures x in h.list ==> k != x + NEXT && k != x + PREV
  {
    TiledBlock(h, a);
    TiledBlock(h, x);
    if x != a { InsideApart(h, a, k, x); }
  }

  lemma WriteOk(h: Heap, a: int, k: nat, v: Word)
    requires HeapOk(h, {}) && InPayload(h, a, k)
    ensures k < |h.mem| && HeapOk(h.(mem := h.mem[k := v]), {})
  {
    hide Tiled, BlockOk, InPayload;
    assert a in h.starts by { PayloadOfStart(h, a, k); }
    WriteKeeps(h, a, k, v, a);
    var h' := h.(mem := h.mem[k := v]);
    forall x | x in h.starts ensures h.Has(x) && k != x && k != x + FREE { WriteKeeps(h, a, k, v, x); }
    SameBlocks(h, h');
    forall i | 0 <= i < |h.list| ensures LinkOk(h', i) {
      assert LinkOk(h, i) && h.list[i] in h.list;
      WriteKeeps(h, a, k, v, h.list[i]);
    }
  }

  lemma PayloadOfStart(h: Heap, a: int, k: int)
    requires InPayload(h, a, k)
    ensures a in h.starts
  {
  }

  lemma StepOk(h: Heap, op: HeapOp)
    requires HeapOk(h, {}) && Enabled(h, op)
    ensures HeapOk(Step(h, op), {})
  {
    hide Tiled, Linked, Flagged, Carve, Grow, Release, Needed;
    match op
    case Malloc(size) =>
      NeededHoldsRequest(size);
      var i := FirstFit(h, Needed(size), 0);
      if i < |h.list| { CarveOk(h, i, Needed(size)); }
    case Expand(s) => GrowOk(h, s);
    case Free(b) => ReleaseOk(h, b);
    case Write(k, v) =>
      var a :| InPayload(h, a, k);
      WriteOk(h, a, k, v);
  }

  /** One step keeps a live block that it does not free, and all its words but a written one. */
  lemma StepKeepsLive(h: Heap, op: HeapOp, a: int, k: int)
    requires HeapOk(h, {}) && Enabled(h, op) && h.IsLive(a) && h.Has(a) && a <= k < h.End(a)
    requires op != Free(a) && !(op.Write? && op.k == k)
    ensures var h' := Step(h, op);
            h'.IsLive(a) && h'.Has(a) && |h'.mem| == |h.mem| && h.End(a) <= |h.mem| && h'.End(a) == h.End(a) && h'.mem[k] == h.mem[k]
  {
    hide Tiled, Linked, Flagged, Carve, Grow, Release, Needed;
    TiledBlock(h, a);
    match op
    case Malloc(size) =>
      NeededHoldsRequest(size);
      var i := FirstFit(h, Needed(size), 0);
      if i < |h.list| { CarveKeepsLive(h, i, Needed(size), a); }
    case Expand(s) => HeadOk(h); GrowKeepsLive(h, s, a);
    case Free(b) => ReleaseKeepsLive(h, b, a);
    case Write(j, v) =>
      var c :| InPayload(h, c, j);
      WriteKeeps(h, c, j, v, a);
  }

  /** The heap after a run; None when a step is not enabled. */
  ghost function Run(h: Heap, ops: seq<HeapOp>): (r: Option<Heap>)
    requires HeapOk(h, {})
    ensures r.Some? ==> HeapOk(r.value, {})
    decreases |ops|
  {
    if ops == [] then Some(h)
    else if !Enabled(h, ops[0]) then None
    else
      StepOk(h, ops[0]);
      Run(Step(h, ops[0]), ops[1..])
  }

  /** Over every run a live block keeps its size and its contents until it is freed, except for
      the words its owner stores. */
  lemma {:induction false} RunKeepsLive(h: Heap, ops: seq<HeapOp>, a: int, k: int)
    requires HeapOk(h, {}) && Run(h, ops).Some? && h.IsLive(a) && h.Has(a) && a <= k < h.End(a)
    requires Free(a) !in ops && forall v :: Write(k, v) !in ops
    ensures var h' := Run(h, ops).value;
            && h'.IsLive(a) && h'.Has(a) && h.End(a) <= |h.mem| == |h'.mem|
            && h'.End(a) == h.End(a) && h'.mem[k] == h.mem[k]
    decreases |ops|
  {
    TiledBlock(h, a);
    if ops != [] {
      hide HeapOk, Step;
      StepOk(h, ops[0]);
      StepKeepsLive(h, ops[0], a, k);
      RunKeepsLive(Step(h, ops[0]), ops[1..], a, k);
    }
  }

  /** A request that cuts the only free block. */
  lemma MallocFromSingle(h: Heap, b: int, size: Word)
    requires HeapOk(h, {}) && h.list == [b] && h.Has(b) && Needed(size) + MIN_BLOCK_SIZE <= h.mem[b]
    ensures var h', r := Step(h, Malloc(size)), b + Needed(size);
            && h'.starts == h.starts + {r} && h'.list == [r] && h'.spans == h.spans && h'.IsLive(b)
            && h'.Has(r) && h'.mem[r] == h.mem[b] - Needed(size)
  {
    hide Tiled, Linked, Flagged, Needed;
    NeededHoldsRequest(size);
    assert FirstFit(h, Needed(size), 0) == 0;
    CarveOk(h, 0, Needed(size));
    Neighbours(h, 0);
    TiledBlock(h, b);
    SplitRest(h, 0, Needed(size));
    TiledBlock(h, b);
  }

  /** The page condition of `kfree` is not automatic: on a heap that gets its first 16 pages,
      kmalloc(5000) and then kmalloc(16) give a block whose page does not start with a block. */
  lemma SecondBlockNotFreeable(h: Heap, s: Span)
    requires HeapOk(h, {}) && h.list == [] && NewSpan(h, s) && s.hi == s.lo + 16 * PAGE_SIZE
    requires h.starts == {}
    ensures var h1 := Step(h, Expand(s));
            && HeapOk(h1, {})
            && var h2 := Step(h1, Malloc(5000));
            && HeapOk(h2, {})
            && var h3 := Step(h2, Malloc(16));
            && HeapOk(h3, {}) && h3.IsLive(s.lo + 5008) && PageBase(s.lo + 5008) !in h3.starts && |h3.list| == 1
            && !(forall m | SameHeap(h3, m) :: FindsPredecessor(h3, m, s.lo + 5008))
  {
    hide Tiled, Linked, Flagged, Split, Carve;
    HeadOk(h);
    GrowOk(h, s);
    var h1 := Step(h, Expand(s));
    FirstSpan(h, s);
    MallocFromSingle(h1, s.lo, 5000);
    StepOk(h1, Malloc(5000));
    var h2 := Step(h1, Malloc(5000));
    MallocFromSingle(h2, s.lo + 5008, 16);
    StepOk(h2, Malloc(16));
    var h3 := Step(h2, Malloc(16));
    assert PageBase(s.lo + 5008) == s.lo + 4096;
    BackwardWalkSound(h3, s.lo + 5008);
  }

  lemma FirstSpan(h: Heap, s: Span)
    requires HeapOk(h, {}) && h.list == [] && NewSpan(h, s) && h.starts == {}
    ensures var h1 := Step(h, Expand(s));
            h1.starts == {s.lo} && h1.list == [s.lo] && h1.spans == h.spans + [s] && h1.Has(s.lo) && h1.mem[s.lo] == s.hi - s.lo
  {
  }
}
