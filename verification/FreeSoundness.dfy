/** When `kfree` is sound: the exact condition, over everything that clients may have left in memory. */
module FreeSoundness {
  import opened Words
  import opened PageRuns
  import opened HeapState
  import opened HeapRuns
  import opened Options

  // ----- `kfree` on memory alone -----

  /** What `kfree` leaves when the walk has ended at prev, 0 standing for no walk. */
  ghost predicate Ends(h: Heap, b: int, prev: int, mem: seq<Word>, head: Word)
    requires HeapOk(h, {b})
  {
    TiledBlock(h, b);
    HeadOk(h);
    if 0 < prev < b && h.mem[prev + FREE] != 0 then
      mem == h.mem[prev := Wrap(h.End(prev) - prev + h.mem[b])] && head == h.head
    else
      mem == Insert(h, b).mem && head == Insert(h, b).head
  }

  /** `kfree` of live block b comes to an end with these words and this list head. */
  ghost predicate KfreeGives(h: Heap, b: int, mem: seq<Word>, head: Word)
    requires HeapOk(h, {}) && h.IsLive(b)
  {
    if b == PageBase(b) then Ends(Merged(h, b), b, 0, mem, head)
    else exists prev, n: nat :: Walks(Merged(h, b).mem, Wrap(PageBase(b)), 0, b, prev, n) && Ends(Merged(h, b), b, prev, mem, head)
  }

  /** Some tiling of the spans and some list make these words a heap. */
  ghost predicate IsHeap(mem: seq<Word>, head: Word, spans: seq<Span>) {
    exists starts, list :: HeapOk(Heap(mem, head, starts, list, spans), {})
  }

  /** `kfree` of b comes to an end and leaves a heap. */
  ghost predicate FreesWell(h: Heap, b: int) {
    HeapOk(h, {}) && h.IsLive(b) && exists mem, head :: KfreeGives(h, b, mem, head) && IsHeap(mem, head, h.spans)
  }

  ghost function With(h: Heap, m: seq<Word>): Heap {
    h.(mem := m)
  }

  // ----- the contents do not matter for the first half -----

  lemma SameBlock(h: Heap, m: seq<Word>, a: int)
    requires HeapOk(h, {}) && SameHeap(h, m) && a in h.starts
    ensures h.Has(a) && |m| == |h.mem| && m[a] == h.mem[a] && m[a + FREE] == h.mem[a + FREE]
  {
    TiledBlock(h, a);
  }

  lemma MergedIs(h: Heap, b: int)
    requires HeapOk(h, {}) && h.IsLive(b)
    ensures h.Has(b)
    ensures var c := h.End(b);
            if c < PageBase(b) + PAGE_SIZE then
              && c in h.starts && h.Has(c) && c != b
              && (if h.mem[c + FREE] == 1 then
                    c in h.list && Merged(h, b).list == Without(h.list, IndexOf(h.list, c)) && Merged(h, b).starts == h.starts - {c}
                  else Merged(h, b).list == h.list && Merged(h, b).starts == h.starts)
            else Merged(h, b).list == h.list && Merged(h, b).starts == h.starts
  {
    TiledBlock(h, b);
    SetFlagOk(h, b, 1, {});
    assert {} + {b} == {b};
    var c := h.End(b);
    if c < PageBase(b) + PAGE_SIZE {
      NextInPage(h, b, b);
      TiledBlock(h, c);
      Apart(h, b, c);
      ListedIfFree(h, c);
    }
    hide HeapOk, Tiled, Linked, Flagged, BlockOk;
  }

  lemma ListedIfFree(h: Heap, c: int)
    requires HeapOk(h, {}) && c in h.starts
    ensures h.Has(c) && (h.mem[c + FREE] == 1 <==> c in h.list)
  {
  }

  lemma SameMerge(h: Heap, m: seq<Word>, b: int)
    requires HeapOk(h, {}) && SameHeap(h, m) && h.IsLive(b)
    ensures With(h, m).IsLive(b)
    ensures Merged(With(h, m), b).list == Merged(h, b).list && Merged(With(h, m), b).starts == Merged(h, b).starts
    ensures CanFree(With(h, m), b) <==> CanFree(h, b)
  {
    hide HeapOk, Merged;
    SameBlock(h, m, b);
    MergedIs(h, b);
    MergedIs(With(h, m), b);
    if h.End(b) < PageBase(b) + PAGE_SIZE { SameBlock(h, m, h.End(b)); }
  }

  // ----- where the condition holds -----

  lemma FlagOf(h: Heap, b: int, p: int)
    requires HeapOk(h, {b}) && p in h.starts
    ensures h.Has(p) && (h.mem[p + FREE] == 0 || h.mem[p + FREE] == 1)
  {
  }

  lemma ReleaseEnds(h: Heap, b: int, prev: int)
    requires CanFree(h, b)
    requires var h2 := Merged(h, b);
             if PageBase(b) == b then prev == 0
             else if PageBase(b) in h2.starts then prev == WalkPrev(h2, PageBase(b), b)
             else prev == PageBase(b)
    ensures Ends(Merged(h, b), b, prev, Release(h, b).mem, Release(h, b).head)
  {
    hide Merged, HeapOk, Tiled, Linked, Flagged, BlockOk;
    var h2 := Merged(h, b);
    PendingBlock(h2, b);
    if PageBase(b) != b && PageBase(b) in h2.starts {
      FlagOf(h2, b, prev);
    } else if PageBase(b) != b {
      Neighbours(h2, 0);
    }
  }

  lemma FreesWellIf(h: Heap, b: int)
    requires CanFree(h, b)
    ensures FreesWell(h, b)
  {
    var h' := Release(h, b);
    ReleaseOk(h, b);
    hide HeapOk, Release, KfreeGives;
    ReleaseIsGiven(h, b);
    assert h' == Heap(h'.mem, h'.head, h'.starts, h'.list, h.spans);
    assert IsHeap(h'.mem, h'.head, h.spans);
  }

  lemma ReleaseIsGiven(h: Heap, b: int)
    requires CanFree(h, b)
    ensures KfreeGives(h, b, Release(h, b).mem, Release(h, b).head)
  {
    hide HeapOk, Merged, Release, Ends, BlockOk, Tiled, Walks;
    MergedFacts(h, b);
    var h2 := Merged(h, b);
    var ps := PageBase(b);
    if ps == b {
      ReleaseEnds(h, b, 0);
    } else if ps in h2.starts {
      ReleaseEnds(h, b, WalkPrev(h2, ps, b));
      var n := WalkFromStart(h2, ps, 0, b);
      assert Wrap(ps) == ps;
    } else {
      ReleaseEnds(h, b, ps);
      OneRound(h2, b);
    }
  }

  lemma MergedFacts(h: Heap, b: int)
    requires CanFree(h, b)
    ensures HeapOk(h, {}) && h.IsLive(b) && PageOk(Merged(h, b), b)
    ensures var h2 := Merged(h, b); Tiled(h2) && b in h2.starts && h2.Has(b) && |h2.mem| == USER_MEM_START
  {
    TiledBlock(Merged(h, b), b);
  }

  lemma OneRound(h: Heap, b: int)
    requires HeapOk(h, {b}) && LinkAtPage(h, b) && PageBase(b) < b
    ensures Walks(h.mem, Wrap(PageBase(b)), 0, b, PageBase(b), 1)
  {
    Neighbours(h, 0);
    Neighbours(h, 1);
    TiledBlock(h, b);
    var ps := PageBase(b);
    assert Wrap(ps) == ps && Wrap(ps + h.mem[ps]) == ps + h.mem[ps] >= b;
    assert Walks(h.mem, Wrap(ps + h.mem[ps]), ps, b, ps, 0);
  }

  // ----- where it fails: the walk does not end -----

  lemma RemoveKeepsWord(h: Heap, i: nat, k: nat)
    requires Linked(h) && i < |h.list| && k < |h.mem| && Unused(h, k)
    requires LinkOk(h, i) && (i > 0 ==> LinkOk(h, i - 1)) && (i + 1 < |h.list| ==> LinkOk(h, i + 1))
    ensures |Remove(h, i).mem| == |h.mem| && Remove(h, i).mem[k] == h.mem[k]
  {
    Neighbours(h, i);
    if i > 0 { NextInList(h, i - 1); }
    if i + 1 < |h.list| { NextInList(h, i + 1); }
  }

  lemma MergedKeepsWord(h: Heap, b: int, k: nat)
    requires HeapOk(h, {}) && h.IsLive(b) && k < |h.mem| && Unused(h, k)
    ensures Merged(h, b).mem[k] == h.mem[k]
  {
    SetFlagOk(h, b, 1, {});
    assert {} + {b} == {b};
    var h1 := SetFlag(h, b, 1);
    TiledBlock(h1, b);
    var c := h1.End(b);
    if c < PageBase(b) + PAGE_SIZE {
      NextInPage(h1, b, b);
      TiledBlock(h1, c);
      if h1.mem[c + FREE] == 1 {
        var i := IndexOf(h1.list, c);
        Neighbours(h1, i);
        hide Tiled, Flagged, BlockOk;
        RemoveKeepsWord(h1, i, k);
      }
    }
  }

  /** With a 0 where the walk starts, `kfree` does not come to an end. */
  lemma NeverEnds(h: Heap, b: int)
    requires HeapOk(h, {}) && h.IsLive(b) && PageBase(b) < b && 0 <= PageBase(b) < |h.mem| && Merged(h, b).mem[PageBase(b)] == 0
    ensures !FreesWell(h, b)
  {
    hide Merged, Ends, HeapOk;
    var ps := PageBase(b);
    assert Wrap(ps) == ps by { MergedInMemory(h, b); }
    forall prev, n: nat ensures !Walks(Merged(h, b).mem, Wrap(ps), 0, b, prev, n) {
      StuckAtZero(Merged(h, b).mem, ps, 0, b, prev, n);
    }
  }

  lemma MergedInMemory(h: Heap, b: int)
    requires HeapOk(h, {}) && h.IsLive(b)
    ensures h.Has(b) && |Merged(h, b).mem| == |h.mem| == USER_MEM_START
  {
    TiledBlock(h, b);
  }

  // ----- where it fails: the walk takes a link for a size -----

  /** From a block of both tilings the blocks up to a are the same. */
  lemma {:induction false} SameWalk(g: Heap, h: Heap, s: Span, from: int, a: int)
    requires Tiled(g) && Tiled(h) && g.spans == h.spans && s in g.spans
    requires forall x | x in g.starts && 0 <= x < |g.mem| :: h.mem[x] == g.mem[x]
    requires from in g.starts && from in h.starts && s.lo <= from <= a < s.hi && (a in g.starts || a in h.starts)
    ensures a in g.starts && a in h.starts
    decreases a - from
  {
    if from < a {
      TiledBlock(g, from);
      TiledBlock(h, from);
      if a in g.starts { TiledPrecedes(g, from, a); } else { TiledPrecedes(h, from, a); }
      NotAnEnd(g, s, g.End(from));
      NotAnEnd(h, s, h.End(from));
      hide Tiled;
      SameWalk(g, h, s, g.End(from), a);
    }
  }

  /** The spans and the size words determine the blocks. */
  lemma StartsUnique(g: Heap, h: Heap)
    requires Tiled(g) && Tiled(h) && g.spans == h.spans
    requires forall x | x in g.starts && 0 <= x < |g.mem| :: h.mem[x] == g.mem[x]
    ensures g.starts == h.starts
  {
    forall a | a in g.starts || a in h.starts ensures a in g.starts && a in h.starts {
      var k := if a in g.starts then g else h;
      TiledBlock(k, a);
      var s :| s in k.spans && s.lo <= a && k.End(a) <= s.hi;
      assert SpanOk(g, s) && SpanOk(h, s);
      hide Tiled;
      SameWalk(g, h, s, s.lo, a);
    }
  }

  /** Lists that are threaded through the same words up to position i agree up to there. */
  lemma {:induction false} SamePrefix(g: Heap, h: Heap, i: nat)
    requires Linked(g) && Linked(h) && g.head == h.head && |g.mem| == |h.mem| && i < |g.list|
    requires forall k | 0 <= k < i :: g.Has(g.list[k]) && h.mem[g.list[k] + NEXT] == g.mem[g.list[k] + NEXT]
    ensures i < |h.list| && forall k | 0 <= k <= i :: h.list[k] == g.list[k]
  {
    assert LinkOk(g, i);
    if i > 0 {
      SamePrefix(g, h, i - 1);
      assert LinkOk(g, i - 1) && LinkOk(h, i - 1);
    }
  }

  /** g with the link of its i-th free block changed by the size of b. */
  ghost predicate BrokenLink(g: Heap, b: int, i: nat, h: Heap) {
    && HeapOk(g, {b}) && 0 < i && i + 1 < |g.list| && g.Has(g.list[i]) && g.Has(b) && g.mem[b + PREV] == 0
    && (var k := g.list[i] + NEXT; h.mem == g.mem[k := Wrap(g.End(k) - k + g.mem[b])])
    && h.head == g.head && h.spans == g.spans
  }

  lemma BrokenWords(g: Heap, b: int, i: nat, h: Heap, x: int)
    requires BrokenLink(g, b, i, h) && x in g.starts
    ensures g.Has(x) && |h.mem| == |g.mem| && h.mem[x] == g.mem[x] && h.mem[x + FREE] == g.mem[x + FREE] && h.mem[x + PREV] == g.mem[x + PREV]
    ensures x != g.list[i] ==> h.mem[x + NEXT] == g.mem[x + NEXT]
  {
    StartOf(g, i);
    TiledBlock(g, x);
    hide Tiled, Linked, Flagged, BlockOk;
    if x != g.list[i] { Apart(g, x, g.list[i]); }
  }

  /** Such words are no heap: b would have to stand in the list after that block, and nothing can
      stand there. */
  lemma BrokenPrefix(g: Heap, b: int, i: nat, h: Heap)
    requires BrokenLink(g, b, i, h) && HeapOk(h, {})
    ensures h.starts == g.starts && i < |h.list| && forall k | 0 <= k <= i :: h.list[k] == g.list[k]
  {
    assert Tiled(g) && Tiled(h) && Linked(g) && Linked(h);
    forall x | x in g.starts ensures |h.mem| == |g.mem| && h.mem[x] == g.mem[x] { BrokenWords(g, b, i, h, x); }
    forall k | 0 <= k < i ensures g.Has(g.list[k]) && h.mem[g.list[k] + NEXT] == g.mem[g.list[k] + NEXT] {
      StartOf(g, k);
      BrokenWords(g, b, i, h, g.list[k]);
    }
    hide HeapOk, Tiled, Linked, BrokenLink;
    StartsUnique(g, h);
    assert |h.mem| == |g.mem| && h.head == g.head && i < |g.list| by { BrokenShape(g, b, i, h); }
    SamePrefix(g, h, i);
  }

  lemma BrokenShape(g: Heap, b: int, i: nat, h: Heap)
    requires BrokenLink(g, b, i, h)
    ensures |h.mem| == |g.mem| && h.head == g.head && h.spans == g.spans && i + 1 < |g.list|
  {
  }

  /** The block after the i-th one would have to be b or the old one. */
  lemma AfterBroken(g: Heap, b: int, i: nat, h: Heap)
    requires BrokenLink(g, b, i, h) && HeapOk(h, {}) && i + 1 < |h.list|
    ensures h.list[i + 1] == g.list[i + 1]
  {
    BrokenPrefix(g, b, i, h);
    var x := h.list[i + 1];
    assert LinkOk(h, i + 1);
    BrokenWords(g, b, i, h, x);
    StartOf(g, i);
    assert h.mem[x + FREE] == 1 by { assert x in h.list; }
    assert x in g.list || x == b;
    assert x != b by { TiledBlock(g, g.list[i]); }
    hide Tiled, BlockOk, Flagged;
    var j :| 0 <= j < |g.list| && g.list[j] == x;
    Neighbours(g, j);
    Position(g, i, j - 1);
  }

  lemma BrokenList(g: Heap, b: int, i: nat, h: Heap)
    requires BrokenLink(g, b, i, h) && HeapOk(h, {})
    ensures i + 1 < |h.list| && h.mem[g.list[i] + NEXT] == h.list[i + 1]
  {
    BrokenPrefix(g, b, i, h);
    BrokenWords(g, b, i, h, b);
    assert b in h.list;
    forall k | 0 <= k <= i ensures h.list[k] != b { assert g.list[k] in g.list; }
    var j :| 0 <= j < |h.list| && h.list[j] == b;
    Neighbours(h, i);
  }

  lemma BrokenIsNoHeap(g: Heap, b: int, i: nat, h: Heap)
    requires BrokenLink(g, b, i, h)
    ensures !HeapOk(h, {})
  {
    Neighbours(g, i);
    TiledBlock(g, b);
    var n: int, size: int := g.mem[g.list[i] + NEXT], g.mem[b];
    assert Wrap(n + size) != n;
    if HeapOk(h, {}) {
      hide Tiled, Linked, Flagged;
      AfterBroken(g, b, i, h) by { BrokenList(g, b, i, h); }
      BrokenList(g, b, i, h);
      assert false;
    }
  }

  // ----- where it fails: the walk takes contents for a block -----

  /** h is g with a word changed that the heap does not look at, while b is marked free and not listed. */
  ghost predicate StoredElsewhere(g: Heap, b: int, k: nat, h: Heap) {
    && HeapOk(g, {b}) && k < |g.mem| == |h.mem| && Unused(g, k)
    && (forall x | 0 <= x < |g.mem| && x != k :: h.mem[x] == g.mem[x])
    && h.head == g.head && h.spans == g.spans
  }

  lemma ElsewhereWords(g: Heap, b: int, k: nat, h: Heap, x: int)
    requires StoredElsewhere(g, b, k, h) && x in g.starts
    ensures g.Has(x) && h.mem[x] == g.mem[x] && h.mem[x + FREE] == g.mem[x + FREE]
    ensures x in g.list ==> h.mem[x + NEXT] == g.mem[x + NEXT]
  {
    TiledBlock(g, x);
  }

  lemma ElsewhereStarts(g: Heap, b: int, k: nat, h: Heap)
    requires StoredElsewhere(g, b, k, h) && Tiled(h)
    ensures h.starts == g.starts
  {
    forall x | x in g.starts ensures g.Has(x) && h.mem[x] == g.mem[x] { ElsewhereWords(g, b, k, h, x); }
    Parts(g, {b});
    hide StoredElsewhere, HeapOk, Tiled;
    StartsUnique(g, h) by { ElsewhereShape(g, b, k, h); }
  }

  lemma ElsewhereShape(g: Heap, b: int, k: nat, h: Heap)
    requires StoredElsewhere(g, b, k, h)
    ensures |h.mem| == |g.mem| && h.head == g.head && h.spans == g.spans
  {
  }

  lemma ElsewhereOk(g: Heap, b: int, k: nat, h: Heap)
    requires StoredElsewhere(g, b, k, h)
    ensures HeapOk(g, {b})
  {
  }

  lemma HeadZero(h: Heap)
    requires Linked(h)
    ensures h.head == 0 <==> h.list == []
  {
    assert |h.list| > 0 ==> LinkOk(h, 0);
  }

  lemma ElsewhereList(g: Heap, b: int, k: nat, h: Heap)
    requires StoredElsewhere(g, b, k, h) && Linked(h)
    ensures h.list == g.list
  {
    hide HeapOk, Tiled, Flagged, Unused;
    Parts(g, {b}) by { ElsewhereOk(g, b, k, h); }
    ElsewhereShape(g, b, k, h);
    var n := |g.list|;
    forall i | 0 <= i < n ensures g.Has(g.list[i]) && h.mem[g.list[i] + NEXT] == g.mem[g.list[i] + NEXT] {
      StartOf(g, i);
      ElsewhereWords(g, b, k, h, g.list[i]);
    }
    hide StoredElsewhere;
    if n == 0 {
      HeadZero(g);
      HeadZero(h);
    } else {
      SamePrefix(g, h, n - 1);
      Neighbours(g, n - 1);
      Neighbours(h, n - 1);
    }
  }

  /** Such words are no heap: b is marked free, and no list contains it. */
  lemma LostIsNoHeap(g: Heap, b: int, k: nat, h: Heap)
    requires StoredElsewhere(g, b, k, h)
    ensures !HeapOk(h, {})
  {
    if HeapOk(h, {}) {
      ElsewhereStarts(g, b, k, h);
      ElsewhereList(g, b, k, h);
      ElsewhereWords(g, b, k, h, b);
      assert false;
    }
  }

  // ----- the condition before the call -----

  /** The block after b is free and will be joined with it. */
  ghost predicate JoinsAfter(h: Heap, b: int)
    requires HeapOk(h, {}) && h.IsLive(b)
  {
    TiledBlock(h, b);
    h.End(b) < PageBase(b) + PAGE_SIZE && h.End(b) in h.list
  }

  /** Without the block that b is about to be joined with, the list has two blocks or more, and the link
      of its first one is at the start of b's page. */
  ghost predicate LinkBefore(h: Heap, b: int)
    requires HeapOk(h, {}) && h.IsLive(b)
  {
    TiledBlock(h, b);
    if !JoinsAfter(h, b) then |h.list| >= 2 && h.list[0] + NEXT == PageBase(b)
    else |h.list| >= 3 && h.list[if h.list[0] == h.End(b) then 1 else 0] + NEXT == PageBase(b)
  }

  /** The condition of `kfree` as a caller can check it: the page starts with a block, or the list starts
      like that. */
  lemma CanFreeExactly(h: Heap, b: int)
    requires HeapOk(h, {}) && h.IsLive(b)
    ensures CanFree(h, b) <==> PageBase(b) in h.starts || LinkBefore(h, b)
  {
    MergedStarts(h, b);
    MergedIs(h, b);
    var c := h.End(b);
    if c < PageBase(b) + PAGE_SIZE { ListedIfFree(h, c); }
    hide HeapOk, Merged, IndexOf;
    if JoinsAfter(h, b) {
      var i := IndexOf(h.list, c);
      assert h.list[0] == c <==> i == 0 by { ListedOnce(h, i); }
    }
  }

  lemma ListedOnce(h: Heap, i: nat)
    requires HeapOk(h, {}) && i < |h.list|
    ensures h.list[0] == h.list[i] <==> i == 0
  {
  }

  // ----- the theorem -----

  /** `kfree` of a live block comes to an end and leaves a heap, whatever clients and former clients
      have left in memory, exactly under the page condition. */
  lemma FreeSoundExactly(h: Heap, b: int)
    requires HeapOk(h, {}) && h.IsLive(b)
    ensures CanFree(h, b) <==> forall m | SameHeap(h, m) :: FreesWell(With(h, m), b)
  {
    if CanFree(h, b) {
      forall m | SameHeap(h, m) ensures FreesWell(With(h, m), b) {
        SameMerge(h, m, b);
        FreesWellIf(With(h, m), b);
      }
    } else {
      var m := FreeMisled(h, b);
    }
  }

  lemma FreeMisled(h: Heap, b: int) returns (m: seq<Word>)
    requires HeapOk(h, {}) && h.IsLive(b) && !CanFree(h, b)
    ensures SameHeap(h, m) && !FreesWell(With(h, m), b)
  {
    MergedStarts(h, b);
    TiledBlock(h, b);
    var ps := PageBase(b);
    assert ps !in h.starts;
    hide Merged, SameHeap, CanFree;
    var c := PageBlock(h, b);
    hide Tiled, Linked, Flagged, BlockOk, HeapOk;
    if c in h.list && ps == c + NEXT {
      m := h.mem[b + PREV := 0];
      MisledByLinkWord(h, b, c, m);
    } else {
      m := h.mem[ps := 0];
      MisledByOldZero(h, b, c, m);
    }
  }

  /** The block that holds the start of b's page. */
  lemma PageBlock(h: Heap, b: int) returns (c: int)
    requires Tiled(h) && b in h.starts
    ensures c in h.starts && h.Has(c) && c <= PageBase(b) < h.End(c)
  {
    TiledBlock(h, b);
    var s :| s in h.spans && s.lo <= b && h.End(b) <= s.hi;
    assert SpanOk(h, s);
    hide Tiled, BlockOk;
    StartsBefore(s.lo, b);
    c := Covering(h, s, s.lo, PageBase(b));
  }

  lemma StartsBefore(lo: int, b: int)
    requires lo % PAGE_SIZE == 0 && lo <= b
    ensures lo <= PageBase(b) <= b
  {
    var q, r := lo / PAGE_SIZE, b / PAGE_SIZE;
    assert lo == PAGE_SIZE * q && b == PAGE_SIZE * r + b % PAGE_SIZE;
  }

  lemma MisledByOldZero(h: Heap, b: int, c: int, m: seq<Word>)
    requires HeapOk(h, {}) && h.IsLive(b) && PageBase(b) !in h.starts && c in h.starts && h.Has(c) && h.Has(b)
    requires c <= PageBase(b) < h.End(c) && !(c in h.list && PageBase(b) == c + NEXT)
    requires m == h.mem[PageBase(b) := 0]
    ensures SameHeap(h, m) && !FreesWell(With(h, m), b)
  {
    hide HeapOk, Merged, SameHeap, FreesWell, Unused, CanFree;
    PageAligned(b);
    OldZeroUnused(h, PageBase(b), c, m);
    SameMerge(h, m, b);
    MergedKeepsWord(With(h, m), b, PageBase(b));
    NeverEnds(With(h, m), b);
  }

  lemma PageAligned(b: int)
    ensures PageBase(b) % 8 == 0 && PageBase(b) <= b
  {
    var q := b / PAGE_SIZE;
    assert b == PAGE_SIZE * q + b % PAGE_SIZE;
    EightTimes(PageBase(b), 512 * q);
  }

  lemma EightTimes(x: int, y: int)
    requires x == 8 * y
    ensures x % 8 == 0
  {
  }

  /** Nothing of the heap's structure is at ps, which lies in block c. */
  lemma OldZeroUnused(h: Heap, ps: nat, c: int, m: seq<Word>)
    requires HeapOk(h, {}) && ps !in h.starts && c in h.starts && h.Has(c)
    requires ps % 8 == 0 && ps < |h.mem| && c <= ps < h.End(c) && !(c in h.list && ps == c + NEXT)
    requires m == h.mem[ps := 0]
    ensures SameHeap(h, m) && HeapOk(With(h, m), {}) && Unused(With(h, m), ps)
  {
    hide HeapOk, Tiled, Linked, Flagged, BlockOk, SameHeap, Unused;
    Parts(h, {});
    forall f | f in h.list ensures ps != f + NEXT {
      if ps == f + NEXT { InsideFree(h, f, c, ps); }
    }
    ZeroElsewhere(h, ps);
    PageUnused(h, ps);
    SameUnused(h, m, ps);
    SameHeapOk(h, m);
  }

  lemma PageUnused(h: Heap, ps: nat)
    requires Tiled(h) && Linked(h) && ps % 8 == 0 && ps !in h.starts && forall f | f in h.list :: ps != f + NEXT
    ensures Unused(h, ps)
  {
    hide Tiled, Linked;
    forall x | x in h.starts ensures ps != x + FREE && ps != x + PREV { NotInHeader(h, ps, x); }
    forall x | x in h.list ensures x in h.starts { ListedStart(h, x); }
  }

  lemma SameUnused(h: Heap, m: seq<Word>, k: int)
    requires Unused(h, k)
    ensures Unused(With(h, m), k)
  {
  }

  lemma SameHeapOk(h: Heap, m: seq<Word>)
    requires SameHeap(h, m)
    ensures HeapOk(With(h, m), {}) && |m| == |h.mem|
  {
  }

  lemma LastWordUnused(h: Heap, b: int)
    requires HeapOk(h, {}) && h.IsLive(b)
    ensures InPayload(h, b, b + PREV) && Unused(h, b + PREV)
  {
    TiledBlock(h, b);
    LiveUnlisted(h, b);
    forall x | x in h.starts ensures b + PREV != x && b + PREV != x + FREE { if x != b { Apart(h, x, b); } }
    forall x | x in h.list ensures b + PREV != x + NEXT && b + PREV != x + PREV {
      ListedStart(h, x);
      Apart(h, x, b);
    }
  }

  lemma MisledByLinkWord(h: Heap, b: int, c: int, m: seq<Word>)
    requires HeapOk(h, {}) && h.IsLive(b) && !CanFree(h, b) && PageBase(b) !in h.starts && h.Has(b)
    requires c in h.list && PageBase(b) == c + NEXT && m == h.mem[b + PREV := 0]
    ensures SameHeap(h, m) && !FreesWell(With(h, m), b)
  {
    hide Tiled, Linked, Flagged, BlockOk, Merged, Unused;
    LastWordUnused(h, b);
    WriteOk(h, b, b + PREV, 0);
    assert SameHeap(h, m) by { forall x | x in h.starts ensures b + PREV != x { WriteKeeps(h, b, b + PREV, 0, x); } }
    SameMerge(h, m, b);
    var hm := With(h, m);
    LastWordUnused(hm, b);
    MergedKeepsWord(hm, b, b + PREV);
    LinkMisleads(hm, b, c);
  }

  lemma StillListed(h: Heap, b: int, c: int) returns (i: nat)
    requires HeapOk(h, {}) && h.IsLive(b) && c in h.list && c < b
    ensures i < |Merged(h, b).list| && Merged(h, b).list[i] == c
  {
    hide HeapOk, Merged, IndexOf;
    MergedIs(h, b);
    var k :| 0 <= k < |h.list| && h.list[k] == c;
    i := k;
    var e := h.End(b);
    if e < PageBase(b) + PAGE_SIZE && h.mem[e + FREE] == 1 {
      var j := IndexOf(h.list, e);
      assert e > b by { EndBeyond(h, b); }
      if j < k { i := k - 1; }
    }
  }

  lemma EndBeyond(h: Heap, b: int)
    requires HeapOk(h, {}) && h.IsLive(b)
    ensures h.Has(b) && h.End(b) > b
  {
    TiledBlock(h, b);
  }

  /** The walk starts on the link word of free block c. */
  lemma LinkMisleads(h: Heap, b: int, c: int)
    requires HeapOk(h, {}) && h.IsLive(b) && !CanFree(h, b) && h.Has(b) && c in h.list && PageBase(b) == c + NEXT
    requires Merged(h, b).mem[b + PREV] == 0
    ensures !FreesWell(h, b)
  {
    hide Merged, Tiled, Linked, Flagged, BlockOk, HeapOk;
    assert c < b by { PageAligned(b); }
    var i := StillListed(h, b, c);
    var g := Merged(h, b);
    PendingBlock(g, b);
    Neighbours(g, i);
    MergedInMemory(h, b);
    PageAligned(b);
    var ps := PageBase(b);
    StartOf(g, i);
    Apart(g, c, b);
    if i + 1 == |g.list| {
      NeverEnds(h, b);
    } else {
      assert i > 0;
      forall mem, head | KfreeGives(h, b, mem, head) ensures !IsHeap(mem, head, h.spans) {
        LinkTaken(h, b, i, mem, head);
      }
    }
  }

  lemma MergedSpans(h: Heap, b: int)
    requires HeapOk(h, {}) && h.IsLive(b)
    ensures Merged(h, b).spans == h.spans
  {
    SetFlagOk(h, b, 1, {});
    assert {} + {b} == {b};
    ForwardOk(SetFlag(h, b, 1), b);
  }

  lemma LinkTaken(h: Heap, b: int, i: nat, mem: seq<Word>, head: Word)
    requires HeapOk(h, {}) && h.IsLive(b) && KfreeGives(h, b, mem, head)
    requires var g := Merged(h, b); 0 < i && i + 1 < |g.list| && g.list[i] + NEXT == PageBase(b) && g.Has(b) && g.mem[b + PREV] == 0
    ensures !IsHeap(mem, head, h.spans)
  {
    hide Merged, Tiled, Linked, Flagged, BlockOk, HeapOk, Walks, Ends;
    var g := Merged(h, b);
    var ps := PageBase(b);
    MergedSpans(h, b);
    LinkFacts(h, b, i);
    var prev, n: nat :| Walks(g.mem, Wrap(ps), 0, b, prev, n) && Ends(g, b, prev, mem, head);
    OneRoundOnly(g.mem, ps, b, prev, n);
    EndsBroken(g, b, i, mem, head);
    forall starts, list ensures !HeapOk(Heap(mem, head, starts, list, h.spans), {}) {
      BrokenIsNoHeap(g, b, i, Heap(mem, head, starts, list, h.spans));
    }
  }

  lemma LinkFacts(h: Heap, b: int, i: nat)
    requires HeapOk(h, {}) && h.IsLive(b)
    requires var g := Merged(h, b); 0 < i && i + 1 < |g.list| && g.list[i] + NEXT == PageBase(b) && g.Has(b)
    ensures var g, ps := Merged(h, b), PageBase(b);
            0 <= ps < b < |g.mem| == USER_MEM_START && MANAGED_BASE <= g.mem[ps] < |g.mem|
  {
    hide Merged, HeapOk, Tiled, Linked, Flagged, BlockOk;
    var g := Merged(h, b);
    PendingBlock(g, b);
    Neighbours(g, i);
    StartOf(g, i);
    if g.list[i] != b { Apart(g, g.list[i], b); }
    PageAligned(b);
  }

  lemma PendingBlock(g: Heap, b: int)
    requires HeapOk(g, {b})
    ensures Linked(g) && Tiled(g) && b in g.starts && g.Has(b) && |g.mem| == USER_MEM_START
  {
    TiledBlock(g, b);
  }

  lemma EndsBroken(g: Heap, b: int, i: nat, mem: seq<Word>, head: Word)
    requires HeapOk(g, {b}) && 0 < i && i + 1 < |g.list| && g.Has(b) && g.list[i] + NEXT == PageBase(b) < b && g.mem[b + PREV] == 0
    requires Ends(g, b, PageBase(b), mem, head)
    ensures forall starts, list :: BrokenLink(g, b, i, Heap(mem, head, starts, list, g.spans))
  {
    Neighbours(g, i);
  }

  lemma OneRoundOnly(m: seq<Word>, ps: Word, b: int, prev: int, n: nat)
    requires ps < b < ps + PAGE_SIZE && b < |m| == USER_MEM_START && MANAGED_BASE <= m[ps] < |m|
    requires Walks(m, Wrap(ps), 0, b, prev, n)
    ensures prev == ps
  {
    assert n > 0 && Walks(m, Wrap(ps + m[ps]), ps, b, prev, n - 1);
    assert Wrap(ps + m[ps]) >= b;
  }

  // ----- both sides of the condition are reached -----

  /** kmalloc(5000); kmalloc(16) on a heap of 16 fresh pages: the second block cannot be freed soundly. */
  lemma SecondBlockUnsound(h: Heap, s: Span)
    requires HeapOk(h, {}) && h.list == [] && NewSpan(h, s) && s.hi == s.lo + 16 * PAGE_SIZE && h.starts == {}
    ensures var h1 := Step(h, Expand(s));
            && HeapOk(h1, {})
            && var h2 := Step(h1, Malloc(5000));
            && HeapOk(h2, {})
            && var h3 := Step(h2, Malloc(16));
            && HeapOk(h3, {}) && h3.IsLive(s.lo + 5008) && !CanFree(h3, s.lo + 5008)
  {
    hide HeapOk, Step, NewSpan, SameHeap, FindsPredecessor, Merged;
    SecondBlockNotFreeable(h, s);
    var h1 := Step(h, Expand(s));
    var h2 := Step(h1, Malloc(5000));
    var h3 := Step(h2, Malloc(16));
    MergedIs(h3, s.lo + 5008);
    MergedStarts(h3, s.lo + 5008);
  }

  /** A block ends where the next one starts. */
  lemma EndsAtNext(h: Heap, s: Span, a: int, e: int)
    requires HeapOk(h, {}) && s in h.spans && a in h.starts && e in h.starts && s.lo <= a < e < s.hi
    requires forall x | x in h.starts :: x <= a || e <= x
    ensures h.Has(a) && h.End(a) == e
  {
    TiledBlock(h, a);
    TiledPrecedes(h, a, e);
    NotAnEnd(h, s, h.End(a));
  }

  lemma LiveIfUnlisted(h: Heap, a: int)
    requires HeapOk(h, {}) && a in h.starts && a !in h.list
    ensures h.IsLive(a)
  {
    TiledBlock(h, a);
  }

  /** Five blocks on 16 fresh pages: kmalloc(4080) and three times kmalloc(16). */
  ghost predicate FiveBlocks(h: Heap, s: Span) {
    && HeapOk(h, {}) && s in h.spans && s.lo % PAGE_SIZE == 0 && s.hi == s.lo + 16 * PAGE_SIZE
    && h.starts == {s.lo, s.lo + 4088, s.lo + 4112, s.lo + 4136, s.lo + 4160} && h.list == [s.lo + 4160]
  }

  /** A span whose only free block is its last one. */
  ghost predicate Row(h: Heap, s: Span, starts: set<int>, last: int) {
    && HeapOk(h, {}) && s in h.spans && h.starts == starts && h.list == [last] && h.Has(last) && h.mem[last] == s.hi - last
  }

  lemma CutRow(h: Heap, s: Span, starts: set<int>, last: int, size: Word, n: int)
    requires Row(h, s, starts, last) && n == Needed(size) && last + n + MIN_BLOCK_SIZE <= s.hi
    ensures HeapOk(h, {}) && Row(Step(h, Malloc(size)), s, starts + {last + n}, last + n)
  {
    hide HeapOk, Step, Needed;
    MallocFromSingle(h, last, size);
    StepOk(h, Malloc(size));
  }

  lemma FiveBlocksReached(h: Heap, s: Span)
    requires HeapOk(h, {}) && h.list == [] && NewSpan(h, s) && s.hi == s.lo + 16 * PAGE_SIZE && h.starts == {}
    ensures var r := Run(h, [Expand(s), Malloc(4080), Malloc(16), Malloc(16), Malloc(16)]);
            r.Some? && FiveBlocks(r.value, s)
  {
    assert s.lo % PAGE_SIZE == 0;
    hide HeapOk, Step, Run, NewSpan, Needed;
    FirstSpan(h, s);
    StepOk(h, Expand(s));
    var h1 := Step(h, Expand(s));
    var h5 := Cuts(h1, s);
    RunCons(h, Expand(s), [Malloc(4080), Malloc(16), Malloc(16), Malloc(16)]);
    assert [Expand(s)] + [Malloc(4080), Malloc(16), Malloc(16), Malloc(16)] == [Expand(s), Malloc(4080), Malloc(16), Malloc(16), Malloc(16)];
  }

  /** Two requests cut from the last block. */
  lemma CutTwice(h: Heap, s: Span, starts: set<int>, last: int, x: Word, n: int, y: Word, k: int) returns (h2: Heap)
    requires Row(h, s, starts, last) && n == Needed(x) && k == Needed(y) && last + n + k + MIN_BLOCK_SIZE <= s.hi
    ensures HeapOk(h, {}) && Row(h2, s, starts + {last + n} + {last + n + k}, last + n + k) && HeapOk(h2, {})
    ensures forall rest :: Run(h, [Malloc(x), Malloc(y)] + rest) == Run(h2, rest)
  {
    hide HeapOk, Step, Run, Needed;
    CutRow(h, s, starts, last, x, n);
    var h1 := Step(h, Malloc(x));
    CutRow(h1, s, starts + {last + n}, last + n, y, k);
    h2 := Step(h1, Malloc(y));
    forall rest ensures Run(h, [Malloc(x), Malloc(y)] + rest) == Run(h2, rest) {
      RunCons(h1, Malloc(y), rest);
      RunCons(h, Malloc(x), [Malloc(y)] + rest);
      assert [Malloc(x)] + ([Malloc(y)] + rest) == [Malloc(x), Malloc(y)] + rest;
    }
  }

  lemma Cuts(h: Heap, s: Span) returns (h4: Heap)
    requires Row(h, s, {s.lo}, s.lo) && HeapOk(h, {}) && s.hi == s.lo + 16 * PAGE_SIZE && s.lo % PAGE_SIZE == 0
    ensures Run(h, [Malloc(4080), Malloc(16), Malloc(16), Malloc(16)]) == Some(h4) && FiveBlocks(h4, s)
  {
    hide HeapOk, Run, Needed, Row;
    NeededValues();
    var h2 := CutTwice(h, s, {s.lo}, s.lo, 4080, 4088, 16, 24);
    h4 := CutTwice(h2, s, {s.lo} + {s.lo + 4088} + {s.lo + 4112}, s.lo + 4112, 16, 24, 16, 24);
    RowIsFive(h4, s, {s.lo} + {s.lo + 4088} + {s.lo + 4112} + {s.lo + 4136} + {s.lo + 4160});
    RunNothing(h4);
    assert [Malloc(16), Malloc(16)] + [] == [Malloc(16), Malloc(16)];
    assert [Malloc(4080), Malloc(16)] + [Malloc(16), Malloc(16)] == [Malloc(4080), Malloc(16), Malloc(16), Malloc(16)];
  }

  lemma RowIsFive(h: Heap, s: Span, starts: set<int>)
    requires Row(h, s, starts, s.lo + 4160) && s.hi == s.lo + 16 * PAGE_SIZE && s.lo % PAGE_SIZE == 0
    requires starts == {s.lo} + {s.lo + 4088} + {s.lo + 4112} + {s.lo + 4136} + {s.lo + 4160}
    ensures FiveBlocks(h, s)
  {
    hide HeapOk;
  }

  lemma RunCons(h: Heap, op: HeapOp, rest: seq<HeapOp>)
    requires HeapOk(h, {}) && HeapRuns.Enabled(h, op)
    ensures HeapOk(Step(h, op), {}) && Run(h, [op] + rest) == Run(Step(h, op), rest)
  {
    StepOk(h, op);
    assert ([op] + rest)[1..] == rest;
  }

  lemma RunNothing(h: Heap)
    requires HeapOk(h, {})
    ensures Run(h, []) == Some(h)
  {
  }

  lemma NeededValues()
    ensures Needed(4080) == 4088 && Needed(16) == 24
  {
  }

  /** Freeing the second of them puts its link at the start of the page of the third, which can then be
      freed although its page does not start with a block. */
  lemma LinkAtPageReached(h: Heap, s: Span)
    requires FiveBlocks(h, s)
    ensures CanFree(h, s.lo + 4088)
    ensures var h5, b := Release(h, s.lo + 4088), s.lo + 4112;
            PageBase(b) !in h5.starts && CanFree(h5, b)
  {
    var c, b := s.lo + 4088, s.lo + 4112;
    hide Tiled, Linked, Flagged, Merged, Insert, Absorb, BlockOk;
    EndsAtNext(h, s, s.lo, c);
    EndsAtNext(h, s, c, b);
    EndsAtNext(h, s, b, b + 24);
    LiveIfUnlisted(h, c);
    LiveIfUnlisted(h, s.lo);
    assert PageBase(c) == s.lo && PageBase(b) == s.lo + 4096;
    MergedIs(h, c);
    SecondFreed(h, s);
    var h5 := Release(h, c);
    LiveIfUnlisted(h5, b);
    EndsAtNext(h5, s, b, b + 24);
    LiveIfUnlisted(h5, b + 24);
    MergedIs(h5, b);
  }

  lemma SecondFreed(h: Heap, s: Span)
    requires FiveBlocks(h, s) && CanFree(h, s.lo + 4088)
    ensures var h5 := Release(h, s.lo + 4088);
            HeapOk(h5, {}) && h5.starts == h.starts && h5.list == [s.lo + 4088] + h.list && h5.spans == h.spans
  {
    var c := s.lo + 4088;
    hide Tiled, Linked, Flagged, Merged, Insert, Absorb, BlockOk;
    ReleaseOk(h, c);
    MergedIs(h, c);
    MergedFacts(h, c);
    EndsAtNext(h, s, c, s.lo + 4112);
    MergedSame(h, c);
    EndsAtNext(h, s, s.lo, c);
    LiveIfUnlisted(h, s.lo);
    InsertShape(Merged(h, c), c);
    var h2 := Merged(h, c);
    assert PageBase(c) == s.lo;
    assert h2.End(s.lo) == c;
  }

  lemma MergedSame(h: Heap, b: int)
    requires HeapOk(h, {}) && h.IsLive(b) && h.Has(b) && h.End(b) >= PageBase(b) + PAGE_SIZE
    ensures Merged(h, b) == SetFlag(h, b, 1)
  {
    TiledBlock(h, b);
  }

  lemma InsertShape(h: Heap, b: int)
    requires HeapOk(h, {b})
    ensures h.Has(b) && (h.head == 0 || h.Has(h.head)) && b < TWO_TO_32
    ensures Insert(h, b).starts == h.starts && Insert(h, b).list == [b] + h.list && Insert(h, b).spans == h.spans
  {
    TiledBlock(h, b);
    HeadOk(h);
  }
}
