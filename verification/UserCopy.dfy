/** The user-pointer checks and copies of arch/x86/paging.c (lines 198-276).

    `ok(p)` says whether page p is accessible to the current task; `mem(a)` is the byte that the
    kernel reads at virtual address a.  `mem` is defined on accessible pages only, so every read
    below is proved to come after a check of its page. */
module UserCopy {
  import opened Words
  import opened Options

  ghost predicate Readable(mem: Word --> Byte, ok: nat -> bool) {
    forall a: Word :: ok(a / PAGE_SIZE) ==> mem.requires(a)
  }

  /** Every byte of [start, start + size) lies in an accessible page. */
  ghost predicate AllAccessible(ok: nat -> bool, start: Word, size: Word) {
    start + size <= TWO_TO_32 && forall a: Word | start <= a < start + size :: ok(a / PAGE_SIZE)
  }

  /** `is_user_accessible_range`.  The page counter wraps to 0 when the range reaches into the last
      page; the loop ends there because page 0 is never accessible.  The answer is therefore sound
      for all ranges, and complete exactly for those that end at or below 0xFFFFF000. */
  method IsUserAccessibleRange(ok: nat -> bool, start: Word, size: Word) returns (yes: bool)
    requires !ok(0)
    ensures yes <==> size == 0 || (AllAccessible(ok, start, size) && start + size <= TWO_TO_32 - PAGE_SIZE)
  {
    if size == 0 { return true; }
    var end := Wrap(start + size);
    if end < start { return false; }
    var page := PageBase(start);
    while page < end
      invariant page % PAGE_SIZE == 0 && 0 <= page <= TWO_TO_32 - PAGE_SIZE
      invariant page == 0 ==> start < PAGE_SIZE || TWO_TO_32 - PAGE_SIZE < start + size
      invariant page != 0 ==> PageBase(start) <= page && forall a: Word | start <= a < page :: ok(a / PAGE_SIZE)
      decreases if page == 0 then 0 else TWO_TO_32 - page
    {
      if !ok(page / PAGE_SIZE) {
        if page != 0 || start < PAGE_SIZE { PageOfRange(ok, start, size, page); }
        return false;
      }
      page := Wrap(page + PAGE_SIZE);
    }
    yes := true;
  }

  lemma PageOfRange(ok: nat -> bool, start: Word, size: Word, page: int)
    requires page % PAGE_SIZE == 0 && PageBase(start) <= page && !ok(page / PAGE_SIZE) && 0 < size
    requires page < start + size < TWO_TO_32
    ensures !AllAccessible(ok, start, size)
  {
    var a: Word := if page < start then start else page;
    assert a / PAGE_SIZE == page / PAGE_SIZE;
    assert !ok(a / PAGE_SIZE);
  }

  /** `copy_from_user`: nothing is copied unless the whole range is accessible. */
  method CopyFromUser(dst: array<Byte>, mem: Word --> Byte, ok: nat -> bool, src: Word, size: Word) returns (r: Word)
    requires Readable(mem, ok) && !ok(0) && size <= dst.Length
    modifies dst
    ensures r == 0 <==> size == 0 || (AllAccessible(ok, src, size) && src + size <= TWO_TO_32 - PAGE_SIZE)
    ensures r == 0 || (r == TWO_TO_32 - 1 && dst[..] == old(dst[..]))
    ensures r == 0 ==> forall i | 0 <= i < size :: mem.requires(src + i) && dst[i] == mem(src + i)
    ensures dst[size..] == old(dst[size..])
  {
    if size == 0 { return 0; }
    var yes := IsUserAccessibleRange(ok, src, size);
    if !yes { return 0xFFFF_FFFF; }
    var i := 0;
    while i < size
      invariant 0 <= i <= size
      invariant forall j | 0 <= j < i :: mem.requires(src + j) && dst[j] == mem(src + j)
      invariant dst[size..] == old(dst[size..])
    {
      assert ok((src + i) / PAGE_SIZE);
      dst[i] := mem(src + i);
      i := i + 1;
    }
    r := 0;
  }

  /** `copy_to_user`: user memory is an array indexed by address. */
  method CopyToUser(user: array<Byte>, ok: nat -> bool, dst: Word, src: seq<Byte>, size: Word) returns (r: Word)
    requires !ok(0) && size <= |src|
    requires forall a: Word | ok(a / PAGE_SIZE) :: a < user.Length
    modifies user
    ensures r == 0 <==> size == 0 || (AllAccessible(ok, dst, size) && dst + size <= TWO_TO_32 - PAGE_SIZE)
    ensures r == 0 || r == TWO_TO_32 - 1
    ensures forall a | 0 <= a < user.Length ::
              user[a] == if r == 0 && dst <= a < dst + size then src[a - dst] else old(user[a])
    ensures forall a: Word | a < user.Length && !ok(a / PAGE_SIZE) :: user[a] == old(user[a])
  {
    if size == 0 { return 0; }
    var yes := IsUserAccessibleRange(ok, dst, size);
    if !yes { return 0xFFFF_FFFF; }
    var i := 0;
    while i < size
      invariant 0 <= i <= size
      invariant forall a | 0 <= a < user.Length :: user[a] == if dst <= a < dst + i then src[a - dst] else old(user[a])
    {
      assert ok((dst + i) / PAGE_SIZE);
      user[dst + i] := src[i];
      i := i + 1;
    }
    r := 0;
  }

  // ----- strings -----

  /** `user_ptr + i` as a 32-bit address */
  function Address(ptr: Word, i: int): Word {
    Wrap(ptr + i)
  }

  /** The careful version of `copy_from_user_string`: from index i on, it checks the page of every
      single byte before it reads it.  None stands for the error, otherwise the string follows,
      with its terminating NUL. */
  ghost function CarefulString(mem: Word --> Byte, ok: nat -> bool, ptr: Word, i: nat, maxLen: nat): (r: Option<seq<Byte>>)
    requires Readable(mem, ok)
    ensures r.Some? ==> 0 < |r.value|
    decreases maxLen - i
  {
    if i >= maxLen then None
    else
      var a := Address(ptr, i);
      if !ok(a / PAGE_SIZE) then None
      else if mem(a) == 0 then Some([0])
      else
        var rest := CarefulString(mem, ok, ptr, i + 1, maxLen);
        if rest.None? then None else Some([mem(a)] + rest.value)
  }

  ghost predicate Accessible(ok: nat -> bool, ptr: Word, k: nat) {
    ok(Address(ptr, k) / PAGE_SIZE)
  }

  /** From index i on, n is the index of the first NUL, and all pages up to it are accessible. */
  ghost predicate StringAt(mem: Word --> Byte, ok: nat -> bool, ptr: Word, i: nat, n: nat)
    requires Readable(mem, ok)
  {
    && i <= n
    && (forall k | i <= k <= n :: Accessible(ok, ptr, k))
    && (forall k | i <= k <= n :: Accessible(ok, ptr, k) ==> (mem(Address(ptr, k)) == 0 <==> k == n))
  }

  /** The careful version succeeds exactly if a NUL comes before max_len with every page up to it
      accessible, and then yields exactly that string. */
  lemma {:induction false} CarefulStringOk(mem: Word --> Byte, ok: nat -> bool, ptr: Word, i: nat, maxLen: nat)
    requires Readable(mem, ok)
    ensures var r := CarefulString(mem, ok, ptr, i, maxLen);
            && (r.Some? <==> exists n: nat :: n < maxLen && StringAt(mem, ok, ptr, i, n))
            && (r.Some? ==> i + |r.value| <= maxLen && StringAt(mem, ok, ptr, i, i + |r.value| - 1))
            && (r.Some? ==> forall k | 0 <= k < |r.value| ::
                  Accessible(ok, ptr, i + k) && mem.requires(Address(ptr, i + k)) && r.value[k] == mem(Address(ptr, i + k)))
    decreases maxLen - i
  {
    if i < maxLen && Accessible(ok, ptr, i) {
      if mem(Address(ptr, i)) == 0 {
        assert StringAt(mem, ok, ptr, i, i);
      } else {
        CarefulStringOk(mem, ok, ptr, i + 1, maxLen);
        var rest := CarefulString(mem, ok, ptr, i + 1, maxLen);
        if rest.Some? {
          assert StringAt(mem, ok, ptr, i, i + |rest.value|);
          var r := CarefulString(mem, ok, ptr, i, maxLen).value;
          forall k | 0 <= k < |r|
            ensures Accessible(ok, ptr, i + k) && mem.requires(Address(ptr, i + k)) && r[k] == mem(Address(ptr, i + k))
          {
            if k > 0 { assert r[k] == rest.value[k - 1] && Accessible(ok, ptr, i + 1 + (k - 1)); }
          }
        }
        if n: nat :| n < maxLen && StringAt(mem, ok, ptr, i, n) {
          assert StringAt(mem, ok, ptr, i + 1, n);
        }
      }
    }
  }

  /** The first i bytes are accessible and not NUL, and the buffer holds them. */
  ghost predicate Copied(mem: Word --> Byte, ok: nat -> bool, ptr: Word, i: nat, buf: seq<Byte>)
    requires Readable(mem, ok)
  {
    i <= |buf| && forall k | 0 <= k < i ::
      Accessible(ok, ptr, k) && mem(Address(ptr, k)) != 0 && buf[k] == mem(Address(ptr, k))
  }

  lemma FoundNul(mem: Word --> Byte, ok: nat -> bool, ptr: Word, i: nat, maxLen: nat, buf: seq<Byte>)
    requires Readable(mem, ok) && Copied(mem, ok, ptr, i, buf) && i < maxLen && i < |buf|
    requires Accessible(ok, ptr, i) && mem(Address(ptr, i)) == 0 && buf[i] == 0
    ensures CarefulString(mem, ok, ptr, 0, maxLen) == Some(buf[..i + 1])
  {
    hide CarefulString;
    CarefulStringOk(mem, ok, ptr, 0, maxLen);
    assert StringAt(mem, ok, ptr, 0, i);
    var v := CarefulString(mem, ok, ptr, 0, maxLen).value;
    OneString(mem, ok, ptr, i, |v| - 1);
    forall k | 0 <= k <= i ensures v[k] == buf[k] { assert Accessible(ok, ptr, 0 + k); }
    assert v == buf[..i + 1];
  }

  lemma FoundNone(mem: Word --> Byte, ok: nat -> bool, ptr: Word, i: nat, maxLen: nat, buf: seq<Byte>)
    requires Readable(mem, ok) && Copied(mem, ok, ptr, i, buf) && (i >= maxLen || !Accessible(ok, ptr, i))
    ensures CarefulString(mem, ok, ptr, 0, maxLen) == None
  {
    hide CarefulString;
    CarefulStringOk(mem, ok, ptr, 0, maxLen);
    forall n: nat | n < maxLen ensures !StringAt(mem, ok, ptr, 0, n) {
      assert n < i ==> Accessible(ok, ptr, n) && mem(Address(ptr, n)) != 0;
    }
  }

  lemma OneString(mem: Word --> Byte, ok: nat -> bool, ptr: Word, i: nat, n: nat)
    requires Readable(mem, ok) && StringAt(mem, ok, ptr, 0, i) && StringAt(mem, ok, ptr, 0, n)
    ensures i == n
  {
    assert Accessible(ok, ptr, i) && Accessible(ok, ptr, n);
  }

  /** `copy_from_user_string`, which checks a page only when it enters it, does what the careful
      version does; what it has copied before an error stays in the buffer. */
  method CopyFromUserString(kbuf: array<Byte>, mem: Word --> Byte, ok: nat -> bool, ptr: Word, maxLen: Word) returns (r: Word)
    requires Readable(mem, ok) && maxLen <= kbuf.Length
    modifies kbuf
    ensures var s := CarefulString(mem, ok, ptr, 0, maxLen);
            if s.Some? then r == 0 && |s.value| <= maxLen && kbuf[..|s.value|] == s.value && kbuf[|s.value|..] == old(kbuf[..])[|s.value|..]
            else r == TWO_TO_32 - 1
    ensures kbuf[maxLen..] == old(kbuf[maxLen..])
  {
    if maxLen == 0 { return 0xFFFF_FFFF; }
    var currentPage := 0xFFFF_FFFF;
    var i := 0;
    while i < maxLen
      invariant 0 <= i <= maxLen
      invariant currentPage % PAGE_SIZE == 0 ==> 0 <= currentPage && ok(currentPage / PAGE_SIZE)
      invariant Copied(mem, ok, ptr, i, kbuf[..])
      invariant kbuf[i..] == old(kbuf[..])[i..]
    {
      hide CarefulString;
      var addr := Address(ptr, i);
      var page := PageBase(addr);
      assert page / PAGE_SIZE == addr / PAGE_SIZE && page % PAGE_SIZE == 0;
      if page != currentPage {
        if !ok(page / PAGE_SIZE) {
          FoundNone(mem, ok, ptr, i, maxLen, kbuf[..]);
          return 0xFFFF_FFFF;
        }
        currentPage := page;
      }
      assert Accessible(ok, ptr, i);
      var c := mem(addr);
      kbuf[i] := c;
      assert kbuf[i + 1..] == old(kbuf[..])[i + 1..];
      if c == 0 {
        FoundNul(mem, ok, ptr, i, maxLen, kbuf[..]);
        return 0;
      }
      i := i + 1;
    }
    FoundNone(mem, ok, ptr, i, maxLen, kbuf[..]);
    r := 0xFFFF_FFFF;
  }
}
