/** What `readVirtualMemory` and `writeVirtualMemory` compute, as functions
    of a page table: the address checks made before anything is copied, the
    number of bytes moved, and the physical address each virtual address
    translates to. */
module VirtualMemory {
  import opened Machine
  import opened Util

  /** `endVaddr = vaddr + length - 1`, in Java `int` arithmetic. */
  function EndAddress(vaddr: int, length: int): int
  {
    Wrap32(vaddr + length - 1)
  }

  /** The checks a copy routine makes before copying: a negative start, an
      end past the last byte of page `numPages - 1`, or an end before the
      start (length 0, or the sum wrapped) are refused. A read also refuses
      a process without pages; a write refuses one whose `numPages` has
      reached the length `pageCount` of its page table. */
  predicate Rejected(pageCount: int, numPages: int, vaddr: int, length: int, forWrite: bool)
  {
    var end := EndAddress(vaddr, length);
    vaddr < 0 || end > MakeAddress(numPages - 1, PageSize - 1) || end < vaddr
    || (if forWrite then numPages >= pageCount else numPages == 0)
  }

  /** A page the copy loop goes through: valid and, for a write, writable. */
  predicate Accessible(e: TranslationEntry, forWrite: bool)
  {
    e.valid && !(forWrite && e.readOnly)
  }

  /** The first page in `[i, last]` the copy loop stops at, or `last + 1`
      when it goes through them all. */
  function FirstBlocked(pt: seq<TranslationEntry>, i: int, last: int, forWrite: bool): (q: int)
    requires 0 <= i <= last + 1 <= |pt|
    ensures i <= q <= last + 1
    ensures forall p | i <= p < q :: Accessible(pt[p], forWrite)
    ensures q <= last ==> !Accessible(pt[q], forWrite)
    decreases last - i
  {
    if i > last || !Accessible(pt[i], forWrite) then i
    else FirstBlocked(pt, i + 1, last, forWrite)
  }

  /** The first page of the request and the page of its end address. */
  function FirstPage(vaddr: int): int { PageFromAddress(vaddr) }
  function LastPage(vaddr: int, length: int): int { PageFromAddress(EndAddress(vaddr, length)) }

  /** The page numbers of an accepted request lie inside the process. */
  lemma AcceptedPages(pageCount: int, numPages: int, vaddr: int, length: int, forWrite: bool)
    requires 0 <= numPages <= pageCount
    requires !Rejected(pageCount, numPages, vaddr, length, forWrite)
    ensures 0 <= FirstPage(vaddr) <= LastPage(vaddr, length) < numPages
  {
    var end := EndAddress(vaddr, length);
    assert end <= numPages * PageSize - 1;
    assert end / PageSize <= numPages - 1;
  }

  /** The number of bytes a copy routine moves for the request:
      nothing when it is refused, all of it when no page in range stops
      the loop, and otherwise the bytes up to the first page that does. */
  function TransferCount(pt: seq<TranslationEntry>, numPages: int, vaddr: int, length: int,
                         forWrite: bool): int
    requires 0 <= numPages <= |pt|
  {
    if Rejected(|pt|, numPages, vaddr, length, forWrite) then 0
    else
      AcceptedPages(|pt|, numPages, vaddr, length, forWrite);
      var first, last := FirstPage(vaddr), LastPage(vaddr, length);
      var q := FirstBlocked(pt, first, last, forWrite);
      if q > last then length else if q == first then 0 else MakeAddress(q, 0) - vaddr
  }

  /** An accepted request with a 32-bit start and length ends where the
      mathematical sum says: the `int` sum did not wrap, and it is not empty. */
  lemma AcceptedEnd(pageCount: int, numPages: int, vaddr: int, length: int, forWrite: bool)
    requires IsInt32(vaddr) && 0 <= length <= Int32Max
    requires !Rejected(pageCount, numPages, vaddr, length, forWrite)
    ensures EndAddress(vaddr, length) == vaddr + length - 1 && 1 <= length
  {
  }

  /** The address checks in plain arithmetic, for a 32-bit request on a
      process whose pages fit in the 32-bit address range: a request is
      refused exactly when it starts below 0, is empty, runs past the end
      of page `numPages - 1`, or trips the read or write page-count test. */
  lemma RejectedMeaning(pageCount: int, numPages: int, vaddr: int, length: int, forWrite: bool)
    requires IsInt32(vaddr) && 0 <= length <= Int32Max
    requires 0 <= numPages && numPages * PageSize <= Int32Max
    ensures Rejected(pageCount, numPages, vaddr, length, forWrite)
            <==> vaddr < 0 || length == 0 || vaddr + length > numPages * PageSize
                 || (if forWrite then numPages >= pageCount else numPages == 0)
  {
    var x := vaddr + length - 1;
    if 0 <= vaddr && x > Int32Max {
      assert (x - Int32Min) % TwoTo32 == x - Int32Min - TwoTo32;
      assert EndAddress(vaddr, length) == x - TwoTo32 < vaddr;
    }
  }

  /** The physical address virtual address `v` translates to through `pt`:
      frame `pt[page].ppn`, same offset within the page (-1 outside the table). */
  function PhysAddr(pt: seq<TranslationEntry>, v: int): int
  {
    var p := PageFromAddress(v);
    if 0 <= p < |pt| then MakeAddress(pt[p].ppn, OffsetFromAddress(v)) else -1
  }

  /** Inside page `i`, translation is a shift from the page's start to its frame's start. */
  lemma PhysAddrInPage(pt: seq<TranslationEntry>, i: int, v: int)
    requires 0 <= i < |pt| && MakeAddress(i, 0) <= v < MakeAddress(i + 1, 0)
    ensures PageFromAddress(v) == i
    ensures PhysAddr(pt, v) == MakeAddress(pt[i].ppn, v - MakeAddress(i, 0))
  {
    PageOfAddress(v, i);
  }

  /** The copy loop stops at page `i` exactly when `i` is the first page
      from `j` on that stops it. */
  lemma {:induction false} FirstBlockedIs(pt: seq<TranslationEntry>, j: int, i: int, last: int, forWrite: bool)
    requires 0 <= j <= i <= last + 1 <= |pt|
    requires forall p | j <= p < i :: Accessible(pt[p], forWrite)
    requires i <= last ==> !Accessible(pt[i], forWrite)
    ensures FirstBlocked(pt, j, last, forWrite) == i
    decreases i - j
  {
    if j < i {
      FirstBlockedIs(pt, j + 1, i, last, forWrite);
    }
  }

  /** The count a copy loop has reached when it leaves its page loop at page
      `i`, either past the last page or at a page that stops it, is the
      transfer count of the request. */
  lemma LoopExitCount(pt: seq<TranslationEntry>, numPages: int, vaddr: int, length: int,
                      forWrite: bool, i: int, total: int)
    requires 0 <= numPages <= |pt| && IsInt32(vaddr) && 0 <= length <= Int32Max
    requires !Rejected(|pt|, numPages, vaddr, length, forWrite)
    requires FirstPage(vaddr) <= i <= LastPage(vaddr, length) + 1
    requires forall p | FirstPage(vaddr) <= p < i :: Accessible(pt[p], forWrite)
    requires i <= LastPage(vaddr, length) ==> !Accessible(pt[i], forWrite)
    requires total == if i == FirstPage(vaddr) then 0
                      else if i <= LastPage(vaddr, length) then MakeAddress(i, 0) - vaddr
                      else length
    ensures total == TransferCount(pt, numPages, vaddr, length, forWrite)
  {
    AcceptedPages(|pt|, numPages, vaddr, length, forWrite);
    FirstBlockedIs(pt, FirstPage(vaddr), i, LastPage(vaddr, length), forWrite);
  }

  /** One round of a copy loop at page `i`, where the cursor `cur` is the
      request's start on its first page and the page's start after that:
      the run it copies is not empty, stays inside page `i`, and leaves the
      cursor at the next page's start, or just past the end on the last page. */
  lemma PageStep(vaddr: int, end: int, i: int, cur: int, size: int)
    requires 0 <= vaddr <= end
    requires PageFromAddress(vaddr) <= i <= PageFromAddress(end)
    requires cur == if i == PageFromAddress(vaddr) then vaddr else MakeAddress(i, 0)
    requires size == if end > MakeAddress(i, PageSize - 1) then MakeAddress(i, PageSize - 1) - cur + 1
                     else end - cur + 1
    ensures MakeAddress(i, 0) <= cur && 1 <= size && cur + size <= MakeAddress(i + 1, 0)
    ensures cur + size == if i + 1 <= PageFromAddress(end) then MakeAddress(i + 1, 0) else end + 1
    ensures cur + size <= end + 1
  {
    AddressSplit(vaddr);
    AddressSplit(end);
  }

  /** A run of `size` bytes from `cur`, inside page `i`, translates to the
      run of the same length from `phys` in the page's frame. */
  lemma PageRunHolds(mem: seq<byte>, pt: seq<TranslationEntry>, i: int, cur: int, size: int, phys: int)
    requires 0 <= i < |pt| && 0 <= size
    requires MakeAddress(i, 0) <= cur && cur + size <= MakeAddress(i + 1, 0)
    requires phys == MakeAddress(pt[i].ppn, cur - MakeAddress(i, 0))
    requires 0 <= phys && phys + size <= |mem|
    ensures Holds(mem, pt, cur, mem[phys .. phys + size])
  {
    forall v | cur <= v < cur + size
      ensures 0 <= PhysAddr(pt, v) < |mem| && mem[PhysAddr(pt, v)] == mem[phys .. phys + size][v - cur]
    {
      PhysAddrInPage(pt, i, v);
    }
  }

  /** Some address in `[lo, hi)` translates to physical address `a`. */
  predicate Translates(pt: seq<TranslationEntry>, lo: int, hi: int, a: int)
  {
    exists v | lo <= v < hi :: PhysAddr(pt, v) == a
  }

  /** No two addresses of `[lo, hi)` share a physical address. */
  predicate TranslationInjective(pt: seq<TranslationEntry>, lo: int, hi: int)
  {
    forall v, w | lo <= v < w < hi :: PhysAddr(pt, v) != PhysAddr(pt, w)
  }

  /** Physical memory `mem` holds `image` at the virtual addresses from `lo`. */
  predicate Holds(mem: seq<byte>, pt: seq<TranslationEntry>, lo: int, image: seq<byte>)
  {
    forall v | lo <= v < lo + |image| ::
      0 <= PhysAddr(pt, v) < |mem| && mem[PhysAddr(pt, v)] == image[v - lo]
  }

  /** What a string read finds in a held image: when `length` is the
      position of the first zero byte of `image` (or `|image|` when it has
      none), there is no zero at all exactly when the scan ran off the end,
      and otherwise the bytes before the zero, with the zero, are held. */
  lemma StringImage(mem: seq<byte>, pt: seq<TranslationEntry>, lo: int, image: seq<byte>, length: int)
    requires Holds(mem, pt, lo, image)
    requires 0 <= length <= |image| && (forall j | 0 <= j < length :: image[j] != 0)
    requires length < |image| ==> image[length] == 0
    ensures forall v | lo <= v < lo + |image| :: 0 <= PhysAddr(pt, v) < |mem|
    ensures length == |image| <==> forall v | lo <= v < lo + |image| :: mem[PhysAddr(pt, v)] != 0
    ensures length < |image| ==> 0 !in image[..length] && Holds(mem, pt, lo, image[..length] + [0])
  {
    if length < |image| {
      assert image[..length + 1] == image[..length] + [0];
      assert mem[PhysAddr(pt, lo + length)] == image[length];
      assert 0 !in image[..length] by {
        forall j | 0 <= j < length ensures image[..length][j] != 0 { }
      }
      forall v | lo <= v < lo + length + 1
        ensures mem[PhysAddr(pt, v)] == (image[..length] + [0])[v - lo]
      {
        assert (image[..length] + [0])[v - lo] == image[v - lo];
      }
    } else {
      forall v | lo <= v < lo + |image| ensures mem[PhysAddr(pt, v)] != 0 {
        assert mem[PhysAddr(pt, v)] == image[v - lo];
      }
    }
  }

  /** Memory holds one image of a given length at an address. */
  lemma HoldsUnique(mem: seq<byte>, pt: seq<TranslationEntry>, lo: int, a: seq<byte>, b: seq<byte>)
    requires |a| == |b| && Holds(mem, pt, lo, a) && Holds(mem, pt, lo, b)
    ensures a == b
  {
    forall j | 0 <= j < |a| ensures a[j] == b[j] {
      assert mem[PhysAddr(pt, lo + j)] == a[j];
    }
  }

  /** `s`, free of zero bytes, is held at `vaddr` followed by a zero that
      lies within the `maxLength + 1` bytes a read from `vaddr` can copy:
      the string `readVirtualMemoryString(vaddr, maxLength)` returns. */
  ghost predicate StringHeld(mem: seq<byte>, pt: seq<TranslationEntry>, numPages: int, vaddr: int,
                             maxLength: int, s: seq<byte>)
  {
    0 <= numPages <= |pt| && 0 !in s
    && |s| < TransferCount(pt, numPages, vaddr, maxLength + 1, false)
    && Holds(mem, pt, vaddr, s + [0])
  }

  /** At most one zero-free string is held at an address with its
      terminating zero. */
  lemma HeldStringUnique(mem: seq<byte>, pt: seq<TranslationEntry>, vaddr: int, s: seq<byte>, t: seq<byte>)
    requires 0 !in s && 0 !in t
    requires Holds(mem, pt, vaddr, s + [0]) && Holds(mem, pt, vaddr, t + [0])
    ensures s == t
  {
    var m := if |s| < |t| then |s| else |t|;
    forall j | 0 <= j <= m
      ensures (s + [0])[j] == (t + [0])[j]
    {
      assert mem[PhysAddr(pt, vaddr + j)] == (s + [0])[j];
    }
    assert forall j | 0 <= j < |s| :: (s + [0])[j] != 0 by {
      forall j | 0 <= j < |s| ensures (s + [0])[j] != 0 { assert (s + [0])[j] == s[j]; }
    }
    assert forall j | 0 <= j < |t| :: (t + [0])[j] != 0 by {
      forall j | 0 <= j < |t| ensures (t + [0])[j] != 0 { assert (t + [0])[j] == t[j]; }
    }
    assert (s + [0])[m] == (t + [0])[m];
    assert forall j | 0 <= j < |s| :: s[j] == (s + [0])[j] && t[j] == (t + [0])[j];
  }

  /** The addresses of one page translate to distinct physical addresses. */
  lemma OnePageInjective(pt: seq<TranslationEntry>, i: int, lo: int, hi: int)
    requires 0 <= i < |pt| && MakeAddress(i, 0) <= lo && hi <= MakeAddress(i + 1, 0)
    ensures TranslationInjective(pt, lo, hi)
  {
    forall v, w | lo <= v < w < hi
      ensures PhysAddr(pt, v) != PhysAddr(pt, w)
    {
      PhysAddrInPage(pt, i, v);
      PhysAddrInPage(pt, i, w);
    }
  }

  /** When the pages of a range that are valid use distinct frames, its
      addresses translate to distinct physical addresses. */
  lemma DistinctFramesInjective(pt: seq<TranslationEntry>, lo: int, hi: int)
    requires 0 <= lo && PageFromAddress(hi - 1) < |pt|
    requires forall p, q | PageFromAddress(lo) <= p < q <= PageFromAddress(hi - 1) ::
               pt[p].ppn != pt[q].ppn
    ensures TranslationInjective(pt, lo, hi)
  {
    forall v, w | lo <= v < w < hi
      ensures PhysAddr(pt, v) != PhysAddr(pt, w)
    {
      var p, q := PageFromAddress(v), PageFromAddress(w);
      assert PageFromAddress(lo) <= p <= q <= PageFromAddress(hi - 1);
      AddressSplit(v);
      AddressSplit(w);
      if p != q {
        assert pt[p].ppn != pt[q].ppn;
        var f, g := pt[p].ppn, pt[q].ppn;
        AddressRoundTrip(f, OffsetFromAddress(v));
        AddressRoundTrip(g, OffsetFromAddress(w));
      }
    }
  }

  /** Memory holding two adjacent images holds their concatenation. */
  lemma HoldsAppend(mem: seq<byte>, pt: seq<TranslationEntry>, lo: int, a: seq<byte>, b: seq<byte>)
    requires Holds(mem, pt, lo, a) && Holds(mem, pt, lo + |a|, b)
    ensures Holds(mem, pt, lo, a + b)
  {
    forall v | lo <= v < lo + |a + b|
      ensures 0 <= PhysAddr(pt, v) < |mem| && mem[PhysAddr(pt, v)] == (a + b)[v - lo]
    {
      if v >= lo + |a| {
        assert (a + b)[v - lo] == b[v - (lo + |a|)];
      }
    }
  }

  /** Physical memory after `writeVirtualMemory` has stored `src[from ..]`
      at the virtual addresses `[vaddr, cur)`, byte after byte in address
      order, starting from memory `mem0`: each byte goes to the physical
      address its virtual address translates to (one outside memory
      stores nothing). */
  function WriteImage(mem0: seq<byte>, pt: seq<TranslationEntry>, src: seq<byte>,
                      vaddr: int, from: int, cur: int): (r: seq<byte>)
    requires vaddr <= cur && 0 <= from && from + (cur - vaddr) <= |src|
    ensures |r| == |mem0|
    decreases cur - vaddr
  {
    if cur == vaddr then mem0
    else
      var m := WriteImage(mem0, pt, src, vaddr, from, cur - 1);
      var a := PhysAddr(pt, cur - 1);
      if 0 <= a < |m| then m[a := src[from + (cur - 1 - vaddr)]] else m
  }

  /** The last address of a write whose frame byte is in memory stores
      its source byte there on top of the shorter write. */
  lemma WriteImageLast(mem0: seq<byte>, pt: seq<TranslationEntry>, src: seq<byte>,
                       vaddr: int, from: int, cur: int)
    requires vaddr < cur && 0 <= from && from + (cur - vaddr) <= |src|
    requires 0 <= PhysAddr(pt, cur - 1) < |mem0|
    ensures WriteImage(mem0, pt, src, vaddr, from, cur)
            == WriteImage(mem0, pt, src, vaddr, from, cur - 1)[PhysAddr(pt, cur - 1) := src[from + (cur - 1 - vaddr)]]
  {
  }

  /** A write changes only physical bytes that some written virtual
      address translates to. */
  lemma {:induction false} WriteImageFrame(mem0: seq<byte>, pt: seq<TranslationEntry>, src: seq<byte>,
                                           vaddr: int, from: int, cur: int, a: int)
    requires vaddr <= cur && 0 <= from && from + (cur - vaddr) <= |src|
    requires 0 <= a < |mem0| && !Translates(pt, vaddr, cur, a)
    ensures WriteImage(mem0, pt, src, vaddr, from, cur)[a] == mem0[a]
    decreases cur - vaddr
  {
    if cur > vaddr {
      assert PhysAddr(pt, cur - 1) != a;
      WriteImageFrame(mem0, pt, src, vaddr, from, cur - 1, a);
    }
  }

  /** When the written virtual addresses translate to distinct physical
      bytes inside memory, memory afterwards holds the bytes written. */
  lemma {:induction false} WriteImageHolds(mem0: seq<byte>, pt: seq<TranslationEntry>, src: seq<byte>,
                                           vaddr: int, from: int, cur: int)
    requires vaddr <= cur && 0 <= from && from + (cur - vaddr) <= |src|
    requires forall v | vaddr <= v < cur :: 0 <= PhysAddr(pt, v) < |mem0|
    requires TranslationInjective(pt, vaddr, cur)
    ensures Holds(WriteImage(mem0, pt, src, vaddr, from, cur), pt, vaddr, src[from .. from + (cur - vaddr)])
    decreases cur - vaddr
  {
    if cur > vaddr {
      var m := WriteImage(mem0, pt, src, vaddr, from, cur - 1);
      WriteImageHolds(mem0, pt, src, vaddr, from, cur - 1);
      var a := PhysAddr(pt, cur - 1);
      var m' := m[a := src[from + (cur - 1 - vaddr)]];
      assert WriteImage(mem0, pt, src, vaddr, from, cur) == m';
      var image := src[from .. from + (cur - vaddr)];
      forall v | vaddr <= v < cur
        ensures 0 <= PhysAddr(pt, v) < |m'| && m'[PhysAddr(pt, v)] == image[v - vaddr]
      {
        if v < cur - 1 {
          assert PhysAddr(pt, v) != a;
          assert m[PhysAddr(pt, v)] == src[from .. from + (cur - 1 - vaddr)][v - vaddr];
        }
      }
    }
  }

  /** Writing the run `[cur, cur + size)` inside page `i` on top of an
      earlier write stores its bytes at the physical run from `phys` and
      leaves physical byte `a` elsewhere as the earlier write left it. */
  lemma {:induction false} WriteImagePageRun(mem0: seq<byte>, pt: seq<TranslationEntry>, src: seq<byte>,
                                             vaddr: int, from: int, i: int, cur: int, size: int, phys: int,
                                             a: int)
    requires 0 <= i < |pt| && 0 <= size && vaddr <= cur
    requires MakeAddress(i, 0) <= cur && cur + size <= MakeAddress(i + 1, 0)
    requires phys == MakeAddress(pt[i].ppn, cur - MakeAddress(i, 0)) && 0 <= phys && phys + size <= |mem0|
    requires 0 <= from && from + (cur + size - vaddr) <= |src| && 0 <= a < |mem0|
    ensures phys <= a < phys + size ==>
              WriteImage(mem0, pt, src, vaddr, from, cur + size)[a] == src[from + (cur - vaddr) + (a - phys)]
    ensures !(phys <= a < phys + size) ==>
              WriteImage(mem0, pt, src, vaddr, from, cur + size)[a] == WriteImage(mem0, pt, src, vaddr, from, cur)[a]
    decreases size
  {
    if size > 0 {
      var last := cur + (size - 1);
      PhysAddrInPage(pt, i, last);
      var p := phys + (size - 1);
      assert PhysAddr(pt, last) == p;
      WriteImageLast(mem0, pt, src, vaddr, from, cur + size);
      if a != p {
        WriteImagePageRun(mem0, pt, src, vaddr, from, i, cur, size - 1, phys, a);
      }
    }
  }

  /** Every address of a run whose pages are valid and name frames below
      `frames` translates into a memory of `frames` pages. */
  lemma RunInMemory(pt: seq<TranslationEntry>, frames: int, lo: int, hi: int)
    requires 0 <= lo < hi && PageFromAddress(hi - 1) < |pt|
    requires forall p | PageFromAddress(lo) <= p <= PageFromAddress(hi - 1) :: 0 <= pt[p].ppn < frames
    ensures forall v | lo <= v < hi :: 0 <= PhysAddr(pt, v) < frames * PageSize
  {
    forall v | lo <= v < hi
      ensures 0 <= PhysAddr(pt, v) < frames * PageSize
    {
      AddressSplit(v);
      assert PageFromAddress(lo) <= PageFromAddress(v) <= PageFromAddress(hi - 1);
      var f := pt[PageFromAddress(v)].ppn;
      assert PhysAddr(pt, v) == f * PageSize + OffsetFromAddress(v) < (f + 1) * PageSize;
      assert (f + 1) * PageSize <= frames * PageSize;
    }
  }

  /** The frames of the valid entries of `pt`, in table order. */
  function ValidFrames(pt: seq<TranslationEntry>): (r: seq<int>)
    ensures |r| <= |pt|
  {
    if pt == [] then []
    else ValidFrames(pt[..|pt| - 1]) + (if pt[|pt| - 1].valid then [pt[|pt| - 1].ppn] else [])
  }

  /** The frames of a table prefix grow by the next entry's frame when it is valid. */
  lemma ValidFramesStep(pt: seq<TranslationEntry>, i: int)
    requires 0 <= i < |pt|
    ensures ValidFrames(pt[..i + 1]) == ValidFrames(pt[..i]) + (if pt[i].valid then [pt[i].ppn] else [])
    ensures !pt[i].valid ==> ValidFrames(pt[..i + 1]) == ValidFrames(pt[..i])
  {
    assert pt[..i + 1][..i] == pt[..i];
  }

  /** The frames of the valid entries among the first `i`, last one first:
      the order in which reclaiming them entry by entry pushes them. */
  function ReclaimOrder(pt: seq<TranslationEntry>, i: int): seq<int>
    requires 0 <= i <= |pt|
  {
    if i == 0 then [] else (if pt[i - 1].valid then [pt[i - 1].ppn] else []) + ReclaimOrder(pt, i - 1)
  }

  /** Pushing the valid frames in table order leaves them reversed. */
  lemma {:induction false} ReclaimOrderReversed(pt: seq<TranslationEntry>, i: int)
    requires 0 <= i <= |pt|
    ensures ReclaimOrder(pt, i) == Reversed(ValidFrames(pt[..i]))
  {
    if i > 0 {
      ReclaimOrderReversed(pt, i - 1);
      ValidFramesStep(pt, i - 1);
      if pt[i - 1].valid {
        ReversedSnoc(ValidFrames(pt[..i - 1]), pt[i - 1].ppn);
      }
    }
  }

  /** Reclaiming entry `i` in front of the frames given back so far and
      `rest` gives the frames given back by the first `i + 1` entries. */
  lemma ReclaimOrderStep(pt: seq<TranslationEntry>, i: int, rest: seq<int>)
    requires 0 <= i < |pt|
    ensures ReclaimOrder(pt, i + 1) + rest
            == (if pt[i].valid then [pt[i].ppn] else []) + (ReclaimOrder(pt, i) + rest)
  {
    var head := if pt[i].valid then [pt[i].ppn] else [];
    assert (head + ReclaimOrder(pt, i)) + rest == head + (ReclaimOrder(pt, i) + rest);
  }

  /** When every valid entry names a frame below `frames`, so does every
      frame given back. */
  lemma {:induction false} ReclaimOrderInRange(pt: seq<TranslationEntry>, i: int, frames: int)
    requires 0 <= i <= |pt|
    requires forall q | 0 <= q < |pt| :: pt[q].valid ==> 0 <= pt[q].ppn < frames
    ensures forall x | 0 <= x < |ReclaimOrder(pt, i)| :: 0 <= ReclaimOrder(pt, i)[x] < frames
  {
    if i > 0 {
      ReclaimOrderInRange(pt, i - 1, frames);
    }
  }

  /** A table without valid entries has no frames to give back, so
      returning its pages a second time changes nothing. */
  lemma {:induction false} NoValidNoFrames(pt: seq<TranslationEntry>)
    requires forall i | 0 <= i < |pt| :: !pt[i].valid
    ensures ValidFrames(pt) == []
  {
    if pt != [] {
      NoValidNoFrames(pt[..|pt| - 1]);
    }
  }

  /** A frame is handed back exactly when some valid entry names it. */
  lemma {:induction false} ValidFramesMembers(pt: seq<TranslationEntry>, f: int)
    ensures f in ValidFrames(pt) <==> exists i | 0 <= i < |pt| :: pt[i].valid && pt[i].ppn == f
  {
    if pt != [] {
      var n := |pt| - 1;
      ValidFramesMembers(pt[..n], f);
      if f in ValidFrames(pt[..n]) {
        var i :| 0 <= i < n && pt[..n][i].valid && pt[..n][i].ppn == f;
        assert pt[i] == pt[..n][i];
      }
      if exists i | 0 <= i < |pt| :: pt[i].valid && pt[i].ppn == f {
        var i :| 0 <= i < |pt| && pt[i].valid && pt[i].ppn == f;
        if i < n {
          assert pt[..n][i] == pt[i];
        }
      }
    }
  }

  /** There is one frame per valid entry. */
  lemma {:induction false} ValidFramesLength(pt: seq<TranslationEntry>)
    ensures |ValidFrames(pt)| == |set i | 0 <= i < |pt| && pt[i].valid|
  {
    if pt != [] {
      var n := |pt| - 1;
      ValidFramesLength(pt[..n]);
      var s := set i | 0 <= i < n && pt[..n][i].valid;
      var s' := set i | 0 <= i < |pt| && pt[i].valid;
      assert s == set i | 0 <= i < n && pt[i].valid;
      if pt[n].valid {
        assert s' == s + {n};
      } else {
        assert s' == s;
      }
    }
  }

  /** A write that stays inside page `i` puts its bytes, in order, at the
      physical run its first address translates to. */
  lemma WriteInPage(mem0: seq<byte>, pt: seq<TranslationEntry>, src: seq<byte>,
                    vaddr: int, from: int, size: int, i: int)
    requires 0 <= i < |pt| && 0 <= size && 0 <= from && from + size <= |src|
    requires MakeAddress(i, 0) <= vaddr && vaddr + size <= MakeAddress(i + 1, 0)
    requires 0 <= pt[i].ppn && MakeAddress(pt[i].ppn + 1, 0) <= |mem0|
    ensures WriteImage(mem0, pt, src, vaddr, from, vaddr + size)
            == Splice(mem0, MakeAddress(pt[i].ppn, vaddr - MakeAddress(i, 0)), src[from .. from + size])
  {
    var phys := MakeAddress(pt[i].ppn, vaddr - MakeAddress(i, 0));
    var written := WriteImage(mem0, pt, src, vaddr, from, vaddr + size);
    var spliced := Splice(mem0, phys, src[from .. from + size]);
    forall a | 0 <= a < |mem0|
      ensures written[a] == spliced[a]
    {
      WriteImagePageRun(mem0, pt, src, vaddr, from, i, vaddr, size, phys, a);
      SpliceAt(mem0, phys, src[from .. from + size], a);
    }
  }

  /** A write request inside the writable last page `numPages - 1` of a
      process whose table has room left moves all of its bytes; an empty
      one, and any write once `numPages` has reached the table's length,
      moves none. */
  lemma InPageTransfer(pt: seq<TranslationEntry>, numPages: int, vaddr: int, length: int)
    requires 1 <= numPages <= |pt| && Accessible(pt[numPages - 1], true)
    requires numPages * PageSize <= Int32Max && 0 <= length
    requires MakeAddress(numPages - 1, 0) <= vaddr && vaddr + length <= MakeAddress(numPages, 0)
    ensures TransferCount(pt, numPages, vaddr, length, true)
            == if length == 0 || numPages == |pt| then 0 else length
  {
    var end := vaddr + length - 1;
    assert IsInt32(end);
    assert EndAddress(vaddr, length) == end;
    if length > 0 && numPages < |pt| {
      PageOfAddress(vaddr, numPages - 1);
      PageOfAddress(end, numPages - 1);
      FirstBlockedIs(pt, numPages - 1, numPages, numPages - 1, true);
    }
  }
}
