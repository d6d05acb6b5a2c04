/** The kernel's frame allocator and swap-slot bookkeeping (`UserKernel`).
    Free frames sit in a list used LIFO; when it is empty, `allocatePage`
    evicts the frame picked by the victim expression, looks up its owner
    `(pid, vpn)` in the inverted page table, copies the page out to the
    swap file and hands the frame back. The swap file is a map from a byte
    offset to the page stored there. */
module Kernel {
  import opened Machine
  import opened Util

  /** `InvertedPageTableIndex`: one virtual page of one process. */
  datatype PageKey = PageKey(pid: int, vpn: int)

  /** Swap slots are page-aligned offsets below `current`, no two keys share
      a slot, and every slot holds one page of the swap file. */
  predicate SwapLayout(positions: map<PageKey, int>, file: map<int, seq<byte>>, current: int)
  {
    0 <= current && current % PageSize == 0
    && (forall key | key in positions ::
          0 <= positions[key] < current && positions[key] % PageSize == 0
          && positions[key] in file && |file[positions[key]]| == PageSize)
    && (forall k1, k2 | k1 in positions && k2 in positions && k1 != k2 :: positions[k1] != positions[k2])
  }

  /** What evicting the page of `key`, with contents `page` and dirty bit
      `dirty`, does to the swap bookkeeping (`positions`, `file`, `current`
      before; the primed names after): a key that already has a slot keeps
      it and is rewritten there only when dirty; a key without one is
      written at `current`, which becomes its slot, and `current` moves on
      by one page. */
  predicate SwapOut(positions: map<PageKey, int>, file: map<int, seq<byte>>, current: int,
                    key: PageKey, dirty: bool, page: seq<byte>,
                    positions': map<PageKey, int>, file': map<int, seq<byte>>, current': int)
  {
    if key in positions then
      positions' == positions && current' == current
      && file' == (if dirty then file[positions[key] := page] else file)
    else
      positions' == positions[key := current] && current' == current + PageSize
      && file' == file[current := page]
  }

  /** Giving a key its first slot, at `current`, keeps the layout. */
  lemma NewSlotKeepsLayout(positions: map<PageKey, int>, file: map<int, seq<byte>>, current: int,
                           key: PageKey, page: seq<byte>)
    requires SwapLayout(positions, file, current) && key !in positions && |page| == PageSize
    ensures SwapLayout(positions[key := current], file[current := page], current + PageSize)
  {
    var positions', file' := positions[key := current], file[current := page];
    forall k | k in positions'
      ensures 0 <= positions'[k] < current + PageSize && positions'[k] % PageSize == 0
      ensures positions'[k] in file' && |file'[positions'[k]]| == PageSize
    {
      if k != key {
        assert positions'[k] == positions[k] < current;
        assert file'[positions[k]] == file[positions[k]];
      }
    }
  }

  /** Rewriting a page in the slot its key already has keeps the layout. */
  lemma RewriteKeepsLayout(positions: map<PageKey, int>, file: map<int, seq<byte>>, current: int,
                           key: PageKey, page: seq<byte>)
    requires SwapLayout(positions, file, current) && key in positions && |page| == PageSize
    ensures SwapLayout(positions, file[positions[key] := page], current)
  {
  }

  /** Every eviction keeps the swap layout well formed. */
  lemma SwapOutKeepsLayout(positions: map<PageKey, int>, file: map<int, seq<byte>>, current: int,
                           key: PageKey, dirty: bool, page: seq<byte>,
                           positions': map<PageKey, int>, file': map<int, seq<byte>>, current': int)
    requires SwapLayout(positions, file, current) && |page| == PageSize
    requires SwapOut(positions, file, current, key, dirty, page, positions', file', current')
    ensures SwapLayout(positions', file', current')
  {
    if key in positions {
      if dirty {
        RewriteKeepsLayout(positions, file, current, key, page);
      }
    } else {
      NewSlotKeepsLayout(positions, file, current, key, page);
    }
  }

  /** Evicting the same page twice uses the same swap offset both times and
      does not grow the swap file's end position the second time. */
  lemma EvictTwiceSameSlot(p0: map<PageKey, int>, f0: map<int, seq<byte>>, c0: int,
                           key: PageKey, d1: bool, page1: seq<byte>,
                           p1: map<PageKey, int>, f1: map<int, seq<byte>>, c1: int,
                           d2: bool, page2: seq<byte>,
                           p2: map<PageKey, int>, f2: map<int, seq<byte>>, c2: int)
    requires SwapOut(p0, f0, c0, key, d1, page1, p1, f1, c1)
    requires SwapOut(p1, f1, c1, key, d2, page2, p2, f2, c2)
    ensures key in p1 && key in p2 && p2[key] == p1[key]
    ensures c2 == c1 && (key !in p0 ==> p1[key] == c0)
    ensures d2 ==> f2[p1[key]] == page2
  {
  }

  /** Some key of the inverted table maps to frame `f`. */
  predicate Owned(inverted: map<PageKey, TranslationEntry>, f: int)
  {
    exists key | key in inverted :: inverted[key].ppn == f
  }

  class UserKernel {
    /** `Machine.processor().getNumPhysPages()`. */
    const numPhysPages: int
    /** Physical memory, `numPhysPages` pages of `PageSize` bytes. */
    const memory: array<byte>
    /** The free-frame list `pagetable`, head first. */
    var freeList: seq<int>
    /** The inverted page table: which process page each frame holds. */
    var inverted: map<PageKey, TranslationEntry>
    /** `swapFilePosition`: the swap slot assigned to each evicted page. */
    var swapPositions: map<PageKey, int>
    /** The swap file, as the page stored at each offset. */
    var swapFile: map<int, seq<byte>>
    /** `currentPosition`: where the next new swap slot goes. */
    var currentPosition: int

    /** Frames named anywhere are frames of physical memory, and the swap
        bookkeeping is well formed. */
    predicate Valid()
      reads this
    {
      0 <= numPhysPages && memory.Length == numPhysPages * PageSize <= Int32Max
      && (forall i | 0 <= i < |freeList| :: 0 <= freeList[i] < numPhysPages)
      && (forall key | key in inverted :: 0 <= inverted[key].ppn < numPhysPages)
      && SwapLayout(swapPositions, swapFile, currentPosition)
    }

    /** The kernel as `initialize` leaves it: every frame free, in
        increasing order, no swap slot used and `currentPosition` at 0. */
    constructor (n: int)
      requires 0 <= n && n * PageSize <= Int32Max
      ensures Valid() && numPhysPages == n && fresh(memory)
      ensures |freeList| == n && forall i | 0 <= i < n :: freeList[i] == i
      ensures inverted == map[] && swapPositions == map[] && swapFile == map[]
      ensures currentPosition == 0
    {
      numPhysPages := n;
      memory := new byte[n * PageSize];
      inverted := map[];
      swapPositions := map[];
      swapFile := map[];
      currentPosition := 0;
      var pages := [];
      var i := 0;
      while i < n
        invariant 0 <= i <= n
        invariant |pages| == i && forall j | 0 <= j < i :: pages[j] == j
      {
        pages := pages + [i];
        i := i + 1;
      }
      freeList := pages;
    }

    /** `allocatePage`. With a free frame, pops the head of the list and
        changes nothing else. Otherwise the victim is
        `floor(random * |freeList|)`, which is frame 0 since the list is
        empty; its owner is looked up in the inverted table, its page is
        swapped out (see `SwapOut`), its key is removed from the table and
        the frame is returned. When no key owns the victim the model
        returns -1 and changes nothing (the code goes on with a null key). */
    method AllocatePage(random: real) returns (ppn: int)
      requires Valid() && 0.0 <= random < 1.0
      modifies this
      ensures Valid()
      ensures ppn != -1 ==> 0 <= ppn < numPhysPages
      ensures ppn == -1 ==> old(freeList) == [] && freeList == []
      ensures old(freeList) != [] ==>
        ppn == old(freeList[0]) && freeList == old(freeList[1..])
        && inverted == old(inverted) && swapPositions == old(swapPositions)
        && swapFile == old(swapFile) && currentPosition == old(currentPosition)
      ensures old(freeList) == [] && !Owned(old(inverted), 0) ==>
        ppn == -1 && freeList == [] && inverted == old(inverted)
        && swapPositions == old(swapPositions) && swapFile == old(swapFile)
        && currentPosition == old(currentPosition)
      ensures old(freeList) == [] && Owned(old(inverted), 0) ==>
        ppn == 0 && freeList == [] && PageSize <= memory.Length
        && exists key | key in old(inverted) && old(inverted)[key].ppn == 0 ::
             inverted == old(inverted) - {key}
             && SwapOut(old(swapPositions), old(swapFile), old(currentPosition),
                        key, old(inverted)[key].dirty, memory[MakeAddress(0, 0) .. MakeAddress(1, 0)],
                        swapPositions, swapFile, currentPosition)
    {
      if freeList != [] {
        ppn := freeList[0];
        freeList := freeList[1..];
        return;
      }
      var randomPPN := (random * (|freeList| as real)).Floor;
      assert randomPPN == 0;
      ppn := Evict(randomPPN);
    }

    /** The eviction path of `allocatePage` for victim frame `victim`: when
        a key of the inverted table owns it, that page is swapped out, the
        key is dropped from the table and the frame is returned; otherwise
        -1 is returned and nothing changes. The free list is not touched. */
    method Evict(victim: int) returns (ppn: int)
      requires Valid() && 0 <= victim
      modifies this
      ensures Valid() && freeList == old(freeList)
      ensures !Owned(old(inverted), victim) ==>
        ppn == -1 && inverted == old(inverted)
        && swapPositions == old(swapPositions) && swapFile == old(swapFile)
        && currentPosition == old(currentPosition)
      ensures Owned(old(inverted), victim) ==>
        ppn == victim
        && exists key | key in old(inverted) && old(inverted)[key].ppn == victim ::
             inverted == old(inverted) - {key}
             && SwapOut(old(swapPositions), old(swapFile), old(currentPosition),
                        key, old(inverted)[key].dirty, memory[MakeAddress(victim, 0) .. MakeAddress(victim + 1, 0)],
                        swapPositions, swapFile, currentPosition)
    {
      ppn := -1;
      if !exists key | key in inverted :: inverted[key].ppn == victim {
        return;
      }
      var swapIndex :| swapIndex in inverted && inverted[swapIndex].ppn == victim;
      var swapEntry := inverted[swapIndex];
      var physicalStartAddr := MakeAddress(victim, 0);
      var data := new byte[PageSize];
      CopyBytes(memory, physicalStartAddr, data, 0, PageSize);
      assert data[..] == memory[physicalStartAddr .. MakeAddress(victim + 1, 0)];
      WritePageToSwap(swapIndex, swapEntry.dirty, data);
      ppn := victim;
      inverted := inverted - {swapIndex};
      assert Valid();
    }

    /** The swap-file half of an eviction: the page `data` of `key` goes to
        the key's slot when it has one (and only when `dirty`), otherwise to
        a new slot at `currentPosition`. */
    method WritePageToSwap(key: PageKey, dirty: bool, data: array<byte>)
      requires SwapLayout(swapPositions, swapFile, currentPosition) && data.Length == PageSize
      modifies this
      ensures SwapOut(old(swapPositions), old(swapFile), old(currentPosition), key, dirty, data[..],
                      swapPositions, swapFile, currentPosition)
      ensures SwapLayout(swapPositions, swapFile, currentPosition)
      ensures freeList == old(freeList) && inverted == old(inverted)
    {
      ghost var positions, file, current := swapPositions, swapFile, currentPosition;
      if key in swapPositions {
        if dirty {
          var pagePosition := swapPositions[key];
          swapFile := swapFile[pagePosition := data[..]];
        }
      } else {
        swapFile := swapFile[currentPosition := data[..]];
        swapPositions := swapPositions[key := currentPosition];
        currentPosition := currentPosition + data.Length;
      }
      SwapOutKeepsLayout(positions, file, current, key, dirty, data[..],
                         swapPositions, swapFile, currentPosition);
    }

    /** `reclaimPage(p)`: pushes `p` at the head of the free list, so the
        next `AllocatePage` returns it. */
    method ReclaimPage(p: int)
      modifies this
      ensures freeList == [p] + old(freeList)
      ensures inverted == old(inverted) && swapPositions == old(swapPositions)
      ensures swapFile == old(swapFile) && currentPosition == old(currentPosition)
      ensures old(Valid()) && 0 <= p < numPhysPages ==> Valid()
    {
      freeList := [p] + freeList;
    }
  }
}
