/** A user process's address space (`UserProcess`): its page table, the
    copy routines between user memory and kernel buffers, page reservation
    and release, and `load`'s placement of sections, stack and arguments. */
module Process {
  import opened Machine
  import opened Util
  import opened Kernel
  import opened VirtualMemory
  import opened Arguments

  /** `stackPages`. */
  const StackPages: int := 8
  /** `TOTALFILESIZE`, the size of the open-file table. */
  const TotalFileSize: int := 10

  /** A section of the executable as `load` sees it (`CoffSection`): its
      first virtual page, its length in pages and its write protection. */
  datatype Section = Section(firstVPN: int, length: nat, readOnly: bool)

  /** An executable that opened and parsed (`Coff`): its sections, in
      order, and its entry point. */
  datatype Executable = Executable(sections: seq<Section>, entryPoint: int)

  /** The pages the first `s` sections take together. */
  function SectionPages(sections: seq<Section>, s: int): nat
    requires 0 <= s <= |sections|
  {
    if s == 0 then 0 else SectionPages(sections, s - 1) + sections[s - 1].length
  }

  /** The first `s` sections lie end to end from page 0 on. */
  predicate ContiguousUpTo(sections: seq<Section>, s: int)
    requires 0 <= s <= |sections|
  {
    forall t {:trigger sections[t].firstVPN} | 0 <= t < s :: sections[t].firstVPN == SectionPages(sections, t)
  }

  /** The sections lie end to end from page 0 on, the layout `load` insists on. */
  predicate Contiguous(sections: seq<Section>)
  {
    ContiguousUpTo(sections, |sections|)
  }

  /** The pages a loaded program occupies: its sections, the stack and
      the argument page. */
  function ProgramPages(e: Executable): int
  {
    SectionPages(e.sections, |e.sections|) + StackPages + 1
  }

  /** Page `v` belongs to section `sec`. */
  predicate InSection(sec: Section, v: int)
  {
    sec.firstVPN <= v < sec.firstVPN + sec.length
  }

  /** Every page of the first `s` sections is valid in `pt`, writable
      exactly when its section is. */
  ghost predicate SectionsMapped(pt: seq<TranslationEntry>, sections: seq<Section>, s: int)
    requires 0 <= s <= |sections|
  {
    forall t, v {:trigger InSection(sections[t], v)} | 0 <= t < s && InSection(sections[t], v) ::
      0 <= v < |pt| && pt[v].valid && pt[v].readOnly == sections[t].readOnly
  }

  lemma {:induction false} SectionPagesMonotone(sections: seq<Section>, s: int, t: int)
    requires 0 <= s <= t <= |sections|
    ensures SectionPages(sections, s) <= SectionPages(sections, t)
    decreases t - s
  {
    if s < t {
      SectionPagesMonotone(sections, s, t - 1);
    }
  }

  /** With the first `s` sections laid out end to end, their pages lie
      below `SectionPages(sections, s)`. */
  lemma SectionsBelow(sections: seq<Section>, s: int)
    requires 0 <= s <= |sections|
    requires ContiguousUpTo(sections, s)
    ensures forall t, v {:trigger InSection(sections[t], v)} | 0 <= t < s && InSection(sections[t], v) :: 0 <= v < SectionPages(sections, s)
  {
    forall t, v | 0 <= t < s && InSection(sections[t], v)
      ensures 0 <= v < SectionPages(sections, s)
    {
      SectionPagesMonotone(sections, 0, t);
      SectionPagesMonotone(sections, t + 1, s);
    }
  }

  /** The sections' pages stay mapped when only pages from
      `SectionPages(sections, s)` on change. */
  lemma SectionsMappedKept(pt0: seq<TranslationEntry>, pt1: seq<TranslationEntry>, sections: seq<Section>, s: int)
    requires 0 <= s <= |sections| && |pt1| == |pt0|
    requires ContiguousUpTo(sections, s)
    requires SectionsMapped(pt0, sections, s)
    requires forall v | 0 <= v < SectionPages(sections, s) && v < |pt0| :: pt1[v] == pt0[v]
    ensures SectionsMapped(pt1, sections, s)
  {
    SectionsBelow(sections, s);
    forall t, v | 0 <= t < s && InSection(sections[t], v)
      ensures 0 <= v < |pt1| && pt1[v].valid && pt1[v].readOnly == sections[t].readOnly
    {
      assert 0 <= v < |pt0| && v < SectionPages(sections, s);
      assert pt1[v] == pt0[v];
    }
  }

  /** After `s` rounds of the section loop: the first `s` sections lie
      end to end from page 0 on, are mapped in `pt`, and `numPages` counts
      their pages; when the whole program fits (`enough`), their frames
      are the first ones of `free0` and `freeList` is the rest. */
  ghost predicate SectionsLoaded(sections: seq<Section>, s: int, numPages: int, pt: seq<TranslationEntry>,
                                 freeList: seq<int>, free0: seq<int>, enough: bool)
  {
    0 <= s <= |sections|
    && numPages == SectionPages(sections, s)
    && ContiguousUpTo(sections, s)
    && SectionsMapped(pt, sections, s)
    && (enough ==> SectionPages(sections, s) <= |free0| && freeList == free0[SectionPages(sections, s)..])
  }

  /** A round that maps section `s` at `numPages`, leaves the rest of the
      table alone and, when the whole program fits, takes the section's
      frames from the head of the free list advances the loop by one. */
  lemma SectionRound(sections: seq<Section>, s: int, n0: int, pt0: seq<TranslationEntry>, pt1: seq<TranslationEntry>,
                     n1: int, free1: seq<int>, fl0: seq<int>, free0: seq<int>, enough: bool)
    requires 0 <= s < |sections| && SectionsLoaded(sections, s, n0, pt0, fl0, free0, enough)
    requires sections[s].firstVPN == n0
    requires |pt1| == |pt0| && n1 == n0 + sections[s].length
    requires forall v | 0 <= v < |pt0| && !(n0 <= v < n1) :: pt1[v] == pt0[v]
    requires forall v | n0 <= v < n1 ::
               v < |pt1| && pt1[v].valid && pt1[v].readOnly == sections[s].readOnly
    requires enough ==> sections[s].length <= |fl0| && free1 == fl0[sections[s].length..]
    ensures SectionsLoaded(sections, s + 1, n1, pt1, free1, free0, enough)
  {
    ContiguousStep(sections, s);
    SectionsMappedStep(pt0, pt1, sections, s);
    if enough {
      DropTwice(free0, SectionPages(sections, s), sections[s].length);
    }
  }

  /** Mapping section `s` at `SectionPages(sections, s)` on top of the
      earlier ones maps the first `s + 1` sections. */
  lemma SectionsMappedStep(pt0: seq<TranslationEntry>, pt1: seq<TranslationEntry>, sections: seq<Section>, s: int)
    requires 0 <= s < |sections| && |pt1| == |pt0|
    requires ContiguousUpTo(sections, s + 1)
    requires SectionsMapped(pt0, sections, s)
    requires forall v | 0 <= v < SectionPages(sections, s) && v < |pt0| :: pt1[v] == pt0[v]
    requires forall v | SectionPages(sections, s) <= v < SectionPages(sections, s + 1) ::
               0 <= v < |pt1| && pt1[v].valid && pt1[v].readOnly == sections[s].readOnly
    ensures SectionsMapped(pt1, sections, s + 1)
  {
    SectionsMappedKept(pt0, pt1, sections, s);
    SectionPagesMonotone(sections, 0, s);
  }

  lemma ContiguousStep(sections: seq<Section>, s: int)
    requires 0 <= s < |sections| && ContiguousUpTo(sections, s)
    requires sections[s].firstVPN == SectionPages(sections, s)
    ensures ContiguousUpTo(sections, s + 1)
  {
  }

  lemma DropTwice(xs: seq<int>, a: nat, b: nat)
    requires a + b <= |xs|
    ensures xs[a..][b..] == xs[a + b..]
  {
  }

  class UserProcess {
    /** One entry per physical frame of the machine, indexed by virtual page. */
    const pageTable: array<TranslationEntry>
    /** The pages the program occupies, `0 .. numPages - 1`. */
    var numPages: int
    const processId: int
    /** The open-file table: `files[fd]` holds when descriptor `fd` is open. */
    var files: seq<bool>
    /** Where the program starts, as `load` leaves them: the entry point,
        the top of the stack, and `argc`/`argv` for `main`. */
    var initialPC: int
    var initialSP: int
    var argc: int
    var argv: int

    /** `initialPC`, `initialSP`, `argc` and `argv` together. */
    function StartRegisters(): seq<int>
      reads this
    {
      [initialPC, initialSP, argc, argv]
    }

    /** Entry `i` describes virtual page `i`; a valid entry names a frame of
        the kernel's memory; `numPages` stays within the table. */
    predicate Valid(k: UserKernel)
      reads this, pageTable
    {
      pageTable.Length == k.numPhysPages
      && k.memory.Length == k.numPhysPages * PageSize <= Int32Max
      && (forall i | 0 <= i < pageTable.Length ::
            pageTable[i].vpn == i && (pageTable[i].valid ==> 0 <= pageTable[i].ppn < k.numPhysPages))
      && 0 <= numPages <= pageTable.Length
      && |files| == TotalFileSize
    }

    /** `new UserProcess()`: a page table of invalid entries, one per frame,
        process id `pid`, and descriptors 0 and 1 open on the console. */
    constructor (k: UserKernel, pid: int)
      requires k.memory.Length == k.numPhysPages * PageSize <= Int32Max && 0 <= k.numPhysPages
      ensures Valid(k) && fresh(pageTable) && processId == pid && numPages == 0
      ensures forall i | 0 <= i < pageTable.Length :: pageTable[i] == InvalidEntry(i)
      ensures forall fd | 0 <= fd < TotalFileSize :: files[fd] == (fd == 0 || fd == 1)
    {
      var table := new TranslationEntry[k.numPhysPages](i => InvalidEntry(i));
      pageTable := table;
      processId := pid;
      numPages := 0;
      files := [true, true, false, false, false, false, false, false, false, false];
      initialPC, initialSP, argc, argv := 0, 0, 0, 0;
    }

    /** `readVirtualMemory(vaddr, data, offset, length)`: copies the request
        page by page into `data` from `offset` on, stopping at the first
        invalid page. Its count is `TransferCount`; the bytes copied are the
        physical bytes the virtual addresses translate to; nothing else in
        `data` changes. */
    method ReadVirtualMemory(k: UserKernel, vaddr: int, data: array<byte>, offset: int, length: int)
      returns (n: int)
      requires Valid(k) && data != k.memory
      requires IsInt32(vaddr) && IsInt32(offset) && IsInt32(length)
      requires offset >= 0 && length >= 0 && offset + length <= data.Length
      modifies data
      ensures n == TransferCount(pageTable[..], numPages, vaddr, length, false)
      ensures 0 <= n <= length
      ensures Holds(k.memory[..], pageTable[..], vaddr, data[offset .. offset + n])
      ensures forall a | 0 <= a < data.Length && !(offset <= a < offset + n) :: data[a] == old(data[a])
    {
      ghost var mem := k.memory[..];
      var totalRead := 0;
      var endVaddr := Wrap32(vaddr + length - 1);
      var lastAllowableAddress := MakeAddress(numPages - 1, PageSize - 1);
      if vaddr < 0 || endVaddr > lastAllowableAddress || endVaddr < vaddr || numPages == 0 {
        return 0;
      }
      n := ReadAccepted(k, data, vaddr, offset, length, endVaddr, numPages, pageTable[..], mem);
    }

    /** `readVirtualMemory` past its guard: the page loop, read as the
        method's result. */
    method ReadAccepted(k: UserKernel, data: array<byte>, vaddr: int, offset: int, length: int,
                        endVaddr: int, np: int, pt: seq<TranslationEntry>, ghost mem: seq<byte>)
      returns (n: int)
      requires k.memory.Length == k.numPhysPages * PageSize && data != k.memory && mem == k.memory[..]
      requires forall p | 0 <= p < |pt| && pt[p].valid :: 0 <= pt[p].ppn < k.numPhysPages
      requires 0 <= np <= |pt| && IsInt32(vaddr) && 0 <= length <= Int32Max
      requires !Rejected(|pt|, np, vaddr, length, false) && endVaddr == EndAddress(vaddr, length)
      requires offset >= 0 && offset + length <= data.Length
      modifies data
      ensures n == TransferCount(pt, np, vaddr, length, false) && 0 <= n <= length
      ensures Holds(mem, pt, vaddr, data[offset .. offset + n])
      ensures forall a | 0 <= a < data.Length && !(offset <= a < offset + n) :: data[a] == old(data[a])
    {
      AcceptedEnd(|pt|, np, vaddr, length, false);
      AcceptedPages(|pt|, np, vaddr, length, false);
      var i, cur;
      i, cur, n := ReadPages(k, data, vaddr, offset, endVaddr, FirstPage(vaddr), LastPage(vaddr, length),
                             pt, mem);
      LoopExitCount(pt, np, vaddr, length, false, i, n);
    }

    /** The page loop of `readVirtualMemory` for an accepted request
        `[vaddr, endVaddr]`: from the request's first page on, while the
        pages are valid, each page's run is copied in. */
    method ReadPages(k: UserKernel, data: array<byte>, vaddr: int, offset: int, endVaddr: int,
                     firstVPN: int, lastVPN: int, pt: seq<TranslationEntry>, ghost mem: seq<byte>)
      returns (i: int, cur: int, totalRead: int)
      requires k.memory.Length == k.numPhysPages * PageSize && data != k.memory && mem == k.memory[..]
      requires forall p | 0 <= p < |pt| && pt[p].valid :: 0 <= pt[p].ppn < k.numPhysPages
      requires 0 <= vaddr <= endVaddr && firstVPN == PageFromAddress(vaddr) && lastVPN == PageFromAddress(endVaddr)
      requires lastVPN < |pt|
      requires 0 <= offset && offset + (endVaddr + 1 - vaddr) <= data.Length
      modifies data
      ensures firstVPN <= i <= lastVPN + 1
      ensures forall p | firstVPN <= p < i :: Accessible(pt[p], false)
      ensures i <= lastVPN ==> !Accessible(pt[i], false)
      ensures cur == if i == firstVPN then vaddr else if i <= lastVPN then MakeAddress(i, 0) else endVaddr + 1
      ensures vaddr <= cur <= endVaddr + 1 && totalRead == cur - vaddr
      ensures Holds(mem, pt, vaddr, data[offset .. offset + totalRead])
      ensures forall a | 0 <= a < data.Length && !(offset <= a < offset + totalRead) :: data[a] == old(data[a])
    {
      cur := vaddr;
      totalRead := 0;
      i := firstVPN;
      while i <= lastVPN
        invariant firstVPN <= i <= lastVPN + 1
        invariant forall p | firstVPN <= p < i :: Accessible(pt[p], false)
        invariant cur == if i == firstVPN then vaddr else if i <= lastVPN then MakeAddress(i, 0) else endVaddr + 1
        invariant vaddr <= cur <= endVaddr + 1 && totalRead == cur - vaddr
        invariant Holds(mem, pt, vaddr, data[offset .. offset + totalRead])
        invariant forall a | 0 <= a < data.Length && !(offset <= a < offset + totalRead) :: data[a] == old(data[a])
      {
        if i < 0 || i > |pt| || !pt[i].valid {
          break;
        }
        var readSize := ReadPage(k, data, vaddr, offset, endVaddr, firstVPN, lastVPN, i, cur, pt, mem);
        totalRead := totalRead + readSize;
        cur := cur + readSize;
        i := i + 1;
      }
    }

    /** One round of `readVirtualMemory`'s page loop, at a valid page `i`:
        the run from `cur` to the end of the page or of the request is
        copied in, and the cursor moves to the next page's start or just
        past the request's end. */
    method ReadPage(k: UserKernel, data: array<byte>, vaddr: int, offset: int, endVaddr: int,
                    firstVPN: int, lastVPN: int, i: int, cur: int, pt: seq<TranslationEntry>,
                    ghost mem: seq<byte>)
      returns (readSize: int)
      requires k.memory.Length == k.numPhysPages * PageSize && data != k.memory && mem == k.memory[..]
      requires 0 <= vaddr <= endVaddr && firstVPN == PageFromAddress(vaddr) && lastVPN == PageFromAddress(endVaddr)
      requires firstVPN <= i <= lastVPN && i < |pt|
      requires pt[i].valid && 0 <= pt[i].ppn < k.numPhysPages
      requires cur == if i == firstVPN then vaddr else MakeAddress(i, 0)
      requires 0 <= offset && offset + (endVaddr + 1 - vaddr) <= data.Length
      requires Holds(mem, pt, vaddr, data[offset .. offset + (cur - vaddr)])
      modifies data
      ensures cur + readSize == if i + 1 <= lastVPN then MakeAddress(i + 1, 0) else endVaddr + 1
      ensures cur + readSize <= endVaddr + 1 && 0 <= readSize
      ensures Holds(mem, pt, vaddr, data[offset .. offset + (cur - vaddr) + readSize])
      ensures forall a | 0 <= a < data.Length && !(offset + (cur - vaddr) <= a < offset + (cur - vaddr) + readSize) ::
                data[a] == old(data[a])
    {
      var pageStart := MakeAddress(i, 0);
      var pageEnd := MakeAddress(i, PageSize - 1);
      readSize := 0;
      if endVaddr > pageEnd {
        readSize := pageEnd - cur + 1;
      } else {
        readSize := endVaddr - cur + 1;
      }
      var readOffset := cur - pageStart;
      PageStep(vaddr, endVaddr, i, cur, readSize);
      var physicalStartAddr := MakeAddress(pt[i].ppn, readOffset);
      CopyPageIn(k, data, vaddr, offset, cur - vaddr, i, cur, readSize, physicalStartAddr, pt, mem);
    }

    /** `writeVirtualMemory(vaddr, data, offset, length)`: copies
        `data[offset ..]` page by page into the frames behind the request,
        stopping at the first invalid or read-only page. Its count is
        `TransferCount`; every address written translates into physical
        memory, and memory afterwards is the `WriteImage` of the bytes
        written (`WriteImageFrame` and `WriteImageHolds` say what that
        changes). */
    method WriteVirtualMemory(k: UserKernel, vaddr: int, data: array<byte>, offset: int, length: int)
      returns (n: int)
      requires Valid(k) && data != k.memory
      requires IsInt32(vaddr) && IsInt32(offset) && IsInt32(length)
      requires offset >= 0 && length >= 0 && offset + length <= data.Length
      modifies k.memory
      ensures n == TransferCount(pageTable[..], numPages, vaddr, length, true)
      ensures 0 <= n <= length
      ensures forall v | vaddr <= v < vaddr + n :: 0 <= PhysAddr(pageTable[..], v) < k.memory.Length
      ensures k.memory[..] == WriteImage(old(k.memory[..]), pageTable[..], data[..], vaddr, offset, vaddr + n)
    {
      ghost var pt, mem0, src := pageTable[..], k.memory[..], data[..];
      var totalWrite := 0;
      var endVaddr := Wrap32(vaddr + length - 1);
      var allowableLastAddress := MakeAddress(numPages - 1, PageSize - 1);
      if vaddr < 0 || endVaddr > allowableLastAddress || endVaddr < vaddr || numPages >= pageTable.Length {
        assert WriteImage(mem0, pt, src, vaddr, offset, vaddr + 0) == mem0;
        return 0;
      }
      n := WriteAccepted(k, data, vaddr, offset, length, endVaddr, numPages, pageTable[..], mem0, src);
    }

    /** `writeVirtualMemory` past its guard: the page loop, read as the
        method's result. */
    method WriteAccepted(k: UserKernel, data: array<byte>, vaddr: int, offset: int, length: int,
                         endVaddr: int, np: int, pt: seq<TranslationEntry>,
                         ghost mem0: seq<byte>, ghost src: seq<byte>)
      returns (n: int)
      requires k.memory.Length == k.numPhysPages * PageSize && data != k.memory
      requires mem0 == k.memory[..] && src == data[..]
      requires forall p | 0 <= p < |pt| && pt[p].valid :: 0 <= pt[p].ppn < k.numPhysPages
      requires 0 <= np <= |pt| && IsInt32(vaddr) && 0 <= length <= Int32Max
      requires !Rejected(|pt|, np, vaddr, length, true) && endVaddr == EndAddress(vaddr, length)
      requires offset >= 0 && offset + length <= data.Length
      modifies k.memory
      ensures n == TransferCount(pt, np, vaddr, length, true) && 0 <= n <= length
      ensures forall v | vaddr <= v < vaddr + n :: 0 <= PhysAddr(pt, v) < k.memory.Length
      ensures k.memory[..] == WriteImage(mem0, pt, src, vaddr, offset, vaddr + n)
    {
      AcceptedEnd(|pt|, np, vaddr, length, true);
      AcceptedPages(|pt|, np, vaddr, length, true);
      var i, cur;
      i, cur, n := WritePages(k, data, vaddr, offset, endVaddr, FirstPage(vaddr), LastPage(vaddr, length),
                              pt, mem0, src);
      WriteLoopExit(pt, k.numPhysPages, np, vaddr, length, i, n);
      assert vaddr + n == cur;
    }

    /** The page loop of `writeVirtualMemory` for an accepted request
        `[vaddr, endVaddr]`: from the request's first page on, while the
        pages are accessible for writing, each page's run is copied out. */
    method WritePages(k: UserKernel, data: array<byte>, vaddr: int, offset: int, endVaddr: int,
                      firstVPN: int, lastVPN: int,
                      pt: seq<TranslationEntry>, ghost mem0: seq<byte>, ghost src: seq<byte>)
      returns (i: int, cur: int, totalWrite: int)
      requires k.memory.Length == k.numPhysPages * PageSize && data != k.memory
      requires mem0 == k.memory[..] && src == data[..]
      requires forall p | 0 <= p < |pt| && pt[p].valid :: 0 <= pt[p].ppn < k.numPhysPages
      requires 0 <= vaddr <= endVaddr && firstVPN == PageFromAddress(vaddr) && lastVPN == PageFromAddress(endVaddr)
      requires lastVPN < |pt|
      requires 0 <= offset && offset + (endVaddr + 1 - vaddr) <= data.Length
      modifies k.memory
      ensures firstVPN <= i <= lastVPN + 1
      ensures forall p | firstVPN <= p < i :: Accessible(pt[p], true)
      ensures i <= lastVPN ==> !Accessible(pt[i], true)
      ensures cur == if i == firstVPN then vaddr else if i <= lastVPN then MakeAddress(i, 0) else endVaddr + 1
      ensures vaddr <= cur <= endVaddr + 1 && totalWrite == cur - vaddr
      ensures k.memory[..] == WriteImage(mem0, pt, src, vaddr, offset, cur)
    {
      cur := vaddr;
      totalWrite := 0;
      i := firstVPN;
      while i <= lastVPN
        invariant firstVPN <= i <= lastVPN + 1
        invariant forall p | firstVPN <= p < i :: Accessible(pt[p], true)
        invariant cur == if i == firstVPN then vaddr else if i <= lastVPN then MakeAddress(i, 0) else endVaddr + 1
        invariant vaddr <= cur <= endVaddr + 1 && totalWrite == cur - vaddr
        invariant k.memory[..] == WriteImage(mem0, pt, src, vaddr, offset, cur)
      {
        if i < 0 || i > |pt| || pt[i].readOnly || !pt[i].valid {
          break;
        }
        assert Accessible(pt[i], true);
        var writeSize := WritePage(k, data, vaddr, offset, endVaddr, firstVPN, lastVPN, i, cur, pt, mem0, src);
        totalWrite := totalWrite + writeSize;
        cur := cur + writeSize;
        i := i + 1;
        assert k.memory[..] == WriteImage(mem0, pt, src, vaddr, offset, cur);
      }
    }

    /** One round of `writeVirtualMemory`'s page loop, at an accessible
        page `i`: the run from `cur` to the end of the page or of the
        request is copied out, and the cursor moves to the next page's start
        or just past the request's end. */
    method WritePage(k: UserKernel, data: array<byte>, vaddr: int, offset: int, endVaddr: int,
                     firstVPN: int, lastVPN: int,
                     i: int, cur: int, pt: seq<TranslationEntry>, ghost mem0: seq<byte>,
                     ghost src: seq<byte>)
      returns (writeSize: int)
      requires k.memory.Length == k.numPhysPages * PageSize && data != k.memory
      requires 0 <= vaddr <= endVaddr && firstVPN == PageFromAddress(vaddr) && lastVPN == PageFromAddress(endVaddr)
      requires firstVPN <= i <= lastVPN && i < |pt|
      requires Accessible(pt[i], true) && 0 <= pt[i].ppn < k.numPhysPages
      requires cur == if i == firstVPN then vaddr else MakeAddress(i, 0)
      requires 0 <= offset && offset + (endVaddr + 1 - vaddr) <= data.Length && src == data[..]
      requires |mem0| == k.memory.Length && k.memory[..] == WriteImage(mem0, pt, src, vaddr, offset, cur)
      modifies k.memory
      ensures cur + writeSize == if i + 1 <= lastVPN then MakeAddress(i + 1, 0) else endVaddr + 1
      ensures cur + writeSize <= endVaddr + 1
      ensures k.memory[..] == WriteImage(mem0, pt, src, vaddr, offset, cur + writeSize)
    {
      var pageStart := MakeAddress(i, 0);
      var pageEnd := MakeAddress(i, PageSize - 1);
      writeSize := 0;
      if endVaddr > pageEnd {
        writeSize := pageEnd - cur + 1;
      } else {
        writeSize := endVaddr - cur + 1;
      }
      var writeOffset := cur - pageStart;
      PageStep(vaddr, endVaddr, i, cur, writeSize);
      var physicalStartAddr := MakeAddress(pt[i].ppn, writeOffset);
      CopyPageOut(k, data, vaddr, offset, cur - vaddr, i, cur, writeSize, physicalStartAddr, mem0, pt, src);
    }

    /** The inner copy loop of `writeVirtualMemory` for page `i`: `size`
        bytes of `data` from `offset + done` go to the frame behind virtual
        address `cur`, extending the write by one run. */
    method CopyPageOut(k: UserKernel, data: array<byte>, vaddr: int, offset: int, done: int,
                       i: int, cur: int, size: int, phys: int,
                       ghost mem0: seq<byte>, ghost pt: seq<TranslationEntry>, ghost src: seq<byte>)
      requires k.memory.Length == k.numPhysPages * PageSize && data != k.memory
      requires 0 <= i < |pt| && 0 <= pt[i].ppn < k.numPhysPages
      requires MakeAddress(i, 0) <= cur && 0 <= size && cur + size <= MakeAddress(i + 1, 0)
      requires phys == MakeAddress(pt[i].ppn, cur - MakeAddress(i, 0))
      requires done == cur - vaddr && 0 <= done && 0 <= offset && offset + done + size <= data.Length
      requires src == data[..]
      requires |mem0| == k.memory.Length && k.memory[..] == WriteImage(mem0, pt, src, vaddr, offset, cur)
      modifies k.memory
      ensures k.memory[..] == WriteImage(mem0, pt, src, vaddr, offset, cur + size)
    {
      assert phys + size <= (pt[i].ppn + 1) * PageSize <= k.memory.Length;
      CopyBytes(data, offset + done, k.memory, phys, size);
      forall a | 0 <= a < k.memory.Length
        ensures k.memory[a] == WriteImage(mem0, pt, src, vaddr, offset, cur + size)[a]
      {
        WriteImagePageRun(mem0, pt, src, vaddr, offset, i, cur, size, phys, a);
      }
    }

    /** `readVirtualMemoryString(vaddr, maxLength)`: reads up to
        `maxLength + 1` bytes and returns those before the first zero among
        them, or `None` when none of them is zero. */
    method ReadVirtualMemoryString(k: UserKernel, vaddr: int, maxLength: int) returns (r: Option<seq<byte>>)
      requires Valid(k) && IsInt32(vaddr) && 0 <= maxLength < Int32Max
      ensures forall v | vaddr <= v < vaddr + TransferCount(pageTable[..], numPages, vaddr, maxLength + 1, false) ::
                0 <= PhysAddr(pageTable[..], v) < k.memory.Length
      ensures r.None? <==>
                forall v | vaddr <= v < vaddr + TransferCount(pageTable[..], numPages, vaddr, maxLength + 1, false) ::
                  k.memory[PhysAddr(pageTable[..], v)] != 0
      ensures r.Some? ==>
                |r.value| <= maxLength && 0 !in r.value
                && |r.value| < TransferCount(pageTable[..], numPages, vaddr, maxLength + 1, false)
                && Holds(k.memory[..], pageTable[..], vaddr, r.value + [0])
      ensures r.Some? ==> StringHeld(k.memory[..], pageTable[..], numPages, vaddr, maxLength, r.value)
      ensures forall t | StringHeld(k.memory[..], pageTable[..], numPages, vaddr, maxLength, t) :: r == Some(t)
    {
      ghost var pt, mem := pageTable[..], k.memory[..];
      var bytes := new byte[maxLength + 1];
      var bytesRead := ReadVirtualMemory(k, vaddr, bytes, 0, maxLength + 1);
      var length := ZeroIndex(bytes, bytesRead);
      StringImage(mem, pt, vaddr, bytes[0 .. bytesRead], length);
      if length < bytesRead {
        assert bytes[0 .. bytesRead][..length] == bytes[..length];
        r := Some(bytes[..length]);
      } else {
        r := None;
      }
      forall t | StringHeld(mem, pt, numPages, vaddr, maxLength, t)
        ensures r == Some(t)
      {
        assert mem[PhysAddr(pt, vaddr + |t|)] == (t + [0])[|t|] == 0;
        assert r.Some?;
        HeldStringUnique(mem, pt, vaddr, r.value, t);
      }
    }

    /** The scan of `readVirtualMemoryString`: the position of the first
        zero among the first `count` bytes, or `count` when there is none. */
    static method ZeroIndex(bytes: array<byte>, count: int) returns (length: int)
      requires 0 <= count <= bytes.Length
      ensures 0 <= length <= count
      ensures forall j | 0 <= j < length :: bytes[j] != 0
      ensures length < count ==> bytes[length] == 0
    {
      length := 0;
      while length < count
        invariant 0 <= length <= count
        invariant forall j | 0 <= j < length :: bytes[j] != 0
      {
        if bytes[length] == 0 {
          return;
        }
        length := length + 1;
      }
    }

    /** The inner copy loop of `readVirtualMemory` for page `i`: `size`
        bytes from virtual address `cur`, which is `done` bytes into the
        request, go to `data[offset + done ..]`, extending the image held so far. */
    method CopyPageIn(k: UserKernel, data: array<byte>, vaddr: int, offset: int, done: int,
                      i: int, cur: int, size: int, phys: int,
                      pt: seq<TranslationEntry>, ghost mem: seq<byte>)
      requires k.memory.Length == k.numPhysPages * PageSize && data != k.memory && mem == k.memory[..]
      requires 0 <= i < |pt| && 0 <= pt[i].ppn < k.numPhysPages
      requires MakeAddress(i, 0) <= cur && 0 <= size && cur + size <= MakeAddress(i + 1, 0)
      requires phys == MakeAddress(pt[i].ppn, cur - MakeAddress(i, 0))
      requires done == cur - vaddr && 0 <= offset && 0 <= done && offset + done + size <= data.Length
      requires Holds(mem, pt, vaddr, data[offset .. offset + done])
      modifies data
      ensures Holds(mem, pt, vaddr, data[offset .. offset + done + size])
      ensures forall a | 0 <= a < data.Length && !(offset + done <= a < offset + done + size) ::
                data[a] == old(data[a])
    {
      ghost var before := data[offset .. offset + done];
      assert phys + size <= (pt[i].ppn + 1) * PageSize <= k.memory.Length;
      CopyBytes(k.memory, phys, data, offset + done, size);
      assert data[offset .. offset + done] == before;
      PageRunHolds(mem, pt, i, cur, size, phys);
      assert data[offset + done .. offset + done + size] == mem[phys .. phys + size];
      HoldsAppend(mem, pt, vaddr, before, data[offset + done .. offset + done + size]);
      SliceSplit(data[..], offset, offset + done, offset + done + size);
    }

    /** `allocate(startingVPN, totalPage, readOnly)`, called as `load` does
        with `startingVPN == numPages`, every frame request passing
        `random` to `allocatePage`. Page by page it asks the kernel for a
        frame and installs a valid entry for it; `frames` are the frames it
        got. Running past the page table ends it with `false` and keeps the
        pages installed so far; a frame request answered with -1 ends it
        with `false` after undoing this call's pages, whose frames go back
        to the free list. With enough free frames the frames are the head
        of the free list, in order. */
    method Allocate(k: UserKernel, startingVPN: int, totalPage: int, readOnly: bool, random: real)
      returns (ok: bool, ghost frames: seq<int>)
      requires Valid(k) && k.Valid() && startingVPN == numPages && 0 <= totalPage && 0.0 <= random < 1.0
      modifies this, pageTable, k
      ensures Valid(k) && k.Valid() && files == old(files) && StartRegisters() == old(StartRegisters())
      ensures |frames| <= totalPage && (ok <==> |frames| == totalPage)
      ensures forall j | 0 <= j < |frames| :: 0 <= frames[j] < k.numPhysPages
      ensures startingVPN + |frames| <= pageTable.Length
      ensures forall v | 0 <= v < pageTable.Length && !(startingVPN <= v < startingVPN + |frames|) ::
                pageTable[v] == old(pageTable[v])
      ensures ok || startingVPN + |frames| == pageTable.Length ==>
                numPages == old(numPages) + |frames|
                && forall v | startingVPN <= v < startingVPN + |frames| ::
                     pageTable[v] == TranslationEntry(v, frames[v - startingVPN], true, readOnly, false, false)
      ensures !ok && startingVPN + |frames| < pageTable.Length ==>
                numPages == old(numPages) && k.freeList == Reversed(frames)
                && forall v | startingVPN <= v < startingVPN + |frames| :: pageTable[v] == InvalidEntry(v)
      ensures totalPage <= |old(k.freeList)| && startingVPN + totalPage <= pageTable.Length ==>
                ok && frames == old(k.freeList[..totalPage]) && k.freeList == old(k.freeList[totalPage..])
    {
      ghost var free0 := k.freeList;
      var pages: seq<TranslationEntry> := [];
      frames := [];
      var i := 0;
      while i < totalPage
        invariant 0 <= i <= totalPage && |pages| == i && |frames| == i
        invariant numPages == startingVPN + i <= pageTable.Length
        invariant Valid(k) && k.Valid() && files == old(files) && StartRegisters() == old(StartRegisters())
        invariant forall j | 0 <= j < i :: 0 <= frames[j] < k.numPhysPages
        invariant forall j | 0 <= j < i ::
                    pages[j] == TranslationEntry(startingVPN + j, frames[j], true, readOnly, false, false)
        invariant forall v | startingVPN <= v < startingVPN + i :: pageTable[v] == pages[v - startingVPN]
        invariant forall v | 0 <= v < pageTable.Length && !(startingVPN <= v < startingVPN + i) ::
                    pageTable[v] == old(pageTable[v])
        invariant i <= |free0| ==> frames == free0[..i] && k.freeList == free0[i..]
      {
        if startingVPN + i >= pageTable.Length {
          return false, frames;
        }
        assert i < |free0| ==> free0[i..][0] == free0[i] && free0[i..][1..] == free0[i + 1..]
                               && free0[..i + 1] == free0[..i] + [free0[i]];
        var ppn := InstallPage(k, startingVPN + i, readOnly, random);
        if ppn == -1 {
          Rollback(k, pages, startingVPN, frames);
          assert Reversed(frames) + [] == Reversed(frames);
          return false, frames;
        }
        pages := pages + [TranslationEntry(startingVPN + i, ppn, true, readOnly, false, false)];
        frames := frames + [ppn];
        i := i + 1;
      }
      return true, frames;
    }

    /** One round of `allocate`'s loop past the table check: asks the
        kernel for a frame and, unless it answers -1, installs a valid entry
        for it at `vpn` and counts the page. */
    method InstallPage(k: UserKernel, vpn: int, readOnly: bool, random: real) returns (ppn: int)
      requires Valid(k) && k.Valid() && vpn == numPages < pageTable.Length && 0.0 <= random < 1.0
      modifies this, pageTable, k
      ensures Valid(k) && k.Valid() && files == old(files) && StartRegisters() == old(StartRegisters())
      ensures ppn == -1 ==> old(k.freeList) == [] && k.freeList == [] && numPages == old(numPages)
                            && forall v | 0 <= v < pageTable.Length :: pageTable[v] == old(pageTable[v])
      ensures ppn != -1 ==> 0 <= ppn < k.numPhysPages && numPages == old(numPages) + 1
                            && pageTable[vpn] == TranslationEntry(vpn, ppn, true, readOnly, false, false)
                            && forall v | 0 <= v < pageTable.Length && v != vpn :: pageTable[v] == old(pageTable[v])
      ensures old(k.freeList) != [] ==> ppn == old(k.freeList[0]) && k.freeList == old(k.freeList[1..])
    {
      ppn := k.AllocatePage(random);
      if ppn != -1 {
        var newEntry := TranslationEntry(vpn, ppn, true, readOnly, false, false);
        pageTable[vpn] := newEntry;
        numPages := numPages + 1;
      }
    }

    /** The undo branch of `allocate`: every entry of `pages`, installed
        at `start ..`, is reset to an invalid entry and its frame reclaimed,
        one `numPages` at a time. The frames end up at the head of the free
        list, last one first. */
    method Rollback(k: UserKernel, pages: seq<TranslationEntry>, ghost start: int, ghost frames: seq<int>)
      requires Valid(k) && k.Valid()
      requires |pages| == |frames| <= numPages && 0 <= start && start + |pages| <= pageTable.Length
      requires forall j | 0 <= j < |pages| ::
                 pages[j].vpn == start + j && pages[j].ppn == frames[j] && 0 <= frames[j] < k.numPhysPages
      modifies this, pageTable, k
      ensures Valid(k) && k.Valid() && files == old(files) && StartRegisters() == old(StartRegisters())
      ensures numPages == old(numPages) - |pages|
      ensures forall v | start <= v < start + |pages| :: pageTable[v] == InvalidEntry(v)
      ensures forall v | 0 <= v < pageTable.Length && !(start <= v < start + |pages|) ::
                pageTable[v] == old(pageTable[v])
      ensures k.freeList == Reversed(frames) + old(k.freeList)
    {
      ghost var pt0 := pageTable[..];
      assert forall q | 0 <= q < |pt0| :: pt0[q].vpn == q && (pt0[q].valid ==> 0 <= pt0[q].ppn < k.numPhysPages);
      assert forall x | 0 <= x < |k.freeList| :: 0 <= k.freeList[x] < k.numPhysPages;
      UndoPages(k, pages, start, frames);
      forall x | 0 <= x < |frames|
        ensures 0 <= Reversed(frames)[x] < k.numPhysPages
      {
        ReversedAt(frames, x);
      }
    }

    /** The loop of `allocate`'s undo branch. */
    method UndoPages(k: UserKernel, pages: seq<TranslationEntry>, ghost start: int, ghost frames: seq<int>)
      requires |pages| == |frames| && 0 <= start && start + |pages| <= pageTable.Length
      requires forall j | 0 <= j < |pages| :: pages[j].vpn == start + j && pages[j].ppn == frames[j]
      modifies this, pageTable, k
      ensures files == old(files) && StartRegisters() == old(StartRegisters()) && numPages == old(numPages) - |pages|
      ensures forall v | start <= v < start + |pages| :: pageTable[v] == InvalidEntry(v)
      ensures forall v | 0 <= v < pageTable.Length && !(start <= v < start + |pages|) ::
                pageTable[v] == old(pageTable[v])
      ensures k.freeList == Reversed(frames) + old(k.freeList)
      ensures k.inverted == old(k.inverted) && k.swapPositions == old(k.swapPositions)
      ensures k.swapFile == old(k.swapFile) && k.currentPosition == old(k.currentPosition)
    {
      var j := 0;
      while j < |pages|
        invariant 0 <= j <= |pages|
        invariant files == old(files) && StartRegisters() == old(StartRegisters()) && numPages == old(numPages) - j
        invariant forall v | start <= v < start + j :: pageTable[v] == InvalidEntry(v)
        invariant forall v | 0 <= v < pageTable.Length && !(start <= v < start + j) ::
                    pageTable[v] == old(pageTable[v])
        invariant k.freeList == Reversed(frames[..j]) + old(k.freeList)
        invariant k.inverted == old(k.inverted) && k.swapPositions == old(k.swapPositions)
        invariant k.swapFile == old(k.swapFile) && k.currentPosition == old(k.currentPosition)
      {
        assert frames[..j + 1] == frames[..j] + [frames[j]];
        ReversedSnocAppend(frames[..j], frames[j], old(k.freeList));
        DropPage(k, pages[j]);
        j := j + 1;
      }
      assert frames[..j] == frames;
    }

    /** One round of the undo loop: `numPages` goes down by one, the entry
        of `t.vpn` becomes invalid and `t.ppn` is reclaimed. */
    method DropPage(k: UserKernel, t: TranslationEntry)
      requires 0 <= t.vpn < pageTable.Length
      modifies this, pageTable, k
      ensures files == old(files) && StartRegisters() == old(StartRegisters()) && numPages == old(numPages) - 1
      ensures pageTable[t.vpn] == InvalidEntry(t.vpn)
      ensures forall v | 0 <= v < pageTable.Length && v != t.vpn :: pageTable[v] == old(pageTable[v])
      ensures k.freeList == [t.ppn] + old(k.freeList)
      ensures k.inverted == old(k.inverted) && k.swapPositions == old(k.swapPositions)
      ensures k.swapFile == old(k.swapFile) && k.currentPosition == old(k.currentPosition)
    {
      numPages := numPages - 1;
      pageTable[t.vpn] := InvalidEntry(t.vpn);
      k.ReclaimPage(t.ppn);
    }

    /** One round of `returnAllPages`' loop: a valid entry `i` has its frame
        reclaimed and is reset to an invalid entry; an invalid one stays. */
    method ReturnPage(k: UserKernel, i: int)
      requires 0 <= i < pageTable.Length && pageTable[i].vpn == i
      modifies pageTable, k
      ensures pageTable[i] == if old(pageTable[i]).valid then InvalidEntry(i) else old(pageTable[i])
      ensures forall q | 0 <= q < pageTable.Length && q != i :: pageTable[q] == old(pageTable[q])
      ensures k.freeList == (if old(pageTable[i]).valid then [old(pageTable[i]).ppn] else []) + old(k.freeList)
      ensures k.inverted == old(k.inverted) && k.swapPositions == old(k.swapPositions)
      ensures k.swapFile == old(k.swapFile) && k.currentPosition == old(k.currentPosition)
    {
      var t := pageTable[i];
      if t.valid {
        k.ReclaimPage(t.ppn);
        pageTable[t.vpn] := InvalidEntry(t.vpn);
      }
    }

    /** `returnAllPages()` followed by `numPages = 0`, the clean-up that
        `load`'s failed allocations and `unloadSections` share. */
    method ReleaseAllPages(k: UserKernel)
      requires Valid(k) && k.Valid()
      modifies this, pageTable, k
      ensures Valid(k) && k.Valid() && numPages == 0
      ensures files == old(files) && StartRegisters() == old(StartRegisters())
      ensures forall i | 0 <= i < pageTable.Length ::
                pageTable[i] == if old(pageTable[i]).valid then InvalidEntry(i) else old(pageTable[i])
      ensures forall i | 0 <= i < pageTable.Length :: !pageTable[i].valid
      ensures k.freeList == Reversed(ValidFrames(old(pageTable[..]))) + old(k.freeList)
    {
      ReturnAllPages(k);
      numPages := 0;
    }

    /** `returnAllPages`: every valid entry is reset to an invalid one and
        its frame reclaimed, in table order; invalid entries and `numPages`
        stay. The free list gains the valid frames, last one first. */
    method ReturnAllPages(k: UserKernel)
      requires Valid(k) && k.Valid()
      modifies pageTable, k
      ensures Valid(k) && k.Valid()
      ensures forall i | 0 <= i < pageTable.Length ::
                pageTable[i] == if old(pageTable[i]).valid then InvalidEntry(i) else old(pageTable[i])
      ensures k.freeList == Reversed(ValidFrames(old(pageTable[..]))) + old(k.freeList)
      ensures k.inverted == old(k.inverted) && k.swapPositions == old(k.swapPositions)
      ensures k.swapFile == old(k.swapFile) && k.currentPosition == old(k.currentPosition)
    {
      ghost var pt0 := pageTable[..];
      assert forall q | 0 <= q < |pt0| :: pt0[q].vpn == q && (pt0[q].valid ==> 0 <= pt0[q].ppn < k.numPhysPages);
      assert forall x | 0 <= x < |k.freeList| :: 0 <= k.freeList[x] < k.numPhysPages;
      ReturnPages(k, pt0);
      ReclaimOrderReversed(pt0, |pt0|);
      ReclaimOrderInRange(pt0, |pt0|, k.numPhysPages);
      assert pt0[..|pt0|] == pt0;
    }

    /** The loop of `returnAllPages` over the table `pt0` it starts from. */
    method ReturnPages(k: UserKernel, ghost pt0: seq<TranslationEntry>)
      requires pageTable[..] == pt0 && forall q | 0 <= q < |pt0| :: pt0[q].vpn == q
      modifies pageTable, k
      ensures forall q | 0 <= q < |pt0| :: pageTable[q] == if pt0[q].valid then InvalidEntry(q) else pt0[q]
      ensures k.freeList == ReclaimOrder(pt0, |pt0|) + old(k.freeList)
      ensures k.inverted == old(k.inverted) && k.swapPositions == old(k.swapPositions)
      ensures k.swapFile == old(k.swapFile) && k.currentPosition == old(k.currentPosition)
    {
      var i := 0;
      while i < pageTable.Length
        invariant 0 <= i <= pageTable.Length
        invariant forall q | 0 <= q < i :: pageTable[q] == if pt0[q].valid then InvalidEntry(q) else pt0[q]
        invariant forall q | i <= q < pageTable.Length :: pageTable[q] == pt0[q]
        invariant k.freeList == ReclaimOrder(pt0, i) + old(k.freeList)
        invariant k.inverted == old(k.inverted) && k.swapPositions == old(k.swapPositions)
        invariant k.swapFile == old(k.swapFile) && k.currentPosition == old(k.currentPosition)
      {
        ReclaimOrderStep(pt0, i, old(k.freeList));
        ReturnPage(k, i);
        i := i + 1;
      }
    }

    /** The layout a successful `load` leaves for `sections` and `args`:
        the sections mapped end to end from page 0, then `StackPages`
        writable stack pages and one writable argument page; `initialSP`
        is the top of the stack and `argc`/`argv` give the number of
        arguments and the address of their pointer table, the start of the
        last page. */
    ghost predicate LaidOut(sections: seq<Section>, args: seq<seq<byte>>)
      reads this, pageTable
    {
      numPages == SectionPages(sections, |sections|) + StackPages + 1 <= pageTable.Length
      && initialSP == (numPages - 1) * PageSize
      && argc == |args| && argv == (numPages - 1) * PageSize
      && SectionsMapped(pageTable[..], sections, |sections|)
      && forall v | SectionPages(sections, |sections|) <= v < numPages ::
           pageTable[v].valid && !pageTable[v].readOnly
    }

    /** `mem` is `mem0` with the argument page of `args`, its pointers
        relative to `argv`, written over the frame of the last page. */
    ghost predicate ArgPageStored(mem: seq<byte>, mem0: seq<byte>, args: seq<seq<byte>>)
      reads this, pageTable
    {
      1 <= numPages <= pageTable.Length && 0 <= pageTable[numPages - 1].ppn
      && |ArgPage(args, argv)| == ArgsSize(args, |args|)
      && MakeAddress(pageTable[numPages - 1].ppn, 0) + |ArgPage(args, argv)| <= |mem0|
      && mem == Splice(mem0, MakeAddress(pageTable[numPages - 1].ppn, 0), ArgPage(args, argv))
    }

    /** `load(name, args)` for the executable `executable` (`None` when
        the file does not open or does not parse), each frame request
        passing `random`. In order: the sections must lie end to end from
        page 0 and get their pages; the arguments must fit in one page; the
        entry point is recorded; 8 stack pages and then one argument page
        are allocated; `loadSections` runs; the arguments are stored. A
        failed allocation returns every page and resets `numPages`; a
        fragmented executable or oversized arguments return `false` with
        the pages kept. On success the layout is the one described by
        `ProgramPages`, `initialSP` is the top of the stack and the last
        page's frame holds `ArgPage`; with enough free frames and room in
        the table, loading succeeds. */
    method Load(k: UserKernel, executable: Option<Executable>, args: seq<seq<byte>>, random: real)
      returns (ok: bool)
      requires Valid(k) && k.Valid() && 0.0 <= random < 1.0
      modifies this, pageTable, k, k.memory
      ensures Valid(k) && k.Valid() && files == old(files)
      ensures executable.None? ==> !ok && numPages == old(numPages) && StartRegisters() == old(StartRegisters())
                                   && pageTable[..] == old(pageTable[..])
      ensures !ok ==> k.memory[..] == old(k.memory[..])
      ensures ok ==> executable.Some? && Contiguous(executable.value.sections)
                     && ArgsSize(args, |args|) <= PageSize && numPages == ProgramPages(executable.value)
                     && initialPC == executable.value.entryPoint && LaidOut(executable.value.sections, args)
                     && ArgPageStored(k.memory[..], old(k.memory[..]), args)
      ensures executable.Some? && Contiguous(executable.value.sections) && ArgsSize(args, |args|) <= PageSize
              && ProgramPages(executable.value) <= |old(k.freeList)|
              && (ProgramPages(executable.value) < pageTable.Length
                  || (args == [] && ProgramPages(executable.value) <= pageTable.Length))
              ==> ok
    {
      if executable.None? {
        return false;
      }
      var coff := executable.value;
      ghost var mem0 := k.memory[..];
      ghost var free0 := k.freeList;
      ghost var enough := Contiguous(coff.sections) && ProgramPages(coff) <= |free0|
                          && ProgramPages(coff) <= pageTable.Length;
      ok := AllocateSections(k, coff.sections, random);
      if !ok {
        return;
      }
      assert enough ==> k.freeList == free0[SectionPages(coff.sections, |coff.sections|)..];
      var argsSize := ArgumentsSize(args);
      if argsSize > PageSize {
        return false;
      }
      initialPC := coff.entryPoint;
      assert k.memory[..] == mem0;
      ok := LoadStackAndArguments(k, coff.sections, args, random);
    }

    /** The part of `load` after the arguments' size check, for sections
        already mapped end to end: the stack, the argument page,
        `loadSections` and the argument loop. */
    method LoadStackAndArguments(k: UserKernel, sections: seq<Section>, args: seq<seq<byte>>, random: real)
      returns (ok: bool)
      requires Valid(k) && k.Valid() && 0.0 <= random < 1.0
      requires Contiguous(sections) && numPages == SectionPages(sections, |sections|)
      requires SectionsMapped(pageTable[..], sections, |sections|) && ArgsSize(args, |args|) <= PageSize
      modifies this, pageTable, k, k.memory
      ensures Valid(k) && k.Valid() && files == old(files) && initialPC == old(initialPC)
      ensures !ok ==> k.memory[..] == old(k.memory[..])
      ensures ok ==> LaidOut(sections, args) && ArgPageStored(k.memory[..], old(k.memory[..]), args)
      ensures StackPages + 1 <= |old(k.freeList)|
              && (old(numPages) + StackPages + 1 < pageTable.Length
                  || (args == [] && old(numPages) + StackPages + 1 <= pageTable.Length))
              ==> ok
    {
      ghost var mem0 := k.memory[..];
      ok := AllocateStackAndArgumentPage(k, sections, random);
      if !ok {
        return;
      }
      assert k.memory[..] == mem0;
      var loaded := LoadSections(k, sections);
      if !loaded {
        assert false;
      }
      ok := StoreArguments(k, args);
    }

    /** The stack and argument-page allocations of `load`, after the
        sections: `StackPages` writable pages, then one more; either failing
        returns every page and resets `numPages`. `initialSP` is set to the
        top of the stack between the two. */
    method AllocateStackAndArgumentPage(k: UserKernel, sections: seq<Section>, random: real)
      returns (ok: bool)
      requires Valid(k) && k.Valid() && 0.0 <= random < 1.0
      requires Contiguous(sections) && numPages == SectionPages(sections, |sections|)
      requires SectionsMapped(pageTable[..], sections, |sections|)
      modifies this, pageTable, k
      ensures Valid(k) && k.Valid() && files == old(files)
      ensures initialPC == old(initialPC) && argc == old(argc) && argv == old(argv)
      ensures ok ==> numPages == old(numPages) + StackPages + 1
                     && initialSP == (numPages - 1) * PageSize
                     && SectionsMapped(pageTable[..], sections, |sections|)
                     && (forall v | old(numPages) <= v < numPages :: pageTable[v].valid && !pageTable[v].readOnly)
                     && numPages <= k.numPhysPages
      ensures StackPages + 1 <= |old(k.freeList)|
              && old(numPages) + StackPages + 1 <= pageTable.Length
              ==> ok
    {
      ghost var pt0 := pageTable[..];
      var stackAllocated, stackFrames := Allocate(k, numPages, StackPages, false, random);
      if !stackAllocated {
        ReleaseAllPages(k);
        return false;
      }
      ghost var pt1 := pageTable[..];
      SectionsMappedKept(pt0, pt1, sections, |sections|);
      initialSP := numPages * PageSize;
      var argAllocated, argFrames := Allocate(k, numPages, 1, false, random);
      if !argAllocated {
        ReleaseAllPages(k);
        return false;
      }
      SectionsMappedKept(pt1, pageTable[..], sections, |sections|);
      return true;
    }

    /** The section loop of `load`: `numPages` starts at 0 and each section
        must start at the current `numPages`; its pages are then allocated
        with its write protection. A fragmented executable stops the loop
        with `false`; a failed allocation returns every page, resets
        `numPages` and stops it with `false`. With enough free frames and
        room in the table, every section gets the head of the free list. */
    method AllocateSections(k: UserKernel, sections: seq<Section>, random: real) returns (ok: bool)
      requires Valid(k) && k.Valid() && 0.0 <= random < 1.0
      modifies this, pageTable, k
      ensures Valid(k) && k.Valid() && files == old(files) && StartRegisters() == old(StartRegisters())
      ensures ok ==> Contiguous(sections) && numPages == SectionPages(sections, |sections|)
                     && SectionsMapped(pageTable[..], sections, |sections|)
      ensures !Contiguous(sections) ==> !ok
      ensures !ok && Contiguous(sections) ==>
                numPages == 0 && forall v | 0 <= v < pageTable.Length :: !pageTable[v].valid
      ensures Contiguous(sections) && SectionPages(sections, |sections|) <= |old(k.freeList)|
              && SectionPages(sections, |sections|) <= pageTable.Length
              ==> ok && k.freeList == old(k.freeList)[SectionPages(sections, |sections|)..]
    {
      ghost var free0 := k.freeList;
      ghost var enough := Contiguous(sections) && SectionPages(sections, |sections|) <= |free0|
                          && SectionPages(sections, |sections|) <= pageTable.Length;
      numPages := 0;
      ok := SectionLoop(k, sections, random, free0, enough);
    }

    /** The loop itself, from `numPages == 0` and the free list `free0`. */
    method SectionLoop(k: UserKernel, sections: seq<Section>, random: real, ghost free0: seq<int>, ghost enough: bool)
      returns (ok: bool)
      requires Valid(k) && k.Valid() && 0.0 <= random < 1.0 && numPages == 0 && k.freeList == free0
      requires enough ==> Contiguous(sections) && SectionPages(sections, |sections|) <= |free0|
                          && SectionPages(sections, |sections|) <= pageTable.Length
      modifies this, pageTable, k
      ensures Valid(k) && k.Valid() && files == old(files) && StartRegisters() == old(StartRegisters())
      ensures ok ==> SectionsLoaded(sections, |sections|, numPages, pageTable[..], k.freeList, free0, enough)
      ensures !ok ==> !enough
      ensures !ok && Contiguous(sections) ==>
                numPages == 0 && forall v | 0 <= v < pageTable.Length :: !pageTable[v].valid
    {
      var s := 0;
      while s < |sections|
        invariant 0 <= s <= |sections|
        invariant Valid(k) && k.Valid() && files == old(files) && StartRegisters() == old(StartRegisters())
        invariant SectionsLoaded(sections, s, numPages, pageTable[..], k.freeList, free0, enough)
      {
        if sections[s].firstVPN != numPages {
          assert !Contiguous(sections);
          return false;
        }
        ok := AllocateSection(k, sections, s, random, free0, enough);
        if !ok {
          ReleaseAllPages(k);
          return;
        }
        s := s + 1;
      }
      return true;
    }

    /** One round of the section loop, for a section that starts at
        `numPages`: its pages are allocated with its write protection; if
        that fails, the caller returns every page. When the whole program
        fits (`enough`), the round takes the section's frames from the head
        of the free list. */
    method AllocateSection(k: UserKernel, sections: seq<Section>, s: int, random: real,
                           ghost free0: seq<int>, ghost enough: bool)
      returns (ok: bool)
      requires Valid(k) && k.Valid() && 0.0 <= random < 1.0 && 0 <= s < |sections|
      requires SectionsLoaded(sections, s, numPages, pageTable[..], k.freeList, free0, enough)
      requires sections[s].firstVPN == numPages
      requires enough ==> Contiguous(sections) && SectionPages(sections, |sections|) <= |free0|
                          && SectionPages(sections, |sections|) <= pageTable.Length
      modifies this, pageTable, k
      ensures Valid(k) && k.Valid() && files == old(files) && StartRegisters() == old(StartRegisters())
      ensures ok ==> SectionsLoaded(sections, s + 1, numPages, pageTable[..], k.freeList, free0, enough)
      ensures !ok ==> !enough
    {
      var section := sections[s];
      ghost var pt0, fl0, n0 := pageTable[..], k.freeList, numPages;
      if enough {
        SectionPagesMonotone(sections, s + 1, |sections|);
        assert section.length <= |fl0| && n0 + section.length <= pageTable.Length;
      }
      var sectionAllocated, frames := Allocate(k, numPages, section.length, section.readOnly, random);
      if !sectionAllocated {
        return false;
      }
      SectionRound(sections, s, n0, pt0, pageTable[..], numPages, k.freeList, fl0, free0, enough);
      return true;
    }

    /** The size loop of `load`: 4 bytes of pointer plus the string and its
        NUL for each argument. */
    static method ArgumentsSize(args: seq<seq<byte>>) returns (argsSize: int)
      ensures argsSize == ArgsSize(args, |args|)
    {
      argsSize := 0;
      var i := 0;
      while i < |args|
        invariant 0 <= i <= |args| && argsSize == ArgsSize(args, i)
      {
        argsSize := argsSize + 4 + |args[i]| + 1;
        i := i + 1;
      }
    }

    /** `loadSections`: `false` when the process has more pages than there
        are frames, or when some page of a section is not valid; `true`
        otherwise. Reading the pages' contents from the file (`loadPage`)
        is not part of the model. */
    method LoadSections(k: UserKernel, sections: seq<Section>) returns (ok: bool)
      requires forall t, v {:trigger InSection(sections[t], v)} | 0 <= t < |sections| && InSection(sections[t], v) :: 0 <= v < pageTable.Length
      ensures ok <==> numPages <= k.numPhysPages
                      && forall t, v {:trigger InSection(sections[t], v)} | 0 <= t < |sections| && InSection(sections[t], v) :: pageTable[v].valid
    {
      if numPages > k.numPhysPages {
        return false;
      }
      var s := 0;
      while s < |sections|
        invariant 0 <= s <= |sections|
        invariant forall t, v {:trigger InSection(sections[t], v)} | 0 <= t < s && InSection(sections[t], v) :: pageTable[v].valid
      {
        var section := sections[s];
        var i := 0;
        while i < section.length
          invariant 0 <= i <= section.length
          invariant forall v {:trigger InSection(section, v)} | InSection(section, v) && v < section.firstVPN + i ::
                      pageTable[v].valid
        {
          var vpn := section.firstVPN + i;
          assert InSection(sections[s], vpn);
          var entry := pageTable[vpn];
          if !entry.valid {
            return false;
          }
          i := i + 1;
        }
        s := s + 1;
      }
      return true;
    }

    /** `unloadSections`: every page is returned, `numPages` goes back to 0
        and every open file is closed and its slot cleared. Closing the
        files and the executable is not part of the model. */
    method UnloadSections(k: UserKernel)
      requires Valid(k) && k.Valid()
      modifies this, pageTable, k
      ensures Valid(k) && k.Valid() && numPages == 0 && StartRegisters() == old(StartRegisters())
      ensures forall i | 0 <= i < pageTable.Length ::
                pageTable[i] == if old(pageTable[i]).valid then InvalidEntry(i) else old(pageTable[i])
      ensures k.freeList == Reversed(ValidFrames(old(pageTable[..]))) + old(k.freeList)
      ensures |files| == TotalFileSize && forall fd | 0 <= fd < TotalFileSize :: !files[fd]
    {
      ReleaseAllPages(k);
      CloseAllFiles(k);
    }

    /** The descriptor loop of `unloadSections`: every open slot is cleared. */
    method CloseAllFiles(k: UserKernel)
      requires Valid(k)
      modifies this
      ensures Valid(k) && numPages == old(numPages) && StartRegisters() == old(StartRegisters())
      ensures |files| == TotalFileSize && forall fd | 0 <= fd < TotalFileSize :: !files[fd]
    {
      var i := 0;
      while i < |files|
        invariant 0 <= i <= |files| == TotalFileSize
        invariant Valid(k) && numPages == old(numPages) && StartRegisters() == old(StartRegisters())
        invariant forall fd | 0 <= fd < i :: !files[fd]
      {
        if files[i] {
          files := files[i := false];
        }
        i := i + 1;
      }
    }

    /** The argument-storing loop at the end of `load`: `argc` and `argv`
        are set, then for each argument its pointer goes into the table at
        the start of the last page and its bytes, NUL-terminated, after the
        table. Each write is asserted to move all of its bytes; the model
        returns `false` where that assertion would fail, which is exactly
        when there are arguments and the pages fill the whole table (the
        write guard refuses every write then). Otherwise the last page's
        frame holds `ArgPage`. */
    method StoreArguments(k: UserKernel, args: seq<seq<byte>>) returns (ok: bool)
      requires Valid(k) && 1 <= numPages && Accessible(pageTable[numPages - 1], true)
      requires ArgsSize(args, |args|) <= PageSize
      modifies this, k.memory
      ensures Valid(k) && numPages == old(numPages) && files == old(files)
      ensures initialPC == old(initialPC) && initialSP == old(initialSP)
      ensures argc == |args| && argv == MakeAddress(numPages - 1, 0)
      ensures ok <==> args == [] || numPages < pageTable.Length
      ensures ok ==> ArgPageStored(k.memory[..], old(k.memory[..]), args)
      ensures !ok ==> k.memory[..] == old(k.memory[..])
    {
      ghost var mem0 := k.memory[..];
      ghost var last, ppn := numPages - 1, pageTable[numPages - 1].ppn;
      ghost var phys := MakeAddress(ppn, 0);
      var entryOffset := MakeAddress(numPages - 1, 0);
      var stringOffset := entryOffset + |args| * 4;
      argc := |args|;
      argv := entryOffset;
      ghost var base := entryOffset;
      NoRounds(mem0, phys, args, base);
      var i := 0;
      while i < |args|
        invariant 0 <= i <= |args| && Valid(k) && numPages == old(numPages) && files == old(files)
        invariant initialPC == old(initialPC) && initialSP == old(initialSP)
        invariant argc == |args| && argv == base
        invariant entryOffset == base + 4 * i && stringOffset == base + StringOffset(args, i)
        invariant i > 0 ==> numPages < pageTable.Length
        invariant k.memory[..] == RoundsImage(mem0, phys, args, i, base)
      {
        ok := ArgumentRound(k, args, i, last, ppn, entryOffset, stringOffset, mem0);
        if !ok {
          return;
        }
        entryOffset := entryOffset + 4;
        stringOffset := stringOffset + |args[i]| + 1;
        i := i + 1;
      }
      RoundsComplete(mem0, phys, args, base);
      return true;
    }

    /** Round `i` of the argument loop, read against the rounds before
        it: it fails exactly when the pages fill the table, and otherwise
        adds pointer `i` and string `i` to the memory the earlier rounds
        left. */
    method ArgumentRound(k: UserKernel, args: seq<seq<byte>>, i: int, ghost last: int, ghost ppn: int,
                         entryOffset: int, stringOffset: int, ghost mem0: seq<byte>)
      returns (ok: bool)
      requires Valid(k) && last == numPages - 1 >= 0 && Accessible(pageTable[last], true)
      requires ppn == pageTable[last].ppn && ArgsSize(args, |args|) <= PageSize && 0 <= i < |args|
      requires entryOffset == MakeAddress(last, 0) + 4 * i
      requires stringOffset == MakeAddress(last, 0) + StringOffset(args, i)
      requires |mem0| == k.memory.Length
      requires k.memory[..] == RoundsImage(mem0, MakeAddress(ppn, 0), args, i, MakeAddress(last, 0))
      modifies k.memory
      ensures ok <==> numPages < pageTable.Length
      ensures !ok ==> k.memory[..] == old(k.memory[..])
      ensures ok ==> k.memory[..] == RoundsImage(mem0, MakeAddress(ppn, 0), args, i + 1, MakeAddress(last, 0))
    {
      ghost var before := k.memory[..];
      StringsBound(args, i);
      ok := WriteArgument(k, last, ppn, entryOffset, stringOffset, args[i]);
      if ok {
        RoundStep(mem0, MakeAddress(ppn, 0), args, i, MakeAddress(last, 0), before,
                  MakeAddress(ppn, entryOffset - MakeAddress(last, 0)), BytesFromInt(stringOffset),
                  MakeAddress(ppn, stringOffset - MakeAddress(last, 0)), k.memory[..]);
      }
    }

    /** One round of the argument loop: the 4-byte pointer `stringOffset`
        at `entryOffset`, then the argument's bytes and a zero at
        `stringOffset`, all inside the last page `last`, whose frame is
        `ppn`. The first write moves nothing, and the round fails, exactly
        when the pages fill the table; otherwise all three writes move all
        of their bytes. */
    method WriteArgument(k: UserKernel, ghost last: int, ghost ppn: int,
                         entryOffset: int, stringOffset: int, arg: seq<byte>)
      returns (ok: bool)
      requires Valid(k) && last == numPages - 1 >= 0 && Accessible(pageTable[last], true)
      requires ppn == pageTable[last].ppn
      requires MakeAddress(last, 0) <= entryOffset && entryOffset + 4 <= stringOffset
      requires stringOffset + |arg| + 1 <= MakeAddress(last + 1, 0)
      modifies k.memory
      ensures ok <==> numPages < pageTable.Length
      ensures !ok ==> k.memory[..] == old(k.memory[..])
      ensures ok ==> k.memory[..] == Splice(Splice(old(k.memory[..]), MakeAddress(ppn, entryOffset - MakeAddress(last, 0)),
                                                   BytesFromInt(stringOffset)),
                                            MakeAddress(ppn, stringOffset - MakeAddress(last, 0)), arg + [0])
    {
      ghost var mem0 := k.memory[..];
      var n := WriteInLastPage(k, entryOffset, BytesFromInt(stringOffset), last, ppn);
      if n != 4 {
        return false;
      }
      ghost var mem1 := k.memory[..];
      n := WriteInLastPage(k, stringOffset, arg, last, ppn);
      assert n == |arg|;
      ghost var at := MakeAddress(ppn, stringOffset - MakeAddress(last, 0));
      n := WriteInLastPage(k, stringOffset + |arg|, [0], last, ppn);
      assert n == 1;
      assert MakeAddress(ppn, stringOffset + |arg| - MakeAddress(last, 0)) == at + |arg|;
      SpliceExtend(mem1, at, arg, at + |arg|, [0]);
      return true;
    }

    /** `writeVirtualMemory(vaddr, bytes)` for a run inside the last page
        `last`, whose writable frame is `ppn`: all of the bytes land in the
        frame unless the pages fill the table, when nothing is written. */
    method WriteInLastPage(k: UserKernel, vaddr: int, bytes: seq<byte>, ghost last: int, ghost ppn: int)
      returns (n: int)
      requires Valid(k) && last == numPages - 1 >= 0 && Accessible(pageTable[last], true)
      requires ppn == pageTable[last].ppn
      requires MakeAddress(last, 0) <= vaddr && vaddr + |bytes| <= MakeAddress(last + 1, 0)
      modifies k.memory
      ensures n == if numPages < pageTable.Length then |bytes| else 0
      ensures k.memory[..] == if numPages < pageTable.Length
                              then Splice(old(k.memory[..]), MakeAddress(ppn, vaddr - MakeAddress(last, 0)), bytes)
                              else old(k.memory[..])
    {
      ghost var pt, mem0 := pageTable[..], k.memory[..];
      var data := ToArray(bytes);
      InPageTransfer(pt, numPages, vaddr, |bytes|);
      n := WriteVirtualMemory(k, vaddr, data, 0, |bytes|);
      WriteInPage(mem0, pt, data[..], vaddr, 0, n, last);
      assert data[..][0 .. |bytes|] == bytes;
      if numPages < pageTable.Length && |bytes| == 0 {
        SpliceEmpty(mem0, MakeAddress(ppn, vaddr - MakeAddress(last, 0)));
      }
    }
  }

  /** What the page loop of `writeVirtualMemory` leaves, read as the
      method's result: its count is the transfer count, and every address
      written translates into a memory of `frames` pages. */
  lemma WriteLoopExit(pt: seq<TranslationEntry>, frames: int, numPages: int, vaddr: int, length: int,
                      i: int, total: int)
    requires 0 <= numPages <= |pt| && IsInt32(vaddr) && 0 <= length <= Int32Max
    requires !Rejected(|pt|, numPages, vaddr, length, true)
    requires forall p | 0 <= p < |pt| && pt[p].valid :: 0 <= pt[p].ppn < frames
    requires FirstPage(vaddr) <= i <= LastPage(vaddr, length) + 1
    requires forall p | FirstPage(vaddr) <= p < i :: Accessible(pt[p], true)
    requires i <= LastPage(vaddr, length) ==> !Accessible(pt[i], true)
    requires total == if i == FirstPage(vaddr) then 0
                      else if i <= LastPage(vaddr, length) then MakeAddress(i, 0) - vaddr
                      else EndAddress(vaddr, length) + 1 - vaddr
    ensures total == TransferCount(pt, numPages, vaddr, length, true) && 0 <= total <= length
    ensures forall v | vaddr <= v < vaddr + total :: 0 <= PhysAddr(pt, v) < frames * PageSize
  {
    AcceptedEnd(|pt|, numPages, vaddr, length, true);
    AcceptedPages(|pt|, numPages, vaddr, length, true);
    LoopExitCount(pt, numPages, vaddr, length, true, i, total);
    if total > 0 {
      if i <= LastPage(vaddr, length) {
        PageOfAddress(vaddr + total - 1, i - 1);
      }
      RunInMemory(pt, frames, vaddr, vaddr + total);
    }
  }

  /** A fresh array holding `s`, as the byte arrays `load` passes to
      `writeVirtualMemory`. */
  method ToArray(s: seq<byte>) returns (a: array<byte>)
    ensures fresh(a) && a[..] == s
  {
    a := new byte[|s|](i requires 0 <= i < |s| => s[i]);
  }
}
