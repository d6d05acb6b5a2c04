/** The process tree and the system calls of `UserProcess` that act on it
    or check their arguments: `exec`, `join`, `exit`, `halt`, `read` and
    `write`. Processes are known here by their pids: each has a record
    holding its parent link, its list of children, the exit statuses its
    children reported, and whether it has exited. The static counters
    `totalProcess` (the next pid) and `currentlyRunning` live in one
    `Registry` object. Blocking (`join` on a thread, `UThread.finish`,
    `Kernel.terminate`, `Machine.halt`) becomes an outcome or a
    precondition. */
module Syscalls {
  import opened Machine
  import opened Util
  import opened Kernel
  import opened VirtualMemory
  import opened Process
  import opened Arguments

  /** `MAX_STRSIZE` in `handleExec`. */
  const MaxStringSize: int := 256

  /** The bytes of ".coff". */
  const CoffName: seq<byte> := [46, 99, 111, 102, 102]

  /** One process as the syscalls see it: `parent`, `child`, `childStatus`,
      and whether its thread has finished. */
  datatype ProcessRecord = ProcessRecord(parent: Option<int>, children: seq<int>,
                                          childStatus: map<int, int>, exited: bool)

  /** What `handleExec` read from the caller's memory: the file name and
      the argument strings. */
  datatype ExecRequest = ExecRequest(name: seq<byte>, args: seq<seq<byte>>)

  /** `pat` occurs in `s` from position `i` on. */
  predicate OccursAt(s: seq<byte>, pat: seq<byte>, i: int)
  {
    0 <= i <= |s| - |pat| && s[i .. i + |pat|] == pat
  }

  /** `s.contains(pat)`: `pat` occurs somewhere in `s`. */
  predicate Contains(s: seq<byte>, pat: seq<byte>)
  {
    exists i | 0 <= i <= |s| - |pat| :: OccursAt(s, pat, i)
  }

  predicate NoDuplicates(xs: seq<int>)
  {
    forall i, j | 0 <= i < j < |xs| :: xs[i] != xs[j]
  }

  /** `xs` without its element at `i` (`LinkedList.remove`). */
  function RemoveAt(xs: seq<int>, i: int): seq<int>
    requires 0 <= i < |xs|
  {
    xs[..i] + xs[i + 1..]
  }

  /** The processes whose thread is still running. */
  function RunningSet(records: map<int, ProcessRecord>): set<int>
  {
    set pid | pid in records && !records[pid].exited
  }

  /** Every pid recorded is below the next pid. */
  predicate PidsBelow(records: map<int, ProcessRecord>, next: int)
  {
    forall pid | pid in records :: 0 <= pid < next
  }

  /** A record's parent and children are recorded processes, and its child
      list has no repeats. */
  predicate RecordLinked(records: map<int, ProcessRecord>, rec: ProcessRecord)
  {
    (rec.parent.Some? ==> rec.parent.value in records)
    && (forall c | c in rec.children :: c in records)
    && NoDuplicates(rec.children)
  }

  /** Process `c` (record `rc`) names `q` (record `rq`) as its parent
      exactly when it is on the child list of `q` and `q` is running. */
  predicate LinkAgrees(q: int, rq: ProcessRecord, c: int, rc: ProcessRecord)
  {
    rc.parent == Some(q) <==> c in rq.children && !rq.exited
  }

  /** The tree invariant. */
  predicate Tree(records: map<int, ProcessRecord>, next: int)
  {
    PidsBelow(records, next)
    && (forall pid | pid in records :: RecordLinked(records, records[pid]))
    && (forall q, c | q in records && c in records :: LinkAgrees(q, records[q], c, records[c]))
  }

  /** `exec` by `self` starting child `c`: a fresh running record whose
      parent is `self`, appended to the children of `self`. */
  function Spawned(records: map<int, ProcessRecord>, self: int, c: int): map<int, ProcessRecord>
    requires self in records
  {
    var r := records[c := ProcessRecord(Some(self), [], map[], false)];
    r[self := r[self].(children := r[self].children + [c])]
  }

  /** `join` by `self` of the child at position `i` of its list: the
      child's parent link is cleared and it leaves the list. */
  function Joined(records: map<int, ProcessRecord>, self: int, i: int): map<int, ProcessRecord>
    requires self in records && 0 <= i < |records[self].children|
  {
    var c := records[self].children[i];
    var r := if c in records then records[c := records[c].(parent := None)] else records;
    r[self := r[self].(children := RemoveAt(r[self].children, i))]
  }

  /** `records` with the parent link of every process in `cs` cleared. */
  function Orphaned(records: map<int, ProcessRecord>, cs: seq<int>): map<int, ProcessRecord>
  {
    map pid | pid in records :: if pid in cs then records[pid].(parent := None) else records[pid]
  }

  /** `records` with `status` stored for `self` in its parent's map, when
      it has a parent. */
  function Reported(records: map<int, ProcessRecord>, self: int, status: int): map<int, ProcessRecord>
    requires self in records
    requires records[self].parent.Some? ==> records[self].parent.value in records
  {
    match records[self].parent
    case None => records
    case Some(q) => records[q := records[q].(childStatus := records[q].childStatus[self := status])]
  }

  /** `exit(status)` by `self`: the status reaches the parent, every child
      loses its parent link and `self` stops running. */
  function Exited(records: map<int, ProcessRecord>, self: int, status: int): map<int, ProcessRecord>
    requires self in records
    requires records[self].parent.Some? ==> records[self].parent.value in records
  {
    var r := Orphaned(Reported(records, self, status), records[self].children);
    r[self := r[self].(exited := true)]
  }

  /** Dropping one element of a list without repeats removes it entirely
      and keeps the list free of repeats. */
  lemma RemoveAtDrops(xs: seq<int>, i: int)
    requires 0 <= i < |xs| && NoDuplicates(xs)
    ensures xs[i] !in RemoveAt(xs, i) && NoDuplicates(RemoveAt(xs, i))
    ensures forall y | y != xs[i] :: y in RemoveAt(xs, i) <==> y in xs
  {
    var r := RemoveAt(xs, i);
    assert forall j | 0 <= j < |r| :: r[j] == if j < i then xs[j] else xs[j + 1];
    forall y | y in xs && y != xs[i]
      ensures y in r
    {
      var j :| 0 <= j < |xs| && xs[j] == y;
      assert r[if j < i then j else j - 1] == y;
    }
  }

  /** Starting an unrecorded child `next` keeps the tree and adds exactly
      the child to the running processes. */
  lemma SpawnKeepsTree(records: map<int, ProcessRecord>, bound: int, self: int, next: int)
    requires Tree(records, bound) && self in records && !records[self].exited
    requires 0 <= next < bound && next !in records
    ensures Tree(Spawned(records, self, next), bound)
    ensures RunningSet(Spawned(records, self, next)) == RunningSet(records) + {next}
    ensures next !in RunningSet(records)
  {
    var r := Spawned(records, self, next);
    assert r.Keys == records.Keys + {next};
    assert r[next] == ProcessRecord(Some(self), [], map[], false);
    assert r[self] == records[self].(children := records[self].children + [next]);
    assert forall pid | pid in records && pid != self :: r[pid] == records[pid];
    forall pid | pid in r
      ensures RecordLinked(r, r[pid])
    {
      if pid == self {
        assert RecordLinked(records, records[self]);
      } else if pid != next {
        assert RecordLinked(records, records[pid]);
      }
    }
    forall q, c | q in r && c in r
      ensures LinkAgrees(q, r[q], c, r[c])
    {
      SpawnLinkAgrees(records, bound, self, next, q, c);
    }
    assert RunningSet(r) == RunningSet(records) + {next};
  }

  /** After a spawn, the link between any two processes still agrees. */
  lemma SpawnLinkAgrees(records: map<int, ProcessRecord>, bound: int, self: int, next: int, q: int, c: int)
    requires Tree(records, bound) && self in records && !records[self].exited
    requires 0 <= next < bound && next !in records
    requires q in Spawned(records, self, next) && c in Spawned(records, self, next)
    ensures LinkAgrees(q, Spawned(records, self, next)[q], c, Spawned(records, self, next)[c])
  {
    var r := Spawned(records, self, next);
    assert r[next] == ProcessRecord(Some(self), [], map[], false);
    assert r[self] == records[self].(children := records[self].children + [next]);
    if c == next {
      if q != self && q != next {
        assert RecordLinked(records, records[q]);
      }
    } else if q != next {
      assert LinkAgrees(q, records[q], c, records[c]);
    }
  }

  /** What `Joined` does to each record. */
  lemma JoinedShape(records: map<int, ProcessRecord>, self: int, i: int)
    requires self in records && 0 <= i < |records[self].children|
    requires records[self].children[i] in records
    ensures Joined(records, self, i).Keys == records.Keys
    ensures forall pid | pid in records ::
      var c := records[self].children[i];
      var rec := Joined(records, self, i)[pid];
      rec.parent == (if pid == c then None else records[pid].parent)
      && rec.children == (if pid == self then RemoveAt(records[self].children, i) else records[pid].children)
      && rec.exited == records[pid].exited
  {
  }

  /** Joining a child keeps the tree, leaves the running processes alone,
      and takes the child off the list for good. */
  lemma JoinKeepsTree(records: map<int, ProcessRecord>, next: int, self: int, i: int)
    requires Tree(records, next) && self in records && !records[self].exited
    requires 0 <= i < |records[self].children|
    ensures records[self].children[i] in records
    ensures Tree(Joined(records, self, i), next)
    ensures RunningSet(Joined(records, self, i)) == RunningSet(records)
    ensures records[self].children[i] !in Joined(records, self, i)[self].children
  {
    var cs := records[self].children;
    var c := cs[i];
    assert RecordLinked(records, records[self]);
    var r := Joined(records, self, i);
    JoinedShape(records, self, i);
    RemoveAtDrops(cs, i);
    forall pid | pid in r
      ensures RecordLinked(r, r[pid])
    {
      assert RecordLinked(records, records[pid]);
    }
    forall q, d | q in r && d in r
      ensures LinkAgrees(q, r[q], d, r[d])
    {
      assert LinkAgrees(q, records[q], d, records[d]);
      if d == c {
        assert LinkAgrees(self, records[self], c, records[c]);
      }
    }
    assert RunningSet(r) == RunningSet(records);
  }

  /** What `Exited` does to each record. */
  lemma ExitedShape(records: map<int, ProcessRecord>, self: int, status: int)
    requires self in records
    requires records[self].parent.Some? ==> records[self].parent.value in records
    ensures Exited(records, self, status).Keys == records.Keys
    ensures forall pid | pid in records ::
      var rec := Exited(records, self, status)[pid];
      rec.parent == (if pid in records[self].children then None else records[pid].parent)
      && rec.children == records[pid].children
      && rec.exited == (records[pid].exited || pid == self)
  {
    var r0 := Reported(records, self, status);
    assert r0.Keys == records.Keys;
    assert forall pid | pid in records ::
      r0[pid].parent == records[pid].parent && r0[pid].children == records[pid].children
      && r0[pid].exited == records[pid].exited;
  }

  /** An exit keeps the tree, stops exactly the exiting process, and leaves
      none of its children linked to it. */
  lemma ExitKeepsTree(records: map<int, ProcessRecord>, next: int, self: int, status: int)
    requires Tree(records, next) && self in records && !records[self].exited
    ensures records[self].parent.Some? ==> records[self].parent.value in records
    ensures Tree(Exited(records, self, status), next)
    ensures RunningSet(Exited(records, self, status)) == RunningSet(records) - {self}
    ensures self in RunningSet(records)
    ensures forall c | c in Exited(records, self, status) :: Exited(records, self, status)[c].parent != Some(self)
  {
    var cs := records[self].children;
    assert RecordLinked(records, records[self]);
    var r := Exited(records, self, status);
    ExitedShape(records, self, status);
    forall pid | pid in r
      ensures RecordLinked(r, r[pid])
    {
      assert RecordLinked(records, records[pid]);
    }
    forall q, c | q in r && c in r
      ensures LinkAgrees(q, r[q], c, r[c])
    {
      ExitLinkAgrees(records, next, self, status, q, c);
    }
    forall c | c in r
      ensures r[c].parent != Some(self)
    {
      assert LinkAgrees(self, records[self], c, records[c]);
    }
    assert RunningSet(r) == RunningSet(records) - {self};
  }

  /** After an exit, the link between any two processes still agrees. */
  lemma ExitLinkAgrees(records: map<int, ProcessRecord>, next: int, self: int, status: int, q: int, c: int)
    requires Tree(records, next) && self in records && !records[self].exited
    requires records[self].parent.Some? ==> records[self].parent.value in records
    requires q in records && c in records
    ensures LinkAgrees(q, Exited(records, self, status)[q], c, Exited(records, self, status)[c])
  {
    ExitedShape(records, self, status);
    assert LinkAgrees(q, records[q], c, records[c]);
    assert LinkAgrees(self, records[self], c, records[c]);
  }

  /** The name test is a substring test: a name passes it whatever comes
      before and after the ".coff" in it ("a.coff.sh" passes). */
  lemma NameTestIsSubstring(before: seq<byte>, after: seq<byte>)
    ensures Contains(before + CoffName + after, CoffName)
  {
    var name := before + CoffName + after;
    assert name[|before| .. |before| + |CoffName|] == CoffName;
    assert OccursAt(name, CoffName, |before|);
  }

  /** The address of the word holding argument `i`'s pointer,
      `argVaddr + i*4` in `int` arithmetic. */
  function ArgumentSlot(argVaddr: int, i: int): int
  {
    Wrap32(argVaddr + Wrap32(i * 4))
  }

  /** Argument `i` of an `exec` request as the caller's memory `mem` holds
      it through page table `pt`: the 4-byte word at its slot reads in
      full, and `arg` is the string a read of at most `MaxStringSize`
      bytes finds at the address that word encodes. */
  ghost predicate ArgumentHeld(mem: seq<byte>, pt: seq<TranslationEntry>, numPages: int, argVaddr: int,
                               i: int, arg: seq<byte>)
  {
    0 <= numPages <= |pt|
    && var slot := ArgumentSlot(argVaddr, i);
    TransferCount(pt, numPages, slot, 4, false) == 4
    && exists word | |word| == 4 && Holds(mem, pt, slot, word) ::
         StringHeld(mem, pt, numPages, BytesToInt(word), MaxStringSize, arg)
  }

  /** Argument `i` can be read: some string is held for it. */
  ghost predicate ArgumentReadable(mem: seq<byte>, pt: seq<TranslationEntry>, numPages: int, argVaddr: int, i: int)
  {
    exists arg :: ArgumentHeld(mem, pt, numPages, argVaddr, i, arg)
  }

  /** The file name and arguments of an `exec` request as the caller's
      memory holds them: the name contains ".coff" and is the string held
      at `fileVaddr`; argument `i` is held as `ArgumentHeld` says. */
  ghost predicate RequestHeld(mem: seq<byte>, pt: seq<TranslationEntry>, numPages: int,
                              fileVaddr: int, argVaddr: int, request: ExecRequest)
  {
    Contains(request.name, CoffName) && StringHeld(mem, pt, numPages, fileVaddr, MaxStringSize, request.name)
    && forall i | 0 <= i < |request.args| :: ArgumentHeld(mem, pt, numPages, argVaddr, i, request.args[i])
  }

  /** An `exec` request that reads: the pointer checks pass, a name
      containing ".coff" is held at `fileVaddr`, and each of the
      `argLength` arguments is readable. */
  ghost predicate ExecReadable(mem: seq<byte>, pt: seq<TranslationEntry>, numPages: int,
                               fileVaddr: int, argLength: int, argVaddr: int)
  {
    !ExecRejected(|pt|, fileVaddr, argLength, argVaddr)
    && (exists name :: StringHeld(mem, pt, numPages, fileVaddr, MaxStringSize, name) && Contains(name, CoffName))
    && forall i | 0 <= i < argLength :: ArgumentReadable(mem, pt, numPages, argVaddr, i)
  }

  /** Enough room for `load` to succeed in a fresh process: contiguous
      sections, arguments within a page, enough free frames, and a page
      table of `tableLength` entries long enough for the program and, when
      there are arguments, one entry more. */
  predicate ChildFits(e: Executable, args: seq<seq<byte>>, freeFrames: int, tableLength: int)
  {
    Contiguous(e.sections) && ArgsSize(args, |args|) <= PageSize && ProgramPages(e) <= freeFrames
    && (ProgramPages(e) < tableLength || (args == [] && ProgramPages(e) <= tableLength))
  }

  /** What a write of `bytes` to `vaddr` through page table `pt` leaves:
      `n` is the count the table lets through, and memory `mem` is `mem0`
      with those first `n` bytes written. */
  ghost predicate BytesWritten(mem: seq<byte>, mem0: seq<byte>, pt: seq<TranslationEntry>, numPages: int,
                               vaddr: int, bytes: seq<byte>, n: int)
  {
    0 <= numPages <= |pt|
    && n == TransferCount(pt, numPages, vaddr, |bytes|, true) && 0 <= n <= |bytes|
    && mem == WriteImage(mem0, pt, bytes, vaddr, 0, vaddr + n)
  }

  lemma BytesWrittenBy(mem: seq<byte>, mem0: seq<byte>, pt: seq<TranslationEntry>, numPages: int,
                       vaddr: int, bytes: seq<byte>, n: int)
    requires 0 <= numPages <= |pt|
    requires n == TransferCount(pt, numPages, vaddr, |bytes|, true) && 0 <= n <= |bytes|
    requires mem == WriteImage(mem0, pt, bytes, vaddr, 0, vaddr + n)
    ensures BytesWritten(mem, mem0, pt, numPages, vaddr, bytes, n)
  {
  }

  /** What writing exit status `status` to `statVaddr` leaves: memory
      `mem` is `mem0` with the bytes of the status word that went in
      (`n` of them), and the result `r` is 1 when all four did, else 0. */
  ghost predicate StatusWritten(mem: seq<byte>, mem0: seq<byte>, pt: seq<TranslationEntry>, numPages: int,
                                statVaddr: int, status: int, r: int)
  {
    0 <= numPages <= |pt|
    && var n := TransferCount(pt, numPages, statVaddr, 4, true);
    0 <= n <= 4 && (r == 1 <==> n == 4) && (r == 0 <==> n != 4)
    && mem == WriteImage(mem0, pt, BytesFromInt(status), statVaddr, 0, statVaddr + n)
  }

  /** A write of `n` status bytes that the page table let through, with
      result 1 exactly when all four went in, is a `StatusWritten`. */
  lemma StatusWrittenBy(mem: seq<byte>, mem0: seq<byte>, pt: seq<TranslationEntry>, numPages: int,
                        statVaddr: int, status: int, r: int, n: int)
    requires 0 <= numPages <= |pt| && n == TransferCount(pt, numPages, statVaddr, 4, true) && 0 <= n <= 4
    requires r == (if n == 4 then 1 else 0)
    requires mem == WriteImage(mem0, pt, BytesFromInt(status), statVaddr, 0, statVaddr + n)
    ensures StatusWritten(mem, mem0, pt, numPages, statVaddr, status, r)
  {
  }

  /** The pointer checks of `handleExec` against the size of the caller's
      page table. */
  predicate ExecRejected(tableLength: int, fileVaddr: int, argLength: int, argVaddr: int)
  {
    var lastVaddr := tableLength * PageSize - 1;
    fileVaddr < 0 || fileVaddr > lastVaddr || argVaddr < 0 || argVaddr > lastVaddr || argLength < 0
  }

  /** The descriptor and argument checks shared by `handleRead` and
      `handleWrite`. */
  predicate TransferRejected(files: seq<bool>, fd: int, vaddr: int, size: int)
  {
    fd < 0 || fd >= TotalFileSize || fd >= |files| || !files[fd] || size < 0 || vaddr < 0
  }

  /** The first position of `pid` in `children` (the search loop of
      `handleJoin`), or -1. */
  method FindChild(children: seq<int>, pid: int) returns (index: int)
    ensures index == -1 <==> pid !in children
    ensures index != -1 ==> 0 <= index < |children| && children[index] == pid && pid !in children[..index]
  {
    var i := 0;
    while i < |children|
      invariant 0 <= i <= |children| && pid !in children[..i]
    {
      if children[i] == pid {
        return i;
      }
      assert children[..i + 1] == children[..i] + [children[i]];
      i := i + 1;
    }
    assert children[..i] == children;
    return -1;
  }

  /** `handleHalt` in process `pid`: only process 0 may halt the machine;
      `halt` says that it does. */
  method HandleHalt(pid: int) returns (r: int, halt: bool)
    ensures halt <==> pid == 0
    ensures r == if halt then 0 else -1
  {
    if pid != 0 {
      return -1, false;
    }
    return 0, true;
  }

  /** `handleRead(fd, vaddr, size)` in process `p`. The console read is
      `input`: the bytes it delivered, or `None` for its -1. Only
      descriptor 0 reads anything; the bytes read (none for any other
      descriptor) are written to `vaddr` and the count written is the
      result. The buffer holds just the bytes read: the rest of the
      code's `size`-byte buffer is never looked at. */
  method HandleRead(p: UserProcess, k: UserKernel, fd: int, vaddr: int, size: int,
                    input: Option<seq<byte>>) returns (r: int)
    requires p.Valid(k) && IsInt32(fd) && IsInt32(vaddr) && IsInt32(size)
    requires input.Some? ==> |input.value| <= size
    modifies k.memory
    ensures TransferRejected(p.files, fd, vaddr, size) ==> r == -1 && k.memory[..] == old(k.memory[..])
    ensures !TransferRejected(p.files, fd, vaddr, size) && fd == 0 && input.None? ==>
              r == -1 && k.memory[..] == old(k.memory[..])
    ensures !TransferRejected(p.files, fd, vaddr, size) && (fd != 0 || input.Some?) ==>
              BytesWritten(k.memory[..], old(k.memory[..]), p.pageTable[..], p.numPages, vaddr,
                           if fd == 0 then input.value else [], r)
  {
    if fd < 0 || fd >= TotalFileSize || !p.files[fd] || size < 0 || vaddr < 0 {
      return -1;
    }
    var bytes: seq<byte> := [];
    if fd == 0 {
      if input.None? {
        return -1;
      }
      bytes := input.value;
    }
    ghost var mem0 := k.memory[..];
    var buf := ToArray(bytes);
    assert k.memory[..] == mem0;
    ghost var pt := p.pageTable[..];
    r := p.WriteVirtualMemory(k, vaddr, buf, 0, |bytes|);
    assert p.pageTable[..] == pt && buf[..] == bytes;
    BytesWrittenBy(k.memory[..], mem0, pt, p.numPages, vaddr, bytes, r);
  }

  /** `handleWrite(fd, vaddr, size)` in process `p`: reads up to `size`
      bytes from `vaddr` and, for descriptor 1, hands the bytes read to the
      console as `output`. It returns 0 whatever the console took. */
  method HandleWrite(p: UserProcess, k: UserKernel, fd: int, vaddr: int, size: int)
    returns (r: int, output: seq<byte>)
    requires p.Valid(k) && IsInt32(fd) && IsInt32(vaddr) && IsInt32(size)
    ensures TransferRejected(p.files, fd, vaddr, size) ==> r == -1 && output == []
    ensures !TransferRejected(p.files, fd, vaddr, size) ==> r == 0
    ensures !TransferRejected(p.files, fd, vaddr, size) && fd == 1 ==>
              |output| == TransferCount(p.pageTable[..], p.numPages, vaddr, size, false)
              && Holds(k.memory[..], p.pageTable[..], vaddr, output)
    ensures fd != 1 ==> output == []
  {
    if fd < 0 || fd >= TotalFileSize || !p.files[fd] || size < 0 || vaddr < 0 {
      return -1, [];
    }
    var buf := new byte[size];
    var totalRead := p.ReadVirtualMemory(k, vaddr, buf, 0, size);
    var totalWrite := 0;
    output := [];
    if fd == 1 {
      output := buf[0 .. totalRead];
    }
    r := totalWrite;
  }

  /** The reading half of `handleExec`: the pointer checks, the file name
      and its ".coff" test, and the argument loop. `None` is each of the
      code's early -1 returns. */
  method ReadExecRequest(p: UserProcess, k: UserKernel, fileVaddr: int, argLength: int, argVaddr: int)
    returns (request: Option<ExecRequest>)
    requires p.Valid(k) && IsInt32(fileVaddr) && IsInt32(argLength) && IsInt32(argVaddr)
    ensures request.Some? <==> ExecReadable(k.memory[..], p.pageTable[..], p.numPages, fileVaddr, argLength, argVaddr)
    ensures request.Some? ==> |request.value.args| == argLength
                              && RequestHeld(k.memory[..], p.pageTable[..], p.numPages, fileVaddr, argVaddr, request.value)
  {
    var lastVaddr := p.pageTable.Length * PageSize - 1;
    if fileVaddr < 0 || fileVaddr > lastVaddr || argVaddr < 0 || argVaddr > lastVaddr || argLength < 0 {
      return None;
    }
    var fileName := p.ReadVirtualMemoryString(k, fileVaddr, MaxStringSize);
    if fileName.None? || !Contains(fileName.value, CoffName) {
      return None;
    }
    var args := ReadArguments(p, k, argLength, argVaddr);
    if args.None? {
      return None;
    }
    return Some(ExecRequest(fileName.value, args.value));
  }

  /** The argument loop of `handleExec`: for each `i`, the word at
      `argVaddr + 4 i` must read in full, and the string it points to must
      end within `MaxStringSize` bytes. */
  method ReadArguments(p: UserProcess, k: UserKernel, argLength: int, argVaddr: int)
    returns (args: Option<seq<seq<byte>>>)
    requires p.Valid(k) && IsInt32(argVaddr) && 0 <= argLength
    ensures args.Some? <==>
              forall i | 0 <= i < argLength :: ArgumentReadable(k.memory[..], p.pageTable[..], p.numPages, argVaddr, i)
    ensures args.Some? ==> |args.value| == argLength
    ensures args.Some? ==>
              forall i | 0 <= i < argLength ::
                ArgumentHeld(k.memory[..], p.pageTable[..], p.numPages, argVaddr, i, args.value[i])
  {
    ghost var mem, pt := k.memory[..], p.pageTable[..];
    var result: seq<seq<byte>> := [];
    var i := 0;
    while i < argLength
      invariant 0 <= i <= argLength && |result| == i
      invariant forall j | 0 <= j < i :: ArgumentHeld(mem, pt, p.numPages, argVaddr, j, result[j])
    {
      var argument := ReadArgument(p, k, argVaddr, i);
      if argument.None? {
        assert k.memory[..] == mem && p.pageTable[..] == pt;
        assert !ArgumentReadable(mem, pt, p.numPages, argVaddr, i);
        return None;
      }
      result := result + [argument.value];
      i := i + 1;
    }
    forall j | 0 <= j < argLength
      ensures ArgumentReadable(mem, pt, p.numPages, argVaddr, j)
    {
      assert ArgumentHeld(mem, pt, p.numPages, argVaddr, j, result[j]);
    }
    return Some(result);
  }

  /** One round of the argument loop of `handleExec`: the argument read is
      the one the caller's memory holds, and there is one exactly when the
      word and the string it points to both read. */
  method ReadArgument(p: UserProcess, k: UserKernel, argVaddr: int, i: int) returns (arg: Option<seq<byte>>)
    requires p.Valid(k) && IsInt32(argVaddr) && 0 <= i
    ensures arg.Some? ==> ArgumentHeld(k.memory[..], p.pageTable[..], p.numPages, argVaddr, i, arg.value)
    ensures forall a | ArgumentHeld(k.memory[..], p.pageTable[..], p.numPages, argVaddr, i, a) :: arg == Some(a)
  {
    ghost var mem, pt := k.memory[..], p.pageTable[..];
    var buf := new byte[4];
    var jumpOffset := Wrap32(i * 4);
    var readSize := p.ReadVirtualMemory(k, Wrap32(argVaddr + jumpOffset), buf, 0, 4);
    if readSize != 4 {
      return None;
    }
    assert buf[0 .. 4] == buf[..];
    ghost var word := buf[..];
    var vAddrToRead := BytesToInt(buf[..]);
    arg := p.ReadVirtualMemoryString(k, vAddrToRead, MaxStringSize);
    forall a | ArgumentHeld(mem, pt, p.numPages, argVaddr, i, a)
      ensures arg == Some(a)
    {
      var w :| |w| == 4 && Holds(mem, pt, ArgumentSlot(argVaddr, i), w)
               && StringHeld(mem, pt, p.numPages, BytesToInt(w), MaxStringSize, a);
      HoldsUnique(mem, pt, ArgumentSlot(argVaddr, i), w, word);
    }
    if arg.Some? {
      ArgumentHeldBy(mem, pt, p.numPages, argVaddr, i, word, arg.value);
    }
  }

  lemma ArgumentHeldBy(mem: seq<byte>, pt: seq<TranslationEntry>, numPages: int, argVaddr: int, i: int,
                       word: seq<byte>, arg: seq<byte>)
    requires 0 <= numPages <= |pt| && |word| == 4
    requires TransferCount(pt, numPages, ArgumentSlot(argVaddr, i), 4, false) == 4
    requires Holds(mem, pt, ArgumentSlot(argVaddr, i), word)
    requires StringHeld(mem, pt, numPages, BytesToInt(word), MaxStringSize, arg)
    ensures ArgumentHeld(mem, pt, numPages, argVaddr, i, arg)
  {
  }

  class Registry {
    /** `totalProcess`: the pid the next `UserProcess` gets. */
    var totalProcess: int
    /** `currentlyRunning`: processes started and not yet exited. */
    var currentlyRunning: int
    var records: map<int, ProcessRecord>

    predicate Valid()
      reads this
    {
      Tree(records, totalProcess) && currentlyRunning == |RunningSet(records)|
    }

    /** A syscall's caller: a recorded process that is still running. */
    predicate Caller(p: UserProcess)
      reads this
    {
      p.processId in records && !records[p.processId].exited
    }

    /** The registry once the first process, pid 0, is running. */
    constructor ()
      ensures Valid() && totalProcess == 1 && currentlyRunning == 1
      ensures records == map[0 := ProcessRecord(None, [], map[], false)]
    {
      totalProcess := 1;
      currentlyRunning := 1;
      records := map[0 := ProcessRecord(None, [], map[], false)];
      new;
      assert RunningSet(records) == {0};
    }

    /** `handleExec(fileVaddr, argLength, argVaddr)` by process `p`. Once
        the name and arguments are read (`request`), a child process is
        built, which uses up a pid whether or not it starts; it is then
        loaded from `executable`, what opening the named file yields. A
        child that loads runs, joins the children of `p` and its pid is
        the result; every failure is -1. */
    method HandleExec(p: UserProcess, k: UserKernel, fileVaddr: int, argLength: int, argVaddr: int,
                      executable: Option<Executable>, random: real)
      returns (r: int, ghost request: Option<ExecRequest>)
      requires Valid() && Caller(p) && p.Valid(k) && k.Valid() && 0.0 <= random < 1.0
      requires IsInt32(fileVaddr) && IsInt32(argLength) && IsInt32(argVaddr)
      modifies this, k, k.memory
      ensures Valid() && p.Valid(k) && k.Valid()
      ensures request.Some? <==>
                ExecReadable(old(k.memory[..]), p.pageTable[..], p.numPages, fileVaddr, argLength, argVaddr)
      ensures request.None? ==> r == -1 && totalProcess == old(totalProcess) && records == old(records)
                                && currentlyRunning == old(currentlyRunning)
      ensures request.Some? ==> totalProcess == old(totalProcess) + 1 && |request.value.args| == argLength
                                && RequestHeld(old(k.memory[..]), p.pageTable[..], p.numPages, fileVaddr, argVaddr,
                                               request.value)
      ensures executable.None? ==> r == -1
      ensures (request.Some? && executable.Some?
               && ChildFits(executable.value, request.value.args, |old(k.freeList)|, k.numPhysPages))
              ==> r != -1
      ensures r == -1 ==> records == old(records) && currentlyRunning == old(currentlyRunning)
      ensures r != -1 ==> r == old(totalProcess) && request.Some?
                          && records == Spawned(old(records), p.processId, r)
                          && currentlyRunning == old(currentlyRunning) + 1
    {
      var read := ReadExecRequest(p, k, fileVaddr, argLength, argVaddr);
      request := read;
      if read.None? {
        return -1, request;
      }
      var pid, executed := StartChild(k, executable, read.value.args, random);
      if !executed {
        return -1, request;
      }
      Adopt(p.processId, pid);
      r := pid;
    }

    /** `newUserProcess()` and `execute(name, args)` for the child of an
        `exec`: the child takes the next pid, then is loaded; a child that
        loads is counted as running. */
    method StartChild(k: UserKernel, executable: Option<Executable>, args: seq<seq<byte>>, random: real)
      returns (pid: int, ok: bool)
      requires Valid() && k.Valid() && 0.0 <= random < 1.0
      modifies this, k, k.memory
      ensures Tree(records, totalProcess) && k.Valid()
      ensures pid == old(totalProcess) && totalProcess == pid + 1 && pid !in records
      ensures records == old(records) && currentlyRunning == old(currentlyRunning) + (if ok then 1 else 0)
      ensures executable.None? ==> !ok
      ensures executable.Some? && ChildFits(executable.value, args, |old(k.freeList)|, k.numPhysPages) ==> ok
    {
      var child := new UserProcess(k, totalProcess);
      totalProcess := totalProcess + 1;
      ok := child.Load(k, executable, args, random);
      pid := child.processId;
      if ok {
        currentlyRunning := currentlyRunning + 1;
      }
    }

    /** The end of `handleExec`: the started child `c` goes on the child
        list of `self` with `self` as its parent. */
    method Adopt(self: int, c: int)
      requires Tree(records, totalProcess) && self in records && !records[self].exited
      requires 0 <= c < totalProcess && c !in records && currentlyRunning == |RunningSet(records)| + 1
      modifies this
      ensures Valid() && totalProcess == old(totalProcess) && currentlyRunning == old(currentlyRunning)
      ensures records == Spawned(old(records), self, c)
    {
      SpawnKeepsTree(records, totalProcess, self, c);
      records := Spawned(records, self, c);
    }

    /** `handleJoin(processID, statVaddr)` by process `p`. The child must
        already have exited (the code waits for its thread). A bad pointer
        or a pid not on the caller's child list gives -1. Otherwise the
        child leaves the list and loses its parent link; with no status
        recorded the result is 0, else the status is written to
        `statVaddr` as a 4-byte word and the result is 1 exactly when all
        four bytes were written. */
    method HandleJoin(p: UserProcess, k: UserKernel, processID: int, statVaddr: int) returns (r: int)
      requires Valid() && Caller(p) && p.Valid(k) && IsInt32(processID) && IsInt32(statVaddr)
      requires processID in records[p.processId].children ==> records[processID].exited
      modifies this, k.memory
      ensures Valid() && totalProcess == old(totalProcess) && currentlyRunning == old(currentlyRunning)
      ensures processID < 0 || statVaddr < 0 || statVaddr >= p.pageTable.Length * PageSize
              || processID !in old(records[p.processId].children) ==>
                r == -1 && records == old(records) && k.memory[..] == old(k.memory[..])
      ensures r != -1 ==>
        processID in old(records[p.processId].children)
        && (exists i | 0 <= i < |old(records[p.processId].children)| ::
              old(records[p.processId].children)[i] == processID
              && records == Joined(old(records), p.processId, i))
        && processID !in records[p.processId].children
      ensures r != -1 && processID !in old(records[p.processId].childStatus) ==>
        r == 0 && k.memory[..] == old(k.memory[..])
      ensures r != -1 && processID in old(records[p.processId].childStatus) ==>
        StatusWritten(k.memory[..], old(k.memory[..]), p.pageTable[..], p.numPages, statVaddr,
                      old(records[p.processId].childStatus[processID]), r)
    {
      ghost var mem0 := k.memory[..];
      var self := p.processId;
      if processID < 0 || statVaddr < 0 || statVaddr >= p.pageTable.Length * PageSize {
        return -1;
      }
      var index := FindChild(records[self].children, processID);
      if index == -1 {
        return -1;
      }
      var status := Unlink(self, index);
      if status.None? {
        return 0;
      }
      assert k.memory[..] == mem0;
      assert status.value == old(records[self].childStatus[processID]);
      r := WriteStatus(p, k, statVaddr, status.value);
    }

    /** The bookkeeping of `handleJoin` for the child at position `index`
        of the list of `self`: its parent link is cleared, it leaves the
        list, and its recorded status, if any, is returned. */
    method Unlink(self: int, index: int) returns (status: Option<int>)
      requires Valid() && self in records && !records[self].exited
      requires 0 <= index < |records[self].children|
      modifies this
      ensures Valid() && totalProcess == old(totalProcess) && currentlyRunning == old(currentlyRunning)
      ensures records == Joined(old(records), self, index)
      ensures old(records[self].children[index]) !in records[self].children
      ensures var c := old(records[self].children[index]);
              status == if c in old(records[self].childStatus) then Some(old(records[self].childStatus[c])) else None
    {
      JoinKeepsTree(records, totalProcess, self, index);
      var c := records[self].children[index];
      status := if c in records[self].childStatus then Some(records[self].childStatus[c]) else None;
      records := Joined(records, self, index);
    }

    /** The end of `handleJoin`: the child's status is written to
        `statVaddr` as a 4-byte word; 1 when all four bytes went in, else 0. */
    static method WriteStatus(p: UserProcess, k: UserKernel, statVaddr: int, status: int) returns (r: int)
      requires p.Valid(k) && IsInt32(statVaddr)
      modifies k.memory
      ensures StatusWritten(k.memory[..], old(k.memory[..]), p.pageTable[..], p.numPages, statVaddr, status, r)
    {
      ghost var mem0, pt := k.memory[..], p.pageTable[..];
      ghost var word := BytesFromInt(status);
      var buf := ToArray(BytesFromInt(status));
      assert k.memory[..] == mem0 && buf[..] == word;
      var writeSize := p.WriteVirtualMemory(k, statVaddr, buf, 0, 4);
      assert p.pageTable[..] == pt;
      assert writeSize == TransferCount(pt, p.numPages, statVaddr, 4, true) && 0 <= writeSize <= 4;
      assert k.memory[..] == WriteImage(mem0, pt, word, statVaddr, 0, statVaddr + writeSize);
      r := if writeSize == 4 then 1 else 0;
      StatusWrittenBy(k.memory[..], mem0, pt, p.numPages, statVaddr, status, r, writeSize);
    }

    /** `handleExit(exitStatus)` by process `p`: the status is stored in the
        parent's map when there is a parent, the address space is unloaded,
        every child loses its parent link and `p` stops running. The
        machine terminates (`terminate`) exactly when no process is left
        running; the result is 0. */
    method HandleExit(p: UserProcess, k: UserKernel, exitStatus: int) returns (r: int, terminate: bool)
      requires Valid() && Caller(p) && p.Valid(k) && k.Valid()
      modifies this, p, p.pageTable, k
      ensures Valid() && p.Valid(k) && k.Valid() && r == 0
      ensures totalProcess == old(totalProcess) && currentlyRunning == old(currentlyRunning) - 1
      ensures records == Exited(old(records), p.processId, exitStatus)
      ensures RunningSet(records) == old(RunningSet(records)) - {p.processId}
      ensures terminate <==> RunningSet(records) == {}
      ensures old(records[p.processId].parent).Some? ==>
                records[old(records[p.processId].parent).value].childStatus[p.processId] == exitStatus
      ensures forall c | c in records :: records[c].parent != Some(p.processId)
      ensures p.numPages == 0 && forall i | 0 <= i < p.pageTable.Length :: !p.pageTable[i].valid
      ensures k.freeList == Reversed(ValidFrames(old(p.pageTable[..]))) + old(k.freeList)
    {
      terminate := ExitRecords(p.processId, exitStatus);
      p.UnloadSections(k);
      r := 0;
    }

    /** The registry half of `handleExit` by `self`: the status report to
        the parent, the loop clearing the children's parent links and the
        drop of the running count. The code unloads the sections between
        the first and the second; the two touch disjoint state. */
    method ExitRecords(self: int, status: int) returns (terminate: bool)
      requires Valid() && self in records && !records[self].exited
      modifies this
      ensures Valid()
      ensures totalProcess == old(totalProcess) && currentlyRunning == old(currentlyRunning) - 1
      ensures records == Exited(old(records), self, status)
      ensures RunningSet(records) == old(RunningSet(records)) - {self}
      ensures terminate <==> RunningSet(records) == {}
      ensures old(records[self].parent).Some? ==>
                records[old(records[self].parent).value].childStatus[self] == status
      ensures forall c | c in records :: records[c].parent != Some(self)
    {
      ExitKeepsTree(records, totalProcess, self, status);
      ghost var exited := Exited(records, self, status);
      ReportStatus(self, status);
      ClearParentLinks(records[self].children);
      currentlyRunning := currentlyRunning - 1;
      records := records[self := records[self].(exited := true)];
      assert records == exited;
      terminate := currentlyRunning == 0;
    }

    /** The parent-status step of `handleExit`. */
    method ReportStatus(self: int, status: int)
      requires Valid() && self in records
      modifies this
      ensures totalProcess == old(totalProcess) && currentlyRunning == old(currentlyRunning)
      ensures records == Reported(old(records), self, status)
    {
      var parent := records[self].parent;
      if parent.Some? {
        var q := records[parent.value];
        records := records[parent.value := q.(childStatus := q.childStatus[self := status])];
      }
    }

    /** The loop of `handleExit` over the child list: each child's parent
        link is cleared. */
    method ClearParentLinks(children: seq<int>)
      modifies this
      ensures totalProcess == old(totalProcess) && currentlyRunning == old(currentlyRunning)
      ensures records == Orphaned(old(records), children)
    {
      ghost var r0 := records;
      var i := 0;
      while i < |children|
        invariant 0 <= i <= |children|
        invariant totalProcess == old(totalProcess) && currentlyRunning == old(currentlyRunning)
        invariant records == Orphaned(r0, children[..i])
      {
        var c := children[i];
        if c in records {
          records := records[c := records[c].(parent := None)];
        }
        assert children[..i + 1] == children[..i] + [c];
        i := i + 1;
      }
      assert children[..i] == children;
    }
  }
}
