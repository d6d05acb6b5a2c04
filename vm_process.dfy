/** Demand paging's process side (`VMProcess`): flushing the TLB on a
    context switch, routing a TLB-miss exception, and refilling one TLB
    slot on a miss. The processor's TLB is an array of translation entries
    handed to each operation; the inverted page table is the kernel's. */
module VM {
  import opened Machine
  import opened Util
  import opened Kernel
  import opened Process

  /** `Processor.exceptionTLBMiss`, the one cause `handleException` handles
      itself. */
  const ExceptionTLBMiss: int := 2

  /** What a TLB miss did: the slot chosen and, when a translation for the
      faulting page was found, the entry written there. */
  datatype MissOutcome = Filled(slot: int, entry: TranslationEntry) | NotFound(slot: int)

  /** Where `handleException` sent an exception: to the miss handler, or to
      `UserProcess.handleException` with its cause. */
  datatype Route = MissHandled(outcome: MissOutcome) | Delegated(cause: int)

  /** The TLB after a context switch: every entry with its valid bit
      cleared and nothing else changed. */
  function Flushed(t: seq<TranslationEntry>): (r: seq<TranslationEntry>)
    ensures |r| == |t|
    ensures forall i | 0 <= i < |t| :: r[i] == t[i].(valid := false)
  {
    if t == [] then [] else [t[0].(valid := false)] + Flushed(t[1..])
  }

  /** The first page-table entry whose `vpn` field is `vpn`, whatever its
      valid bit; `None` when there is none. */
  function FirstWithVpn(pt: seq<TranslationEntry>, vpn: int): (r: Option<TranslationEntry>)
    ensures r.None? <==> forall i | 0 <= i < |pt| :: pt[i].vpn != vpn
    ensures r.Some? ==> exists i | 0 <= i < |pt| :: pt[i] == r.value
                          && pt[i].vpn == vpn && forall j | 0 <= j < i :: pt[j].vpn != vpn
  {
    if pt == [] then None
    else if pt[0].vpn == vpn then Some(pt[0])
    else
      var r := FirstWithVpn(pt[1..], vpn);
      assert r.Some? ==> exists i | 0 <= i < |pt[1..]| :: pt[1..][i] == r.value
                           && pt[1..][i].vpn == vpn && forall j | 0 <= j < i :: pt[1..][j].vpn != vpn;
      assert r.Some? ==> exists i | 1 <= i < |pt| :: pt[i] == r.value
                           && pt[i].vpn == vpn && forall j | 0 <= j < i :: pt[j].vpn != vpn;
      r
  }

  /** The translation `handleTLBMiss` finds for page `vpn` of process
      `pid`: the inverted page table's entry for the key when there is
      one, otherwise the first matching entry of the page table. */
  function TranslationFor(inverted: map<PageKey, TranslationEntry>, pid: int,
                          pt: seq<TranslationEntry>, vpn: int): Option<TranslationEntry>
  {
    var key := PageKey(pid, vpn);
    if key in inverted then Some(inverted[key]) else FirstWithVpn(pt, vpn)
  }

  /** The index of the first invalid entry of `t`, or `|t|` when all are valid. */
  function FirstInvalid(t: seq<TranslationEntry>): (r: int)
    ensures 0 <= r <= |t|
    ensures r < |t| ==> !t[r].valid
    ensures forall j | 0 <= j < r :: t[j].valid
  {
    if t == [] then 0
    else if !t[0].valid then 0
    else
      var r := FirstInvalid(t[1..]);
      assert forall j | 0 <= j < r :: t[1..][j].valid;
      assert forall j | 1 <= j < r + 1 :: t[j] == t[1..][j - 1];
      r + 1
  }

  /** The slot `floor(random * size) % size` that replaces a valid entry. */
  function RandomSlot(random: real, size: int): int
    requires size > 0
  {
    (random * (size as real)).Floor % size
  }

  /** The slot a miss fills in TLB `t` when the random draw is `random`. */
  function SlotFor(t: seq<TranslationEntry>, random: real): int
    requires |t| > 0
  {
    if FirstInvalid(t) < |t| then FirstInvalid(t) else RandomSlot(random, |t|)
  }

  /** A flushed TLB holds no valid entry, and flushing twice is flushing once. */
  lemma FlushedIsEmpty(t: seq<TranslationEntry>)
    ensures forall i | 0 <= i < |t| :: !Flushed(t)[i].valid
    ensures Flushed(Flushed(t)) == Flushed(t)
  {
  }

  /** The slot of a miss is a slot of the TLB; it is an invalid one exactly
      when the TLB has an invalid entry, and then it is the lowest. */
  lemma SlotForChoice(t: seq<TranslationEntry>, random: real)
    requires |t| > 0 && 0.0 <= random < 1.0
    ensures 0 <= SlotFor(t, random) < |t|
    ensures (exists i | 0 <= i < |t| :: !t[i].valid) <==> !t[SlotFor(t, random)].valid
    ensures !t[SlotFor(t, random)].valid ==> forall j | 0 <= j < SlotFor(t, random) :: t[j].valid
  {
    if FirstInvalid(t) == |t| {
      var x := random * (|t| as real);
      assert 0.0 <= x < |t| as real;
      assert 0 <= x.Floor < |t|;
    }
  }

  /** The first miss after a context switch fills slot 0. */
  lemma FirstMissAfterFlush(t: seq<TranslationEntry>, random: real)
    requires |t| > 0
    ensures SlotFor(Flushed(t), random) == 0
  {
  }

  /** On a page table whose entry `i` describes page `i`, a key missing
      from the inverted table falls back to the entry of page `vpn` itself,
      valid or not, and finds nothing for a page outside the table. */
  lemma TranslationOnIndexedTable(inverted: map<PageKey, TranslationEntry>, pid: int,
                                  pt: seq<TranslationEntry>, vpn: int)
    requires forall i | 0 <= i < |pt| :: pt[i].vpn == i
    requires PageKey(pid, vpn) !in inverted
    ensures 0 <= vpn < |pt| ==> TranslationFor(inverted, pid, pt, vpn) == Some(pt[vpn])
    ensures !(0 <= vpn < |pt|) ==> TranslationFor(inverted, pid, pt, vpn) == None
  {
    var r := FirstWithVpn(pt, vpn);
    if r.Some? {
      var i :| 0 <= i < |pt| && pt[i] == r.value && pt[i].vpn == vpn;
    }
  }

  /** `restoreState`: clears the valid bit of every TLB entry. */
  method RestoreState(tlb: array<TranslationEntry>)
    modifies tlb
    ensures tlb[..] == Flushed(old(tlb[..]))
  {
    ghost var t0 := tlb[..];
    var tlbSize := tlb.Length;
    var i := 0;
    while i < tlbSize
      invariant 0 <= i <= tlbSize == tlb.Length
      invariant forall j | 0 <= j < i :: tlb[j] == t0[j].(valid := false)
      invariant forall j | i <= j < tlbSize :: tlb[j] == t0[j]
    {
      var t := tlb[i];
      t := t.(valid := false);
      tlb[i] := t;
      i := i + 1;
    }
  }

  /** The lookup half of `handleTLBMiss` for page `vpn` of process `p`:
      the inverted table first, then a scan of `p`'s page table. */
  method LookupEntry(k: UserKernel, p: UserProcess, vpn: int) returns (t: Option<TranslationEntry>)
    ensures t == TranslationFor(k.inverted, p.processId, p.pageTable[..], vpn)
  {
    var key := PageKey(p.processId, vpn);
    if key in k.inverted {
      return Some(k.inverted[key]);
    }
    t := None;
    var i := 0;
    while i < p.pageTable.Length
      invariant 0 <= i <= p.pageTable.Length
      invariant forall j | 0 <= j < i :: p.pageTable[j].vpn != vpn
    {
      if p.pageTable[i].vpn == vpn {
        t := Some(p.pageTable[i]);
        ghost var r := FirstWithVpn(p.pageTable[..], vpn);
        if r.Some? {
          var m :| 0 <= m < p.pageTable.Length && p.pageTable[m] == r.value && p.pageTable[m].vpn == vpn
                   && forall j | 0 <= j < m :: p.pageTable[j].vpn != vpn;
          assert m == i;
        }
        return;
      }
      i := i + 1;
    }
  }

  /** The slot-choosing half of `handleTLBMiss`: the lowest invalid slot,
      otherwise a random one. */
  method FindTLBSlot(tlb: array<TranslationEntry>, random: real) returns (index: int)
    requires tlb.Length > 0
    ensures index == SlotFor(tlb[..], random)
  {
    index := -5;
    var i := 0;
    while i < tlb.Length
      invariant 0 <= i <= tlb.Length
      invariant forall j | 0 <= j < i :: tlb[j].valid
    {
      if !tlb[i].valid {
        index := i;
        break;
      }
      i := i + 1;
    }
    if index == -5 {
      var temp := (random * (tlb.Length as real)).Floor;
      index := temp % tlb.Length;
    }
  }

  /** `handleTLBMiss(badAddr)` in process `p`: finds the translation of the
      faulting page and writes it into the chosen slot; every other slot is
      left alone. When no translation is found the code goes on to write a
      null entry; the model leaves the TLB as it was and reports the slot. */
  method HandleTLBMiss(k: UserKernel, p: UserProcess, tlb: array<TranslationEntry>,
                       badAddr: int, random: real) returns (outcome: MissOutcome)
    requires tlb.Length > 0 && tlb != p.pageTable && 0.0 <= random < 1.0
    modifies tlb
    ensures var slot := SlotFor(old(tlb[..]), random);
            var t := TranslationFor(k.inverted, p.processId, p.pageTable[..], PageFromAddress(badAddr));
            (t.Some? ==> outcome == Filled(slot, t.value) && tlb[..] == old(tlb[..])[slot := t.value])
            && (t.None? ==> outcome == NotFound(slot) && tlb[..] == old(tlb[..]))
  {
    var vpn := PageFromAddress(badAddr);
    var t := LookupEntry(k, p, vpn);
    var index := FindTLBSlot(tlb, random);
    SlotForChoice(tlb[..], random);
    if t.Some? {
      tlb[index] := t.value;
      outcome := Filled(index, t.value);
    } else {
      outcome := NotFound(index);
    }
  }

  /** `handleException(cause)`: a TLB miss, with the faulting address read
      from the bad-address register, goes to the miss handler; every other
      cause goes to the base class with the TLB untouched. */
  method HandleException(k: UserKernel, p: UserProcess, tlb: array<TranslationEntry>,
                         cause: int, badVAddr: int, random: real) returns (route: Route)
    requires tlb.Length > 0 && tlb != p.pageTable && 0.0 <= random < 1.0
    modifies tlb
    ensures cause != ExceptionTLBMiss ==> route == Delegated(cause) && tlb[..] == old(tlb[..])
    ensures cause == ExceptionTLBMiss ==>
      var slot := SlotFor(old(tlb[..]), random);
      var t := TranslationFor(k.inverted, p.processId, p.pageTable[..], PageFromAddress(badVAddr));
      (t.Some? ==> route == MissHandled(Filled(slot, t.value)) && tlb[..] == old(tlb[..])[slot := t.value])
      && (t.None? ==> route == MissHandled(NotFound(slot)) && tlb[..] == old(tlb[..]))
  {
    if cause == ExceptionTLBMiss {
      var outcome := HandleTLBMiss(k, p, tlb, badVAddr, random);
      route := MissHandled(outcome);
    } else {
      route := Delegated(cause);
    }
  }
}
