/** The memdev driver with its allocation defect corrected: when kmalloc refuses
    a request, `buffer_size` is set to 0 (the old block has already been freed), so
    the size is 0 whenever the pointer is NULL. Writes, reads and unknown commands
    are those of the driver as written. */
module MemDevFixed {
  import opened KernelHeap
  import opened MemDev
  import MemDevProperties

  /** IOCTL_ALLOC_MEM, corrected: the old block is still released first; a
      refused request then sets `buffer_size` to 0, leaving the globals as at
      module load. */
  function AllocateFixed(s: Driver, n: ULong, k: KmallocAnswer): (o: Outcome)
    ensures k.Grants? ==> o == Allocate(s, n, k)
    ensures k.Fails? ==> o.next == Boot && o.ret == Returns(-ENOMEM) && o.toUser == []
    ensures o.heap == Allocate(s, n, k).heap
    ensures |o.heap| == Held(s) + 1 && o.heap[Held(s)] == Kmalloc(n, k.Grants?)
    ensures Consistent(o.next)
    ensures Ledger(Held(s), o.heap, Held(o.next))
  {
    var o := Allocate(s, n, k);
    if k.Grants? then o else o.(next := Boot)
  }

  /** device_ioctl with the corrected allocation. From a consistent state it stays
      consistent and never copies through NULL, whatever kmalloc answers. */
  function StepFixed(s: Driver, c: Command, k: KmallocAnswer): (o: Outcome)
    ensures !c.AllocMem? ==> o == Step(s, c, k)
    ensures Consistent(s) ==> Consistent(o.next) && o.ret != NullDeref
    ensures Ledger(Held(s), o.heap, Held(o.next))
  {
    match c
    case AllocMem(n) => AllocateFixed(s, n, k)
    case _ => Step(s, c, k)
  }

  /** Issue `calls` one after another through the corrected driver. */
  function RunFixed(s: Driver, calls: seq<Call>): (t: Trace)
    ensures |t.rets| == |calls|
    ensures Consistent(s) ==> Consistent(t.final) && NullDeref !in t.rets
    ensures Ledger(Held(s), t.heap, Held(t.final))
    decreases |calls|
  {
    if |calls| == 0 then Trace(s, [], [])
    else
      var o := StepFixed(s, calls[0].cmd, calls[0].kmalloc);
      var t := RunFixed(o.next, calls[1..]);
      LedgerAppend(Held(s), o.heap, Held(o.next), t.heap, Held(t.final));
      Trace(t.final, [o.ret] + t.rets, o.heap + t.heap)
  }

  /** From module load, no sequence of calls to the corrected driver ever copies
      through NULL, and unloading afterwards leaves no block behind. */
  lemma NeverCopiesThroughNull(calls: seq<Call>)
    ensures var t := RunFixed(Boot, calls);
            NullDeref !in t.rets && Consistent(t.final)
            && Ledger(0, t.heap + Shutdown(t.final), 0)
  {
    var t := RunFixed(Boot, calls);
    LedgerAppend(0, t.heap, Held(t.final), Shutdown(t.final), 0);
  }

  /** The correction changes nothing while kmalloc grants every allocation: the
      corrected and the original driver then produce the same trace, so every
      property of the original's successful paths (the round trip among them) holds
      of the corrected one. */
  lemma {:induction false} AgreesWhileAllocationsSucceed(s: Driver, calls: seq<Call>)
    requires MemDevProperties.AllocationsSucceed(calls)
    ensures RunFixed(s, calls) == Run(s, calls)
    decreases |calls|
  {
    if |calls| > 0 {
      assert calls[0].cmd.AllocMem? ==> calls[0].kmalloc.Grants?;
      var o := Step(s, calls[0].cmd, calls[0].kmalloc);
      assert MemDevProperties.AllocationsSucceed(calls[1..]) by {
        forall i | 0 <= i < |calls[1..]| && calls[1..][i].cmd.AllocMem?
          ensures calls[1..][i].kmalloc.Grants?
        {
          assert calls[1..][i] == calls[i + 1];
        }
      }
      AgreesWhileAllocationsSucceed(o.next, calls[1..]);
    }
  }

  /** Where the two differ: after a refused allocation the corrected driver holds
      size 0, so a following write or read copies nothing and returns 0. */
  lemma FailedAllocationIsHarmless(s: Driver, n: ULong, src: UserRegion, dst: UserRegion)
    ensures var a := StepFixed(s, AllocMem(n), Fails);
            a.ret == Returns(-ENOMEM) && a.next == Boot
            && StepFixed(a.next, WriteMem(src), Fails).ret == Returns(0)
            && StepFixed(a.next, ReadMem(dst), Fails) == Outcome(Boot, Returns(0), [], [])
  {
  }
}
