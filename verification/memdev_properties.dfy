/** Properties of the memdev driver as written: what each ioctl promises, how they
    compose over a sequence of calls, and where the buffer invariant breaks. */
module MemDevProperties {
  import opened KernelHeap
  import opened MemDev

  /** IOCTL_ALLOC_MEM keeps no reference to the old block: the globals and the
      result afterwards depend only on the request and on kmalloc's answer, never on
      what was held. (kmalloc's answer itself may recycle the freed block; see
      StaleBytesCanReappear.) */
  lemma AllocateForgetsOldBuffer(s1: Driver, s2: Driver, n: ULong, k: KmallocAnswer)
    ensures Allocate(s1, n, k).next == Allocate(s2, n, k).next
    ensures Allocate(s1, n, k).ret == Allocate(s2, n, k).ret
  {
  }

  /** A read straight after a successful allocation delivers the `n` bytes kmalloc
      handed out, uninitialised, whatever the driver held before; a length above
      INT_MAX is refused by the copy and delivers nothing. */
  lemma ReadAfterAllocate(s: Driver, n: ULong, junk: nat -> bv8, dst: UserRegion)
    requires n <= |dst.bytes|
    ensures var a := Allocate(s, n, Grants(junk));
            var r := Read(a.next, dst);
            (n <= INT_MAX ==> r.ret == Returns(0) && r.toUser == Block(junk, n))
            && (n > INT_MAX ==> r.ret == Returns(-EFAULT) && r.toUser == [])
  {
  }

  /** Uninitialised bytes of the allocator, as a kmalloc answer: the bytes of a
      freed block `b` still lying in the recycled memory. */
  function Recycled(b: seq<bv8>): (junk: nat -> bv8)
    ensures forall i: nat :: i < |b| ==> junk(i) == b[i]
  {
    (i: nat) => if i < |b| then b[i] else 0
  }

  /** kfree and a same-sized kmalloc may hand back the very block just freed, its
      bytes untouched, so a read straight after a reallocation can deliver the old
      buffer's contents: the driver never clears a fresh block. */
  lemma StaleBytesCanReappear(b: seq<bv8>, dst: UserRegion)
    requires |b| <= INT_MAX && |b| <= |dst.bytes|
    ensures var s := State(Some(b), |b|);
            var a := Allocate(s, |b|, Grants(Recycled(b)));
            var r := Read(a.next, dst);
            a.ret == Returns(0) && r.ret == Returns(0) && r.toUser == b
  {
  }

  /** Write then read through regions that cover the buffer gives back the first
      `buffer_size` bytes written, and leaves the size alone. A buffer longer than
      INT_MAX can be neither written nor read: both copies are refused. */
  lemma WriteThenRead(s: Driver, src: UserRegion, dst: UserRegion)
    requires s.buf.Some?
    requires s.size <= |src.bytes| && s.size <= |dst.bytes|
    ensures var w := Write(s, src);
            var r := Read(w.next, dst);
            r.next.size == s.size
            && (s.size <= INT_MAX ==>
                  w.ret == Returns(0) && r.ret == Returns(0) && r.toUser == src.bytes[..s.size])
            && (s.size > INT_MAX ==>
                  w.ret == Returns(-EFAULT) && r.ret == Returns(-EFAULT) && r.next == s)
  {
  }

  /** Round trip: allocate `n` bytes, write `n` bytes, read them back; every call
      returns 0 and the read delivers exactly what was written, whatever the driver
      held before. Above INT_MAX the allocation may be granted but both copies are
      refused. */
  lemma RoundTrip(s: Driver, n: ULong, junk: nat -> bv8, src: UserRegion, dst: UserRegion)
    requires |src.bytes| == n && n <= |dst.bytes|
    ensures var a := Step(s, AllocMem(n), Grants(junk));
            var w := Step(a.next, WriteMem(src), Fails);
            var r := Step(w.next, ReadMem(dst), Fails);
            a.ret == Returns(0) && r.next.size == n
            && (n <= INT_MAX ==>
                  w.ret == Returns(0) && r.ret == Returns(0) && r.toUser == src.bytes)
            && (n > INT_MAX ==> w.ret == Returns(-EFAULT) && r.ret == Returns(-EFAULT))
  {
    var a := Step(s, AllocMem(n), Grants(junk));
    assert src.bytes[..n] == src.bytes;
    WriteThenRead(a.next, src, dst);
  }

  /** Issuing one more call extends the trace by exactly that call's outcome. */
  lemma {:induction false} RunSnoc(s: Driver, calls: seq<Call>, c: Call)
    ensures var t := Run(s, calls);
            var o := Step(t.final, c.cmd, c.kmalloc);
            Run(s, calls + [c]) == Trace(o.next, t.rets + [o.ret], t.heap + o.heap)
    decreases |calls|
  {
    if |calls| == 0 {
      assert calls + [c] == [c];
    } else {
      assert (calls + [c])[0] == calls[0];
      assert (calls + [c])[1..] == calls[1..] + [c];
      var o0 := Step(s, calls[0].cmd, calls[0].kmalloc);
      RunSnoc(o0.next, calls[1..], c);
      var t1 := Run(o0.next, calls[1..]);
      var o := Step(t1.final, c.cmd, c.kmalloc);
      assert [o0.ret] + (t1.rets + [o.ret]) == ([o0.ret] + t1.rets) + [o.ret];
      assert o0.heap + (t1.heap + o.heap) == (o0.heap + t1.heap) + o.heap;
    }
  }

  /** The size requested by the last IOCTL_ALLOC_MEM in `calls`, and whether
      kmalloc granted it; None when `calls` allocates nothing. */
  function LastAllocation(calls: seq<Call>): Option<(ULong, bool)>
    decreases |calls|
  {
    if |calls| == 0 then None
    else
      var c := calls[|calls| - 1];
      if c.cmd.AllocMem? then Some((c.cmd.n, c.kmalloc.Grants?))
      else LastAllocation(calls[..|calls| - 1])
  }

  /** Only IOCTL_ALLOC_MEM assigns the globals' shape: after any sequence of calls
      the size is the one the last allocation asked for, and a block is held exactly
      when kmalloc granted that allocation; with no allocation both are as before. */
  lemma {:induction false} StateFollowsLastAllocation(s: Driver, calls: seq<Call>)
    ensures var t := Run(s, calls);
            match LastAllocation(calls)
            case None => t.final.size == s.size && (t.final.buf.Some? <==> s.buf.Some?)
            case Some((n, granted)) => t.final.size == n && (t.final.buf.Some? <==> granted)
    decreases |calls|
  {
    if |calls| > 0 {
      var init := calls[..|calls| - 1];
      var c := calls[|calls| - 1];
      assert calls == init + [c];
      RunSnoc(s, init, c);
      StateFollowsLastAllocation(s, init);
    }
  }

  /** Consequently a run from a consistent state ends inconsistent exactly when the
      last allocation asked for a nonzero size and kmalloc refused it. */
  lemma ConsistentUnlessLastAllocationFailed(s: Driver, calls: seq<Call>)
    requires Consistent(s)
    ensures Consistent(Run(s, calls).final) <==>
            match LastAllocation(calls)
            case None => true
            case Some((n, granted)) => granted || n == 0
  {
    StateFollowsLastAllocation(s, calls);
  }

  /** Every IOCTL_ALLOC_MEM among `calls` is granted by kmalloc. */
  predicate AllocationsSucceed(calls: seq<Call>) {
    forall i :: 0 <= i < |calls| && calls[i].cmd.AllocMem? ==> calls[i].kmalloc.Grants?
  }

  /** One ioctl keeps the state consistent and copies nothing through NULL, unless it
      is an allocation that kmalloc refuses. */
  lemma StepKeepsConsistent(s: Driver, c: Command, k: KmallocAnswer)
    requires Consistent(s)
    requires c.AllocMem? ==> k.Grants?
    ensures Consistent(Step(s, c, k).next)
    ensures Step(s, c, k).ret != NullDeref
  {
  }

  /** As long as no allocation fails, no call in a sequence copies through NULL and
      the state stays consistent. */
  lemma {:induction false} SafeWhileAllocationsSucceed(s: Driver, calls: seq<Call>)
    requires Consistent(s)
    requires AllocationsSucceed(calls)
    ensures Consistent(Run(s, calls).final)
    ensures NullDeref !in Run(s, calls).rets
    decreases |calls|
  {
    if |calls| > 0 {
      var o := Step(s, calls[0].cmd, calls[0].kmalloc);
      StepKeepsConsistent(s, calls[0].cmd, calls[0].kmalloc);
      assert AllocationsSucceed(calls[1..]) by {
        forall i | 0 <= i < |calls[1..]| && calls[1..][i].cmd.AllocMem?
          ensures calls[1..][i].kmalloc.Grants?
        {
          assert calls[1..][i] == calls[i + 1];
        }
      }
      SafeWhileAllocationsSucceed(o.next, calls[1..]);
    }
  }

  /** The defect: a refused allocation of `n > 0` bytes returns -ENOMEM but leaves
      size `n` stored beside a NULL pointer. If `n` is at most INT_MAX the next write
      or read then copies `n` bytes through NULL; a larger `n` is refused by the copy
      with -EFAULT before memory is touched. */
  lemma FailedAllocationLeavesDanglingSize(s: Driver, n: ULong, src: UserRegion, dst: UserRegion)
    requires n > 0
    ensures var a := Step(s, AllocMem(n), Fails);
            var w := Step(a.next, WriteMem(src), Fails);
            var r := Step(a.next, ReadMem(dst), Fails);
            a.ret == Returns(-ENOMEM) && a.next == State(None, n) && !Consistent(a.next)
            && (n <= INT_MAX ==> w.ret == NullDeref && r.ret == NullDeref)
            && (n > INT_MAX ==> w.ret == Returns(-EFAULT) && r.ret == Returns(-EFAULT))
  {
  }

  /** A two-call run that exhibits the defect from a freshly loaded module: a
      request of 1 << 30 bytes, above the largest block kmalloc hands out, is
      always refused, and the write that follows copies through NULL. */
  lemma FailedAllocationThenWrite()
    ensures Run(Boot, [Call(AllocMem(0x4000_0000), Fails), Call(WriteMem(UserRegion([0])), Fails)]).rets
            == [Returns(-ENOMEM), NullDeref]
  {
    var a := Step(Boot, AllocMem(0x4000_0000), Fails);
    FailedAllocationLeavesDanglingSize(Boot, 0x4000_0000, UserRegion([0]), UserRegion([0]));
    assert Run(a.next, [Call(WriteMem(UserRegion([0])), Fails)]).rets == [NullDeref];
  }

  /** Module lifetime: load, issue any calls, unload. Every kfree frees the one live
      block, kmalloc is only asked once the previous block is released, and every
      granted block is freed exactly once by the end. */
  lemma NoLeakAtUnload(calls: seq<Call>)
    ensures var t := Run(Boot, calls);
            var ops := t.heap + Shutdown(t.final);
            Ledger(0, ops, 0) && Granted(ops) == Freed(ops)
  {
    var t := Run(Boot, calls);
    LedgerAppend(0, t.heap, Held(t.final), Shutdown(t.final), 0);
    LedgerBalances(0, t.heap + Shutdown(t.final), 0);
  }
}
