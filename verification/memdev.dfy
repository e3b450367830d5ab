/** The `memdev` character device of kernel_test.c: one kernel buffer, driven by
    three ioctl commands (allocate, write, read) and released when the module is
    unloaded. This module follows the code as written, including its handling of
    a failed allocation. */
module MemDev {
  import opened KernelHeap

  /** `unsigned long` and `size_t`, 64 bits wide on the kernels the driver targets. */
  type ULong = n: nat | n < 0x1_0000_0000_0000_0000

  /** errno values of the kernel's errno-base.h; device_ioctl returns their negations. */
  const ENOMEM: int := 12
  const EFAULT: int := 14
  const EINVAL: int := 22

  /** The largest length copy_from_user and copy_to_user accept: their length
      check refuses anything longer without touching memory. */
  const INT_MAX: nat := 0x7FFF_FFFF

  /** The driver globals `kernel_buffer` (None when NULL, otherwise the bytes of the
      block it points to) and `buffer_size`. */
  datatype State = State(buf: Option<seq<bv8>>, size: ULong)

  /** A state in which a held block has exactly `buffer_size` bytes: the block was
      obtained as kmalloc(buffer_size) and no command resizes it. Every state the
      driver can reach has this shape. */
  type Driver = s: State | s.buf.Some? ==> |s.buf.value| == s.size
    witness State(None, 0)

  /** The globals as the module is loaded: NULL and 0. */
  const Boot: Driver := State(None, 0)

  /** What kmalloc does with one request: return NULL, or grant a block whose
      uninitialised bytes are `junk` (kmalloc does not clear memory). */
  datatype KmallocAnswer = Fails | Grants(junk: nat -> bv8)

  /** The bytes of the block a granting kmalloc(n) hands out. */
  function Block(junk: nat -> bv8, n: nat): (b: seq<bv8>)
    ensures |b| == n
    ensures forall i :: 0 <= i < n ==> b[i] == junk(i)
  {
    seq(n, i requires 0 <= i < n => junk(i))
  }

  /** The user memory that `arg` points at, seen through copy_from_user and
      copy_to_user: `bytes` are the bytes a copy reaches from that address before it
      faults (empty for a pointer that is not accessible at all). */
  datatype UserRegion = UserRegion(bytes: seq<bv8>)

  /** One ioctl request: the command code together with what its `arg` means. */
  datatype Command =
    | AllocMem(n: ULong)          // IOCTL_ALLOC_MEM: `arg` is the new size
    | WriteMem(src: UserRegion)   // IOCTL_WRITE_MEM: `arg` points at the source
    | ReadMem(dst: UserRegion)    // IOCTL_READ_MEM: `arg` points at the destination
    | Other                       // any other command code

  /** What the caller of device_ioctl observes: the `long` it returns, or a kernel
      copy of a nonzero length through the NULL `kernel_buffer`, whose effect the
      driver does not define. */
  datatype Ret = Returns(value: int) | NullDeref

  /** The effect of one ioctl: the globals afterwards, the result, the bytes copied
      out to the start of the user region, and the allocator calls made. */
  datatype Outcome = Outcome(next: Driver, ret: Ret, toUser: seq<bv8>, heap: seq<HeapOp>)

  /** The pointer is NULL only while the size is 0, so no copy of `buffer_size`
      bytes can go through NULL. (The converse does not hold: kmalloc(0) returns a
      non-NULL zero-size pointer, so a successful allocation of 0 bytes holds an
      empty block.) */
  predicate Consistent(s: Driver) {
    s.buf.None? ==> s.size == 0
  }

  /** Number of blocks the globals hold (0 or 1). */
  function Held(s: State): nat {
    if s.buf.Some? then 1 else 0
  }

  /** The zero bytes copy_from_user pads an incomplete copy with. */
  function Zeros(n: nat): (z: seq<bv8>)
    ensures |z| == n
    ensures forall i :: 0 <= i < n ==> z[i] == 0
  {
    seq(n, _ => 0)
  }

  /** IOCTL_ALLOC_MEM: free the held block, store the requested size, then ask
      kmalloc for a block of that size. On failure the size stays stored while the
      pointer is NULL. The allocator calls are exactly a kfree when a block was held,
      followed by one kmalloc of `n` bytes: together with the `Ledger` this rules out
      resizing the old block in place. */
  function Allocate(s: Driver, n: ULong, k: KmallocAnswer): (o: Outcome)
    ensures o.next.size == n
    ensures k.Grants? <==> o.ret == Returns(0)
    ensures k.Grants? ==> o.next.buf == Some(Block(k.junk, n))
    ensures k.Fails? <==> o.ret == Returns(-ENOMEM)
    ensures k.Fails? ==> o.next.buf.None?
    ensures o.toUser == []
    ensures |o.heap| == Held(s) + 1 && o.heap[Held(s)] == Kmalloc(n, k.Grants?)
    ensures Ledger(Held(s), o.heap, Held(o.next))
  {
    var release := if s.buf.Some? then [Kfree] else [];
    match k
    case Fails =>
      Outcome(State(None, n), Returns(-ENOMEM), [], release + [Kmalloc(n, false)])
    case Grants(junk) =>
      Outcome(State(Some(Block(junk, n)), n), Returns(0), [], release + [Kmalloc(n, true)])
  }

  /** IOCTL_WRITE_MEM: copy_from_user of `buffer_size` bytes from the user region into
      the buffer. A length above INT_MAX is refused before any memory is touched; a
      copy that faults part way has the uncopied tail zeroed. */
  function Write(s: Driver, src: UserRegion): (o: Outcome)
    ensures o.next.size == s.size
    ensures o.toUser == [] && o.heap == []
    ensures o.next.buf.Some? <==> s.buf.Some?
    ensures s.size == 0 ==> o.next == s && o.ret == Returns(0)
    ensures s.size > INT_MAX ==> o.next == s && o.ret == Returns(-EFAULT)
    ensures 0 < s.size <= INT_MAX && s.buf.None? ==> o.ret == NullDeref && o.next == s
    ensures s.buf.Some? && s.size <= INT_MAX && s.size <= |src.bytes| ==>
              o.ret == Returns(0) && o.next.buf == Some(src.bytes[..s.size])
    ensures s.buf.Some? && |src.bytes| < s.size <= INT_MAX ==>
              o.ret == Returns(-EFAULT) && o.next.buf.value[..|src.bytes|] == src.bytes
  {
    if s.size == 0 then
      Outcome(s, Returns(0), [], [])
    else if s.size > INT_MAX then
      Outcome(s, Returns(-EFAULT), [], [])
    else match s.buf
      case None =>
        Outcome(s, NullDeref, [], [])
      case Some(_) =>
        if s.size <= |src.bytes| then
          Outcome(State(Some(src.bytes[..s.size]), s.size), Returns(0), [], [])
        else
          var padded := src.bytes + Zeros(s.size - |src.bytes|);
          assert padded[..|src.bytes|] == src.bytes;
          Outcome(State(Some(padded), s.size), Returns(-EFAULT), [], [])
  }

  /** IOCTL_READ_MEM: copy_to_user of `buffer_size` bytes from the buffer to the user
      region. A length above INT_MAX is refused before any memory is touched; a copy
      that faults part way delivers the bytes it reached. */
  function Read(s: Driver, dst: UserRegion): (o: Outcome)
    ensures o.next == s && o.heap == []
    ensures s.size == 0 ==> o.ret == Returns(0) && o.toUser == []
    ensures s.size > INT_MAX ==> o.ret == Returns(-EFAULT) && o.toUser == []
    ensures 0 < s.size <= INT_MAX && s.buf.None? ==> o.ret == NullDeref && o.toUser == []
    ensures s.buf.Some? && s.size <= INT_MAX && s.size <= |dst.bytes| ==>
              o.ret == Returns(0) && o.toUser == s.buf.value
    ensures s.buf.Some? && |dst.bytes| < s.size <= INT_MAX ==>
              o.ret == Returns(-EFAULT) && o.toUser == s.buf.value[..|dst.bytes|]
  {
    if s.size == 0 then
      Outcome(s, Returns(0), [], [])
    else if s.size > INT_MAX then
      Outcome(s, Returns(-EFAULT), [], [])
    else match s.buf
      case None =>
        Outcome(s, NullDeref, [], [])
      case Some(b) =>
        if s.size <= |dst.bytes| then Outcome(s, Returns(0), b, [])
        else Outcome(s, Returns(-EFAULT), b[..|dst.bytes|], [])
  }

  /** device_ioctl: dispatch on the command code; unknown codes are rejected with
      -EINVAL before anything is touched. */
  function Step(s: Driver, c: Command, k: KmallocAnswer): (o: Outcome)
    ensures !c.AllocMem? ==> o.next.size == s.size && o.heap == []
    ensures c.Other? ==> o.next == s && o.ret == Returns(-EINVAL) && o.toUser == []
    ensures o.ret.Returns? ==> o.ret.value in {0, -ENOMEM, -EFAULT, -EINVAL}
    ensures o.ret == Returns(-ENOMEM) ==> c.AllocMem? && o.next.buf.None?
    ensures c.AllocMem? ==> |o.heap| == Held(s) + 1 && o.heap[Held(s)] == Kmalloc(c.n, k.Grants?)
    ensures Ledger(Held(s), o.heap, Held(o.next))
  {
    match c
    case AllocMem(n) => Allocate(s, n, k)
    case WriteMem(src) => Write(s, src)
    case ReadMem(dst) => Read(s, dst)
    case Other => Outcome(s, Returns(-EINVAL), [], [])
  }

  /** memdev_exit: kfree the held block, if any. The allocator calls it makes leave
      nothing held, and it makes no call beyond that one kfree. */
  function Shutdown(s: Driver): (ops: seq<HeapOp>)
    ensures Ledger(Held(s), ops, 0)
    ensures |ops| == Held(s)
  {
    if s.buf.Some? then [Kfree] else []
  }

  /** One ioctl issued by user space together with how kmalloc answers, should the
      command allocate. */
  datatype Call = Call(cmd: Command, kmalloc: KmallocAnswer)

  /** The effect of a sequence of ioctls: the final globals, one result per call, and
      every allocator call made along the way. */
  datatype Trace = Trace(final: Driver, rets: seq<Ret>, heap: seq<HeapOp>)

  /** Issue `calls` one after another, starting from `s`. A call that copies through
      NULL leaves the globals as they were and the next call proceeds. */
  function Run(s: Driver, calls: seq<Call>): (t: Trace)
    ensures |t.rets| == |calls|
    ensures Ledger(Held(s), t.heap, Held(t.final))
    decreases |calls|
  {
    if |calls| == 0 then Trace(s, [], [])
    else
      var o := Step(s, calls[0].cmd, calls[0].kmalloc);
      var t := Run(o.next, calls[1..]);
      LedgerAppend(Held(s), o.heap, Held(o.next), t.heap, Held(t.final));
      Trace(t.final, [o.ret] + t.rets, o.heap + t.heap)
  }
}
