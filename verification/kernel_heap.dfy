/** The driver's view of the kernel slab allocator: the calls it makes to kmalloc
    and kfree, and the discipline a sequence of such calls must keep for a driver
    that owns at most one block at a time. */
module KernelHeap {

  /** An optional value; `None` stands for a NULL kernel pointer. */
  datatype Option<+T> = None | Some(value: T)

  /** One call into the allocator: `kfree` of the held block, or `kmalloc(n)`,
      which either granted a block or returned NULL. */
  datatype HeapOp = Kfree | Kmalloc(n: nat, granted: bool)

  /** Replaying `ops` from `live` held blocks keeps the single-block discipline and
      ends with `final` held blocks: `kfree` only ever frees the block that is held,
      and `kmalloc` is only asked for once nothing is held any more. So at every
      point of the replay at most one block is live and none is freed twice. */
  predicate Ledger(live: nat, ops: seq<HeapOp>, final: nat)
    decreases |ops|
  {
    if |ops| == 0 then live == final
    else match ops[0]
      case Kfree => live == 1 && Ledger(0, ops[1..], final)
      case Kmalloc(_, granted) => live == 0 && Ledger(if granted then 1 else 0, ops[1..], final)
  }

  /** Number of blocks kmalloc granted in `ops`. */
  function Granted(ops: seq<HeapOp>): nat
    decreases |ops|
  {
    if |ops| == 0 then 0
    else (if ops[0].Kmalloc? && ops[0].granted then 1 else 0) + Granted(ops[1..])
  }

  /** Number of kfree calls in `ops`. */
  function Freed(ops: seq<HeapOp>): nat
    decreases |ops|
  {
    if |ops| == 0 then 0
    else (if ops[0].Kfree? then 1 else 0) + Freed(ops[1..])
  }

  /** Two disciplined stretches, the second starting where the first ended, make
      one disciplined stretch. */
  lemma {:induction false} LedgerAppend(a: nat, x: seq<HeapOp>, b: nat, y: seq<HeapOp>, c: nat)
    requires Ledger(a, x, b)
    requires Ledger(b, y, c)
    ensures Ledger(a, x + y, c)
    decreases |x|
  {
    if |x| == 0 {
      assert x + y == y;
    } else {
      assert (x + y)[0] == x[0];
      assert (x + y)[1..] == x[1..] + y;
      match x[0]
      case Kfree =>
        LedgerAppend(0, x[1..], b, y, c);
      case Kmalloc(_, granted) =>
        LedgerAppend(if granted then 1 else 0, x[1..], b, y, c);
    }
  }

  /** Conservation: the blocks held at the start plus those granted equal the
      blocks freed plus those still held at the end. In particular a stretch that
      starts and ends with nothing held frees exactly the blocks it acquired. */
  lemma {:induction false} LedgerBalances(a: nat, ops: seq<HeapOp>, b: nat)
    requires Ledger(a, ops, b)
    ensures a + Granted(ops) == Freed(ops) + b
    decreases |ops|
  {
    if |ops| > 0 {
      match ops[0]
      case Kfree =>
        LedgerBalances(0, ops[1..], b);
      case Kmalloc(_, granted) =>
        LedgerBalances(if granted then 1 else 0, ops[1..], b);
    }
  }
}
