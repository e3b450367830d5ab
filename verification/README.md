# memdev: a Dafny model of an ioctl-driven kernel buffer

`kernel_test.c` is a Linux character device, `memdev`, that owns one kernel buffer.
The buffer lives in two globals, `kernel_buffer` and `buffer_size`. User space drives
it through `device_ioctl`, which has three commands:

- `IOCTL_ALLOC_MEM` frees the held buffer and kmallocs a new one of `arg` bytes.
- `IOCTL_WRITE_MEM` does a `copy_from_user` of `buffer_size` bytes from `arg`.
- `IOCTL_READ_MEM` does a `copy_to_user` of `buffer_size` bytes to `arg`.

Every other command code gets `-EINVAL`. When the module is unloaded, `memdev_exit`
frees the held buffer.

The model is functional. `MemDev.State(buf, size)` holds the two globals. `buf` is
`None` for a NULL pointer and otherwise the bytes of the block. `MemDev.Step` is the
pure transition for one ioctl. Its `Outcome` gives:

- the next state;
- the result, either the `long` returned or `NullDeref` for a copy through NULL;
- the bytes copied out to user space;
- the kmalloc/kfree calls made.

`MemDev.Run` folds `Step` over a sequence of calls.

The model has four modules:

- `KernelHeap`: the allocator calls, and the `Ledger` discipline a single-buffer
  owner must keep. `kfree` only frees the live block, and `kmalloc` is only called
  when nothing is held.
- `MemDev`: the driver as written, with the kernel calls abstracted as below.
- `MemDevProperties`: lemmas about the driver as written.
- `MemDevFixed`: the driver with its allocation defect corrected (see Findings).

Modelling decisions:

- **kmalloc** is an oracle, `KmallocAnswer = Fails | Grants(junk)`. `junk` supplies the
  uninitialised bytes of the granted block, because kmalloc does not zero memory.
  They may be the stale bytes of a block freed just before.
  `kmalloc(0)` returns a non-NULL zero-size pointer, so a granted `Allocate(0)` holds
  an empty block.
- **User memory** behind `arg` is a `UserRegion`. Its `bytes` are what the copy
  primitive reaches before it faults.
- **Copy length check.** `copy_from_user` and `copy_to_user` refuse a length above
  `INT_MAX` before touching either side, and the driver then returns `-EFAULT`.
  This check comes before any use of the kernel pointer, NULL or not.
- A copy of `buffer_size` bytes, at most `INT_MAX`, from a held buffer succeeds
  exactly when the region is at least that long. Otherwise `-EFAULT` comes back:
  - `copy_from_user` has already stored the reached bytes and zeroed the rest;
  - `copy_to_user` has already delivered the reached bytes.
- **Zero-length copies** never touch memory and return 0, even with a NULL buffer.
- **Widths and codes.** `unsigned long` and `size_t` are 64-bit (`ULong`).
  `ENOMEM`, `EFAULT` and `EINVAL` are 12, 14 and 22, as in the kernel's errno-base.h.
- **The invariant** is `Consistent`: a NULL pointer goes with size 0. The subset
  type `Driver` adds that a held block is exactly `size` bytes long.
  - The stronger "NULL if and only if size 0" is false in the code even on success
    paths, because of `kmalloc(0)`.
  - `Consistent` holds at load. After any sequence of calls from a consistent
    state it fails exactly when the last allocation in the sequence asked for a
    nonzero size and kmalloc refused it. Calls after that refusal that do not
    allocate leave the state inconsistent.

A safer driver would reset the size to 0 on a refused allocation and would reject
Write/Read while no buffer is held. The code does neither. The model follows the code:

- a refused allocation keeps `size = arg`;
- Write/Read with a NULL buffer and size 0 return 0;
- Write/Read with a NULL buffer and a size from 1 to `INT_MAX` copy through NULL
  (`NullDeref`); a larger size is refused with `-EFAULT`.

The corrected variant `MemDevFixed` applies only the first of these: on a refused
allocation it sets `buffer_size` to 0. It adds no new error code.

## Model

| member | source | states |
|---|---|---|
| `MemDev.Allocate` | kernel_test.c:32-41 | The size becomes the requested `n` whatever kmalloc does. If granted: returns 0 and holds the fresh `n`-byte block, `Allocate(0)` included. If refused: returns `-ENOMEM` and holds nothing. The allocator calls are exactly a kfree when a block was held, then one kmalloc of `n` bytes, and they keep the `Ledger`: the held block is freed before kmalloc is asked. |
| `MemDev.Write` | kernel_test.c:42-46 | Size never changes. With a buffer and a region covering `size` bytes: returns 0 and the buffer becomes the first `size` bytes of the region. With a shorter region: returns `-EFAULT` and the buffer starts with the bytes reached. Size 0 is a no-op returning 0. A size above `INT_MAX` is refused with `-EFAULT`, nothing changed. A NULL buffer with a size from 1 to `INT_MAX` is a copy through NULL. |
| `MemDev.Read` | kernel_test.c:47-51 | The state is unchanged on every path. With a covering region: returns 0 and delivers the whole buffer. With a shorter region: returns `-EFAULT` and delivers the prefix reached. Size 0 delivers nothing and returns 0. A size above `INT_MAX` delivers nothing and returns `-EFAULT`. A NULL buffer with a size from 1 to `INT_MAX` is a copy through NULL. |
| `MemDev.Step` | kernel_test.c:30-56 | Only allocation changes the size or calls the allocator. An allocation makes one kmalloc of the requested size, preceded by a kfree when a block was held. An unknown command returns `-EINVAL` and leaves the state untouched. Results are only 0, `-ENOMEM`, `-EFAULT` or `-EINVAL`. `-ENOMEM` only comes from an allocation that left no buffer. Allocator calls keep the `Ledger`. |
| `MemDev.Shutdown` | kernel_test.c:91-93 | Unloading frees the held block, if any, and leaves nothing held. It makes exactly one allocator call, a kfree, when a block is held, and none otherwise. |
| `MemDev.Run` | kernel_test.c:30-56 | A sequence of ioctls yields one result per call. All its allocator calls together keep the `Ledger`: never two blocks at once, never a double free. |
| `MemDevProperties.AllocateForgetsOldBuffer` | kernel_test.c:33-37 | The driver keeps no reference to the old block: the state and result after allocation depend only on `n` and kmalloc's answer, not on what was held. |
| `MemDevProperties.ReadAfterAllocate` | kernel_test.c:36-48 | A covering read right after a granted `Allocate(n)`, `n` at most `INT_MAX`, returns 0 and delivers exactly the `n` uninitialised bytes kmalloc handed out; what it delivers depends only on `n` and kmalloc's answer. Above `INT_MAX` it returns `-EFAULT` and delivers nothing. |
| `MemDevProperties.StaleBytesCanReappear` | kernel_test.c:33-48 | Since the driver never clears a fresh block, when kmalloc hands back the block just freed a read straight after the reallocation returns 0 and delivers the old buffer's bytes. |
| `MemDevProperties.WriteThenRead` | kernel_test.c:42-51 | With a held buffer and covering regions, a write then a read both return 0 when the size is at most `INT_MAX`. The read then gives back the first `size` bytes written. Above `INT_MAX` both return `-EFAULT` and nothing changes. The size stays the same. |
| `MemDevProperties.RoundTrip` | kernel_test.c:32-51 | Allocate `n`, write a region of exactly `n` bytes, read: for `n` at most `INT_MAX` all three return 0 and the read delivers exactly those bytes; above it both copies return `-EFAULT`. The size ends as `n`. This holds from any prior state. |
| `MemDevProperties.RunSnoc` | kernel_test.c:30-56 | Issuing one more call extends a run's trace by exactly that call's outcome. |
| `MemDevProperties.StateFollowsLastAllocation` | kernel_test.c:36-39 | After any sequence of calls, the size is the one the last allocation requested. A buffer is held iff kmalloc granted that allocation. With no allocation, both are as at the start. |
| `MemDevProperties.ConsistentUnlessLastAllocationFailed` | kernel_test.c:36-39 | A run from a consistent state ends inconsistent iff its last allocation asked for a nonzero size and kmalloc refused it. |
| `MemDevProperties.StepKeepsConsistent` | kernel_test.c:30-56 | Every call except a refused allocation keeps `Consistent` and never copies through NULL. |
| `MemDevProperties.SafeWhileAllocationsSucceed` | kernel_test.c:30-56 | While kmalloc grants every allocation, a run stays consistent and no call copies through NULL. |
| `MemDevProperties.FailedAllocationLeavesDanglingSize` | kernel_test.c:36-48 | A refused `Allocate(n)` with `n > 0` returns `-ENOMEM` but leaves `State(None, n)`, which is inconsistent. For `n` at most `INT_MAX` the next write or read copies through NULL; above it both return `-EFAULT`. |
| `MemDevProperties.FailedAllocationThenWrite` | kernel_test.c:36-43 | From module load, a refused `Allocate(1 << 30)` followed by a write gives `[-ENOMEM, NullDeref]`. |
| `MemDevProperties.NoLeakAtUnload` | kernel_test.c:33-37 | Load, any calls, then unload: the allocator history keeps the `Ledger` from nothing held to nothing held. Every granted block is freed exactly once. |
| `MemDevFixed.AllocateFixed` | kernel_test.c:36-40 | Corrected allocation. It matches the original when kmalloc grants. When kmalloc refuses, it returns `-ENOMEM` and leaves the load-time state. It always ends consistent. Its allocator calls are those of the original: a kfree when a block was held, then one kmalloc of `n` bytes. |
| `MemDevFixed.StepFixed` | kernel_test.c:30-56 | Corrected dispatch. It matches the original except on allocation. From a consistent state it stays consistent and never copies through NULL. |
| `MemDevFixed.RunFixed` | kernel_test.c:30-56 | A run of the corrected driver from a consistent state stays consistent, has no `NullDeref` result and keeps the `Ledger`. |
| `MemDevFixed.NeverCopiesThroughNull` | kernel_test.c:36-48 | From load, no sequence of calls to the corrected driver copies through NULL. Unloading afterwards leaves no block held. |
| `MemDevFixed.AgreesWhileAllocationsSucceed` | kernel_test.c:36-41 | While kmalloc grants every allocation, the corrected and original drivers produce identical traces. |
| `MemDevFixed.FailedAllocationIsHarmless` | kernel_test.c:36-51 | In the corrected driver a refused allocation leaves size 0. A following write returns 0, and a following read returns 0 and delivers nothing. |

## Left out

- Module registration and its error unwinding (kernel_test.c:61-90, 94-98): `register_chrdev`, `class_create`, `device_create`, their teardown, and `printk`. These are OS interfaces; only the buffer release of `memdev_exit` is modelled.
- Numeric command codes (`_IOW`/`_IOR`, kernel_test.c:10-12): they depend on kernel headers. Commands are an abstract enumeration with an `Other` case.
- Internals of `kmalloc`, `kfree`, `copy_from_user` and `copy_to_user`. They are foreign kernel calls, modelled as an allocation oracle, a ledger of calls and a region that may fault part way.
- What happens after a copy through NULL of 1 to `INT_MAX` bytes: the driver does not define it (for example a kernel fault, a hardened-usercopy abort, or, for a read without hardened usercopy, `-EFAULT` once the fault at address 0 is fixed up). The model reports `NullDeref`, keeps the globals unchanged and lets later calls proceed.
- Concurrency: `unlocked_ioctl` takes no lock, so parallel callers race on the globals. The model is sequential.
- user_test.c is a user-space client doing file I/O and raw `ioctl` calls whose results it ignores. It has no logic of its own.
- `MemDev.Write`: the fault path states only that the buffer starts with the bytes reached. The exact zero padding is in the definition, not in the contract.
- A separate "no buffer" error for Write/Read while nothing is held is not in the code and is not modelled. `MemDevFixed` only resets the size to 0 on a refused allocation.
- The bytes of a granted block (`junk`) are arbitrary and may be the stale contents of the block just freed. The model shows this with `StaleBytesCanReappear` but does not model which memory the allocator recycles, nor kernels that clear memory on allocation or on free.
- The kmalloc oracle (`MemDev.KmallocAnswer`) may refuse any size, 0 included, and may grant any size. The real kmalloc never refuses a request of 0 bytes (it returns a non-NULL zero-size pointer) and always refuses one above `KMALLOC_MAX_SIZE`. Every lemma quantifies over all oracle answers, so no proved property depends on this.

## Findings

| source | as written | input that shows it | evidently intended | confidence | as-written member | corrected member |
|---|---|---|---|---|---|---|
| kernel_test.c:36-39 | `buffer_size = arg` is stored before `kmalloc`. When kmalloc returns NULL, the size stays `arg` next to a NULL `kernel_buffer`. | `IOCTL_ALLOC_MEM` with `arg = 1 << 30`, above `KMALLOC_MAX_SIZE`, so kmalloc always refuses it; then `IOCTL_WRITE_MEM` with any region: `copy_from_user` targets NULL for `1 << 30` bytes. | On a refused allocation set `buffer_size = 0` (the old block is already freed), so the size is 0 whenever the pointer is NULL and later copies move nothing. | high; not executed | `MemDevProperties.FailedAllocationThenWrite` | `MemDevFixed.NeverCopiesThroughNull` |
