# Two FIFO queues: a circular byte buffer and a linked list

This project models, in Dafny, the two queue components of the repository:

- **cbfifo** (`cbfifo.c`, contracts in `cbfifo.h`): a byte FIFO over a
  fixed-size buffer. `head` is the next slot to write, `tail` the next slot to
  read, and `full_status` tells a full buffer from an empty one when the two
  indices meet. Module `CbFifo`, class `CbFifo.Fifo`: the buffer is an
  `array<byte>`, the indices, flag and `storedbytes` are fields, and a ghost
  `Contents: seq<byte>` is the queue's abstract value. `Valid()` ties
  `Contents` to the buffer read from `tail` modulo `size`, for as many bytes
  as the wraparound length formula gives. The single global `fifo` of the C
  file becomes an object.
- **llfifo** (`llfifo.c`): a FIFO of opaque element references over a singly
  linked chain `front` → … → `rear`, with a count `storednodes` and a capacity
  `allocatednodes`. Module `LlFifo`, classes `LlFifo.Node<T>` and
  `LlFifo.Fifo<T>`: an element reference is a value of type `T`, and
  `Option<T>` stands for a possibly NULL `void*`. The ghost `Nodes` sequence
  is the chain's footprint and the ghost `Contents` its elements. `Valid()`
  says that the nodes are distinct and linked in order, that the last one is
  linked to nothing, and that `front`, `rear` and `storednodes` agree with
  them.

Every public state-changing operation (`Reset`, `Enqueue`, `Dequeue` of both
queues, `HandleOverflow`, `Destroy`) and the per-byte steps `StoreByte` and
`TakeByte` are methods whose postcondition gives the new abstract value in
terms of the old one (append for enqueue, removal of a prefix for dequeue)
and keeps `Valid()`. The two index helpers `CbFifo.Fifo.UpdatePtrStatus` and
`CbFifo.Fifo.RetreatPointer` keep only `Shape()`, the index relations: they
move the indices without touching `Contents`, so `Valid()` holds again only
once `StoreByte` or `TakeByte` has updated `Contents` to match. The
as-written `Findings.LlEnqueueAsWritten` does not keep `Valid()`, since its
self-loop breaks the chain invariant. Pure reads are functions whose
postconditions relate the result to `Contents`; the exception is
`LlFifo.Fifo.Capacity`, a plain field read with no postcondition, whose
value the mutating methods state they keep. The wraparound arithmetic is
in module-level functions and lemmas. These cover the index after `i`, the
occupied count by the length formula, the slot of the `i`-th oldest byte, and
the newest `n` bytes of a stream written into a ring of `n` slots.

Module `Findings` holds the source's defects written out as they stand, next
to the corrected members the rest of the model uses (see "## Findings").
Module `Scenarios` replays the call sequences of the test drivers
(`test_llfifo.c`, `trial.c`, `test_cbfifo.c`) and a wrap-around of the ring.
Its methods use only the contracts, and prove the expected results: the
enqueue results 1, 2, 3 and -1, FIFO order beyond the initial capacity, and
NULL on an empty dequeue. For `test_cbfifo.c` the model proves results that
differ from two of the driver's expected values (see the next list).

Where the code and its surrounding descriptions differ, the model follows
the code:

- There is no node free-list or pool in `llfifo.c`. Every enqueue creates a
  node (llfifo.c:20) and every dequeue releases one (llfifo.c:134).
- `allocatednodes` is set once at creation (llfifo.c:40) and no operation
  changes it, despite the "growing" comment at llfifo.c:75-76. So the length
  can exceed the capacity; `Scenarios.ListBeyondCapacity` shows six elements
  in a FIFO of capacity 2.
- `cbfifo_create` accepts a `size` of 0. Such a ring refuses every non-empty
  enqueue.
- Errors are the C sentinels: -1 from both enqueues, `None` for the NULL
  element from `llfifo_dequeue`, and a `null` reference (`Fifo?<T>`) from
  `llfifo_create`.
- `cbfifo_enqueue` is all-or-nothing, as in the code (cbfifo.c:99-101): a
  request that does not fit in the free space returns -1 and stores nothing.
  The header (cbfifo.h:35-36,43) describes a partial enqueue "up to the
  limit of the available FIFO capacity". `CbFifo.Fifo.Enqueue` follows the
  code, not that wording.
- `test_cbfifo.c` expects values that contradict cbfifo.h and cbfifo.c, and
  the model does not reproduce them. Four one-byte enqueues are expected to
  return 1, 2, 3, 4 (test_cbfifo.c:15-18), a running length. But cbfifo.h:43
  promises the number of bytes actually enqueued, and cbfifo.c:106 returns
  new length minus old, so each returns 1 (`Scenarios.RingOneByteAtATime`).
  After a 6-byte enqueue (`sizeof "testi"`, with its terminating 0), three
  5-byte dequeues are expected to return 5, 5, 0 (test_cbfifo.c:55-61). The
  model replays this driver on a fresh ring of 10 slots (the size
  cbfifo.c:151 uses), because the driver has no defined starting state: it
  never calls `cbfifo_create`, so the global `fifo` is NULL, and the
  enqueue driver that `main` runs first releases `fifo` at its end
  (test_cbfifo.c:40-41). On a fresh ring only 6 bytes are queued, and
  cbfifo.h:57-59 promises the number actually copied, so the model gives
  5, 1, 0 (`Scenarios.RingDequeueInFives`). Had the four bytes of the
  enqueue driver stayed in the ring, 10 bytes would be queued and 5, 5, 0
  would be the intended result.

Defects of the source that the model does not reproduce. The model uses the
behaviour the header comments (cbfifo.h:34-61) and the surrounding code
evidently intend:

- `cbfifo_create` never allocates the buffer (`buff = NULL`, cbfifo.c:64).
  The constructor allocates `size` bytes. Every access to the C buffer is
  undefined behaviour, so there is no as-written member.
- `cbfifo_length` subtracts `head` from `tail` instead of `tail` from `head`
  (cbfifo.c:138) and returns no value (cbfifo.c:144). The result is undefined
  behaviour, so the model has only the intended formula (`CbFifo.Occupied`).
- `cb_handle_overflow` never advances `head` and stops at a 0 byte rather
  than after `nbyte` bytes (cbfifo.c:83-86). See Findings.
- `cbfifo_dequeue` counts from the old length rather than from 0
  (cbfifo.c:115,125,129). See Findings.
- `llfifo_enqueue` lacks an `else` (llfifo.c:93-98), so the first node of an
  empty FIFO is linked to itself. See Findings.

## Model

| member | source | states |
|---|---|---|
| `CbFifo.Next` | cbfifo.c:46-48 | the advanced index stays below `size`, and is 0 exactly when the old index was the last slot, otherwise one more |
| `CbFifo.Occupied` | cbfifo.c:132-143 | the wraparound length is at most `size`; it is `size` when `full_status` is set; it is 0 exactly when the flag is clear and `head == tail`; and a length of `size` in a non-empty ring implies the flag |
| `CbFifo.KeepNewestPush` | cbfifo.c:44-49 | writing one more byte into a ring holding the newest `n` bytes of a stream appends it, or drops the oldest byte once the ring holds `n` |
| `CbFifo.SlotAfterRetreat` | cbfifo.c:57 | after the read index advances, the `i`-th oldest byte sits where the `(i+1)`-th oldest was |
| `CbFifo.SlotsBelowHead` | cbfifo.c:48 | in a ring that is not full, the write index is the slot just past the occupied window and not inside it |
| `CbFifo.StoreKeepsWindow` | cbfifo.c:44-49 | storing a byte at the write index and advancing as `update_ptr_status` does keeps the buffer, read from the new `tail`, equal to the old contents plus the byte, less the oldest byte when the ring was full |
| `CbFifo.Fifo.constructor` | cbfifo.c:60-69 | a fresh buffer of `size` bytes, `head == tail == 0`, the flag clear, `storedbytes` 0 and an empty queue |
| `CbFifo.Fifo.Reset` | cbfifo.c:33-39 | both indices 0, the flag clear and the queue empty; buffer, size and `storedbytes` kept |
| `CbFifo.Fifo.Full` | cbfifo.c:15-19 | true exactly when the ring has slots and all of them are occupied |
| `CbFifo.Fifo.Empty` | cbfifo.c:27-31 | true exactly when the queue holds no byte |
| `CbFifo.Fifo.Length` | cbfifo.c:132-144 | the number of queued bytes, at most the capacity; `size` when full; 0 exactly when the flag is clear and `head == tail` |
| `CbFifo.Fifo.Capacity` | cbfifo.c:145-147 | the buffer's length, never below the number of queued bytes |
| `CbFifo.Fifo.UpdatePtrStatus` | cbfifo.c:41-51 | `head` advances modulo `size`; `tail` advances too when the ring was full; the flag is set exactly when the indices meet; the length grows by one, or stays `size` when full; `storedbytes` is the new length |
| `CbFifo.Fifo.RetreatPointer` | cbfifo.c:53-58 | `tail` advances modulo `size` and the flag is cleared; a non-empty length drops by exactly one; `head` and `storedbytes` unchanged |
| `CbFifo.Fifo.StoreByte` | cbfifo.c:85-86 | storing a byte at `head` and advancing appends it to the queue, or replaces the oldest byte when full |
| `CbFifo.Fifo.HandleOverflow` | cbfifo.c:72-91 | on a full ring: -1 and nothing changes; otherwise the queue becomes the newest `size` bytes of old contents followed by the data, and the result is 0 for non-empty data, else -1 |
| `CbFifo.Fifo.Enqueue` | cbfifo.c:93-107 | -1 exactly when length plus `nbyte` exceeds `size`, and then nothing changes; otherwise the data is appended in order and the result, new length minus old, is `nbyte`; after a non-empty enqueue `storedbytes` is the new length |
| `CbFifo.Fifo.TakeByte` | cbfifo.c:122-123 | on a non-empty queue, returns the oldest byte and removes it |
| `CbFifo.Fifo.Dequeue` | cbfifo.c:110-130 | copies `min(nbyte, length)` bytes, the oldest first and in enqueue order, to the destination; leaves the rest of the destination unchanged; removes exactly those bytes from the queue and returns their count |
| `LlFifo.Node.constructor` | llfifo.c:18-24 | a node holding the element and linked to nothing |
| `LlFifo.Fifo.constructor` | llfifo.c:36-42 | an empty FIFO: length 0, `front == rear == NULL`, capacity as given |
| `LlFifo.Create` | llfifo.c:35-46 | NULL exactly for a negative capacity; otherwise a fresh empty FIFO with `front == rear == NULL`, length 0 and the given capacity |
| `LlFifo.Fifo.Capacity` | llfifo.c:70-72 | a plain read of `allocatednodes`, the capacity given at creation; that no operation changes it is stated by `LlFifo.Fifo.Enqueue`, `LlFifo.Fifo.Dequeue` and `LlFifo.Destroy` |
| `LlFifo.Fifo.Length` | llfifo.c:57-59 | the number of elements and of nodes in the chain; 0 exactly when `front` is NULL and exactly when `rear` is NULL |
| `LlFifo.Fifo.ChainMatchesLength` | llfifo.c:93-99 | following `next` from `front` visits exactly `storednodes` nodes holding the elements in order, the last being `rear`, and then reaches NULL |
| `LlFifo.Fifo.Enqueue` | llfifo.c:85-106 | a NULL element returns -1 and nothing changes; otherwise a fresh node with the element is appended at the rear, the result is the new length (old + 1), and the capacity is unchanged |
| `LlFifo.Fifo.Dequeue` | llfifo.c:117-136 | on an empty FIFO returns NULL and leaves length 0 with `front == rear == NULL`; otherwise returns the oldest element and removes its node from the front; the capacity is unchanged |
| `LlFifo.Destroy` | llfifo.c:149-162 | a non-NULL FIFO is dequeued until its length is 0, leaving `front == rear == NULL` and the capacity unchanged |
| `Findings.DequeueAsWritten` | cbfifo.c:110-130 | as written, the bytes are copied as intended, but the result is the old length plus the number copied |
| `Findings.HandleOverflowAsWritten` | cbfifo.c:72-91 | as written, the queue never changes; the result is 0 exactly when the ring is not full and the data starts with a non-zero byte |
| `Findings.EnqueueAsWritten` | cbfifo.c:93-107 | as written, a request that fits returns 0 and leaves the queue as it was |
| `Findings.LlEnqueueAsWritten` | llfifo.c:85-106 | as written, enqueueing into an empty FIFO yields `front == rear` with the node linked to itself |

`CbFifo.Fifo` keeps `size` and `buff` unchanged in every method's
postcondition.

## Findings

| source | as written | input that shows it | evidently intended | confidence | as-written member | corrected member |
|---|---|---|---|---|---|---|
| cbfifo.c:115,125,129 | the count returned by `cbfifo_dequeue` starts at the current length and grows with each byte copied | a 5-byte ring holding 5 bytes, `cbfifo_dequeue(buf, 5)`: returns 10, not 5 (cbfifo.h:57-59 promises a value between 0 and `nbyte`) | return the number of bytes copied | high (not executed) | `Findings.DequeueAsWritten` | `CbFifo.Fifo.Dequeue` |
| cbfifo.c:83-86 | the copy loop writes every byte to the same slot `buff[head]`, never calls `update_ptr_status`, and stops at the first 0 byte | an empty 4-byte ring, enqueue the one byte 0x61: returns 0 and the length stays 0 (test_cbfifo.c:15 expects 1) | store `nbyte` bytes, advancing after each | high (not executed) | `Findings.EnqueueAsWritten` (over `Findings.HandleOverflowAsWritten`) | `CbFifo.Fifo.Enqueue` (over `CbFifo.Fifo.HandleOverflow`) |
| llfifo.c:93-98 | with no `else`, the empty-queue branch falls through to `rear->next = temp`, so the first node points to itself | `llfifo_create(6)` then `llfifo_enqueue(fifo, &x)`: `front == rear` and `front->next == front`; if that node is dequeued before another enqueue rewrites its `next`, `front` and `rear` are left at the released node | link the first node only as `front` and `rear` | high (not executed) | `Findings.LlEnqueueAsWritten` | `LlFifo.Fifo.Enqueue` |

`Scenarios.DefectInputs` passes each of these inputs to the as-written
member and proves the wrong result. `Scenarios.RingFillOverflowDrain`,
`Scenarios.RingWrapAround`, `Scenarios.RingOneByteAtATime`,
`Scenarios.RingDequeueInFives` and
`Scenarios.ListEnqueueResults` prove the intended results from the corrected
members.

## Left out

- `main` functions, the test drivers and all `printf`/`puts` output, including the debug print loop of `cb_handle_overflow` (cbfifo.c:77-78). They are drivers and I/O. `Scenarios` restates the drivers' call sequences instead.
- `malloc` and `free`: creating a queue or node is object creation, and releasing one is dropping the reference. A failed `malloc` is unchecked in llfifo.c (llfifo.c:20, 37) and is not modelled; cbfifo.c:63 asserts it (see the `assert` line). `cbfifo_free` (cbfifo.c:21-25) is dropping the object.
- The `read` and `val` scratch fields of `llfifo_t` (llfifo.c:12, 15). `val` only carries the dequeued element to the `return`, and `read` is never read.
- The `assert` calls on NULL pointers. A Dafny reference cannot be NULL, except the `LlFifo.Destroy` argument, whose NULL case is modelled.
- The dead check `len - nbyte < 0` on `size_t` (cbfifo.c:116-117), which can never be true. So `CbFifo.Fifo.Dequeue` never returns -1.
- `CbFifo.Fifo.Enqueue` and `Findings.EnqueueAsWritten`: the C `assert(nbyte)` (cbfifo.c:96) aborts on a zero-byte request. The model follows cbfifo.h:43 ("could be 0") and returns 0 without change. On a ring of size 0, `Findings.EnqueueAsWritten` rejects any non-empty request with -1 as the C code does, and skips `Findings.HandleOverflowAsWritten` for the empty one.
- `CbFifo.Fifo.Enqueue`: `size_t` wrap-around of `len + nbyte` for a huge `nbyte` is not modelled. Integers are unbounded, so such a request is rejected. The -1 result is the integer -1, not `SIZE_MAX`.
- `CbFifo.Fifo.Dequeue` requires the destination to differ from the FIFO's own buffer. The C buffer is private to cbfifo.c, so no caller can pass it.
- `CbFifo.Fifo.Dequeue` and `Findings.DequeueAsWritten` require `nbyte <= dst.Length`. The C loop (cbfifo.c:119-126) writes only `min(nbyte, length)` bytes, so a shorter destination is enough there. The model demands room for all `nbyte` bytes; the only caller in the repository (test_cbfifo.c:69, 5 bytes into an 11-byte buffer) meets it.
- `CbFifo.Fifo.HandleOverflow` requires a ring with at least one slot whenever there is data to store. With `size` 0 the C code would divide by zero in `update_ptr_status`.
- `Findings.HandleOverflowAsWritten` stops at the end of the data when no 0 byte comes first. The C loop would read past the caller's buffer, which is undefined behaviour. It also requires `size > 0`, because the C code writes `buff[head]`.
- `Findings.DequeueAsWritten` and `Findings.EnqueueAsWritten` use the corrected `cbfifo_length` and an allocated buffer. This isolates each defect from the undefined behaviour of the others.
- What happens after `Findings.LlEnqueueAsWritten`'s self-loop: the dangling `front`/`rear` after the next dequeue, and the later write through them. The node is released memory, and Dafny has no released objects.
