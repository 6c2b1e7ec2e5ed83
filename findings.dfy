/** The three defects of the C source that can be stated as a program, each
    written out as it stands in the source next to the corrected operation the
    rest of the model uses (`CbFifo.Fifo.Dequeue`, `CbFifo.Fifo.HandleOverflow`
    with `CbFifo.Fifo.Enqueue`, `LlFifo.Fifo.Enqueue`). Their contracts show
    the discrepancy. */
module Findings {
  import CbFifo
  import LlFifo

  /** `cbfifo_dequeue` as written: the count starts from the length of the
      FIFO instead of 0, so the result exceeds the number of bytes copied by
      the old length. */
  method DequeueAsWritten(f: CbFifo.Fifo, dst: array<CbFifo.byte>, nbyte: nat) returns (len: nat)
    requires f.Valid()
    requires nbyte <= dst.Length && dst != f.buff
    modifies f, dst
    ensures f.Valid() && f.buff == old(f.buff) && f.size == old(f.size)
    ensures var copied := if nbyte < old(|f.Contents|) then nbyte else old(|f.Contents|);
            f.Contents == old(f.Contents)[copied..] &&
            dst[..copied] == old(f.Contents)[..copied] &&
            len == old(|f.Contents|) + copied
  {
    len := f.Length();
    var buffer := 0;
    for i := 0 to nbyte
      invariant f.Valid() && f.buff == old(f.buff) && f.size == old(f.size)
      invariant buffer == if i < old(|f.Contents|) then i else old(|f.Contents|)
      invariant f.Contents == old(f.Contents)[buffer..]
      invariant dst[..buffer] == old(f.Contents)[..buffer]
      invariant len == old(|f.Contents|) + buffer
    {
      if !f.Empty() {
        var b := f.TakeByte();
        dst[buffer] := b;
        buffer := buffer + 1;
        len := len + 1;
      }
    }
  }

  /** `cb_handle_overflow` as written: unless the ring is full, it stores the
      bytes up to the first 0 byte, all at the same slot `head`, and never
      advances the indices. Nothing is ever added to the FIFO. */
  method HandleOverflowAsWritten(f: CbFifo.Fifo, data: seq<CbFifo.byte>) returns (r: int)
    requires f.Valid() && f.size > 0
    modifies f.buff
    ensures f.Valid() && f.Contents == old(f.Contents)
    ensures r == if !f.fullStatus && |data| > 0 && data[0] != 0 then 0 else -1
  {
    r := -1;
    if !f.Full() {
      CbFifo.SlotsBelowHead(f.head, f.tail, f.size);
      var i := 0;
      while i < |data| && data[i] != 0
        invariant 0 <= i <= |data|
        invariant f.Valid() && f.Contents == old(f.Contents)
        invariant r == if i > 0 then 0 else -1
        invariant i > 0 ==> data[0] != 0
      {
        f.buff[f.head] := data[i];
        r := 0;
        i := i + 1;
      }
    }
  }

  /** `cbfifo_enqueue` over `HandleOverflowAsWritten`: a request that fits
      returns 0, not the number of bytes, and the FIFO stays as it was. A ring
      with no slot only gets this far with no data, and then stores nothing. */
  method EnqueueAsWritten(f: CbFifo.Fifo, data: seq<CbFifo.byte>) returns (r: int)
    requires f.Valid()
    modifies f.buff
    ensures f.Valid() && f.Contents == old(f.Contents)
    ensures r == if old(|f.Contents|) + |data| > f.size then -1 else 0
  {
    var len := f.Length();
    if len + |data| > f.size {
      return -1;
    }
    if f.size > 0 {
      var _ := HandleOverflowAsWritten(f, data);
    }
    r := f.Length() - len;
  }

  /** `llfifo_enqueue` as written: without the `else`, the first node of an
      empty FIFO is linked to itself. */
  method LlEnqueueAsWritten<T>(fifo: LlFifo.Fifo<T>, element: LlFifo.Option<T>) returns (r: int)
    requires fifo.Valid()
    modifies fifo, fifo.Nodes
    ensures element.None? ==> r == -1
    ensures element.Some? && old(fifo.rear) == null ==>
            r == 1 && fifo.front != null && fifo.front == fifo.rear && fifo.rear.next == fifo.rear
  {
    if element.Some? {
      var temp := new LlFifo.Node(element.value);
      if fifo.rear == null {
        fifo.front, fifo.rear := temp, temp;
      }
      fifo.rear.next := temp;
      fifo.rear := temp;
      fifo.storedNodes := fifo.storedNodes + 1;
      r := fifo.storedNodes;
    } else {
      r := -1;
    }
  }
}
