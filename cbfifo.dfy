/** The circular byte FIFO of cbfifo.c: a fixed-size byte buffer with a write
    index `head`, a read index `tail` and a flag `fullStatus` that tells a full
    buffer from an empty one when the two indices meet. The single global
    `fifo` of the C file is an object here. */
module CbFifo {

  newtype byte = b: int | 0 <= b < 256

  /** The index after `i` in a ring of `n` slots: the source's `(i + 1) % size`. */
  function Next(i: nat, n: nat): (j: nat)
    requires i < n
    ensures j < n
    ensures j == if i + 1 == n then 0 else i + 1
  {
    (i + 1) % n
  }

  /** The index relations every reachable state keeps: both indices inside the
      ring (both 0 when the ring has no slot), and a full flag only where the
      indices meet. */
  ghost predicate WellFormed(head: nat, tail: nat, size: nat, full: bool)
  {
    (if size == 0 then head == 0 && tail == 0 && !full else head < size && tail < size) &&
    (full ==> head == tail)
  }

  /** The number of occupied slots, by the wraparound formula of `cbfifo_length`. */
  function Occupied(head: nat, tail: nat, size: nat, full: bool): (n: nat)
    requires WellFormed(head, tail, size, full)
    ensures n <= size
    ensures full ==> n == size
    ensures n == 0 <==> !full && head == tail
    ensures size > 0 && n == size ==> full
  {
    if full then size
    else if head >= tail then head - tail
    else size + head - tail
  }

  /** The slot that holds the `i`-th oldest byte when the oldest one is at `t`:
      `(t + i) mod n`, written without the division. */
  function Slot(t: nat, i: nat, n: nat): (k: nat)
    requires t < n && i < n
    ensures k < n
  {
    if t + i < n then t + i else t + i - n
  }

  /** The newest `n` elements of `s` (all of `s` when it is no longer than `n`):
      what a ring of `n` slots holds once `s` has been written into it with
      overwrite of the oldest. */
  function KeepNewest(n: nat, s: seq<byte>): (r: seq<byte>)
    ensures |r| == if |s| <= n then |s| else n
  {
    if |s| <= n then s else s[|s| - n..]
  }

  /** Writing one more byte into a ring that holds `KeepNewest(n, s)` either
      appends it or, once the ring is full, drops the oldest byte. The steps
      are spelled out to keep the proof quick; Dafny also finds them alone. */
  lemma KeepNewestPush(n: nat, s: seq<byte>, b: byte)
    requires n > 0
    ensures KeepNewest(n, s + [b]) ==
            if |KeepNewest(n, s)| < n then KeepNewest(n, s) + [b]
            else KeepNewest(n, s)[1..] + [b]
  {
    if |s| >= n {
      calc {
        KeepNewest(n, s + [b]);
        (s + [b])[|s| + 1 - n..];
        { assert (s + [b])[|s| + 1 - n..] == s[|s| + 1 - n..] + [b]; }
        s[|s| + 1 - n..] + [b];
        { assert s[|s| + 1 - n..] == s[|s| - n..][1..]; }
        KeepNewest(n, s)[1..] + [b];
      }
    }
  }

  /** One more element of `d` taken into a prefix written after `a`. */
  lemma PrefixStep(a: seq<byte>, d: seq<byte>, i: nat)
    requires i < |d|
    ensures a + d[..i + 1] == (a + d[..i]) + [d[i]]
  {
    assert d[..i + 1] == d[..i] + [d[i]];
  }

  /** Moving the first element of `c` to the end of `a` keeps `a + c`. */
  lemma MoveFirst(a: seq<byte>, c: seq<byte>)
    requires c != []
    ensures a + c == (a + [c[0]]) + c[1..]
  {
    assert c == [c[0]] + c[1..];
  }

  /** Advancing the read index moves every window position one slot along. */
  lemma SlotAfterRetreat(t: nat, i: nat, n: nat)
    requires t < n && i + 1 < n
    ensures Slot(Next(t, n), i, n) == Slot(t, i + 1, n)
  {
  }

  /** In a ring that is not full, the write index lies just past the occupied
      window, so writing there leaves every occupied slot alone. */
  lemma SlotsBelowHead(head: nat, tail: nat, size: nat)
    requires WellFormed(head, tail, size, false) && size > 0
    ensures Slot(tail, Occupied(head, tail, size, false), size) == head
    ensures forall i :: 0 <= i < Occupied(head, tail, size, false) ==> Slot(tail, i, size) != head
  {
  }

  /** Storing `b` at the write index of a ring whose buffer `B` holds `C`
      from `t` onwards, then advancing as `update_ptr_status` does, leaves a
      buffer holding `C` with `b` appended, less its oldest byte when the
      ring was full. The case split names the slot lemma each case uses, to
      keep the proof quick; Dafny also finds it alone. */
  lemma StoreKeepsWindow(B: seq<byte>, C: seq<byte>, h: nat, t: nat, n: nat, full: bool, b: byte)
    requires n > 0 && |B| == n && WellFormed(h, t, n, full) && |C| == Occupied(h, t, n, full)
    requires forall i :: 0 <= i < |C| ==> C[i] == B[Slot(t, i, n)]
    ensures var t' := if full then Next(t, n) else t;
            var C' := if full then C[1..] + [b] else C + [b];
            forall i :: 0 <= i < |C'| ==> C'[i] == B[h := b][Slot(t', i, n)]
  {
    var t' := if full then Next(t, n) else t;
    var C' := if full then C[1..] + [b] else C + [b];
    if full {
      forall i | 0 <= i < |C'|
        ensures C'[i] == B[h := b][Slot(t', i, n)]
      {
        if i + 1 < n {
          SlotAfterRetreat(t, i, n);
        }
      }
    } else {
      SlotsBelowHead(h, t, n);
    }
  }

  class Fifo {
    var buff: array<byte>
    var head: nat
    var tail: nat
    var size: nat
    var fullStatus: bool
    /** Written only by `UpdatePtrStatus`, as in the source; stale after a dequeue or a reset. */
    var storedBytes: nat

    /** The bytes on the FIFO, oldest first. */
    ghost var Contents: seq<byte>

    /** The buffer matches the size and the indices are well formed. */
    ghost predicate Shape()
      reads this
    {
      buff.Length == size && WellFormed(head, tail, size, fullStatus)
    }

    /** The object invariant: `Contents` is the buffer read from `tail`,
        modulo `size`, for as many bytes as the indices say are occupied. */
    ghost predicate Valid()
      reads this, buff
    {
      Shape() &&
      |Contents| == Occupied(head, tail, size, fullStatus) &&
      forall i :: 0 <= i < |Contents| ==> Contents[i] == buff[Slot(tail, i, size)]
    }

    /** `cbfifo_create` followed by `cbfifo_reset`, with the buffer allocated. */
    constructor (size: nat)
      ensures Valid() && fresh(buff)
      ensures this.size == size && head == 0 && tail == 0 && !fullStatus && storedBytes == 0
      ensures Contents == []
    {
      buff := new byte[size];
      this.size := size;
      storedBytes := 0;
      head, tail, fullStatus := 0, 0, false;
      Contents := [];
    }

    /** `cbfifo_reset`: both indices back to 0 and the flag cleared; the
        buffer, the size and the stale `storedBytes` stay as they were. */
    method Reset()
      requires Valid()
      modifies this
      ensures Valid() && buff == old(buff) && size == old(size) && storedBytes == old(storedBytes)
      ensures head == 0 && tail == 0 && !fullStatus
      ensures Contents == []
    {
      head := 0;
      tail := 0;
      fullStatus := false;
      Contents := [];
    }

    /** `cbfifo_full`. */
    function Full(): (b: bool)
      reads this, buff
      requires Valid()
      ensures b <==> size > 0 && |Contents| == size
    {
      fullStatus
    }

    /** `cbfifo_empty`. */
    function Empty(): (b: bool)
      reads this, buff
      requires Valid()
      ensures b <==> Contents == []
    {
      !fullStatus && head == tail
    }

    /** `cbfifo_length`, with the operands in the intended order and the value returned. */
    function Length(): (n: nat)
      reads this, buff
      requires Valid()
      ensures n == |Contents| && n <= size
      ensures fullStatus ==> n == size
      ensures n == 0 <==> !fullStatus && head == tail
    {
      Occupied(head, tail, size, fullStatus)
    }

    /** `cbfifo_capacity`. */
    function Capacity(): (c: nat)
      reads this, buff
      requires Valid()
      ensures c == buff.Length && |Contents| <= c
    {
      size
    }

    /** `update_ptr_status`: advance the write index after a byte has been
        stored at `head`; a full ring also advances the read index, dropping
        its oldest byte. */
    method UpdatePtrStatus()
      requires Shape() && size > 0
      modifies this
      ensures Shape() && buff == old(buff) && size == old(size) && Contents == old(Contents)
      ensures head == Next(old(head), size)
      ensures tail == if old(fullStatus) then Next(old(tail), size) else old(tail)
      ensures fullStatus <==> head == tail
      ensures storedBytes == Occupied(head, tail, size, fullStatus)
      ensures Occupied(head, tail, size, fullStatus) ==
              if old(fullStatus) then size
              else Occupied(old(head), old(tail), size, old(fullStatus)) + 1
    {
      if fullStatus {
        tail := Next(tail, size);
      }
      head := Next(head, size);
      fullStatus := head == tail;
      storedBytes := Occupied(head, tail, size, fullStatus);
    }

    /** `retreat_pointer`: advance the read index past the oldest byte. */
    method RetreatPointer()
      requires Shape() && size > 0
      modifies this
      ensures Shape() && buff == old(buff) && size == old(size) && Contents == old(Contents)
      ensures head == old(head) && storedBytes == old(storedBytes)
      ensures !fullStatus && tail == Next(old(tail), size)
      ensures Occupied(old(head), old(tail), size, old(fullStatus)) > 0 ==>
              Occupied(head, tail, size, fullStatus) ==
              Occupied(old(head), old(tail), size, old(fullStatus)) - 1
    {
      fullStatus := false;
      tail := Next(tail, size);
    }

    /** One round of the byte-copy loop of `cb_handle_overflow`: store `b`
        at `head`, then `UpdatePtrStatus`. A full ring loses its oldest byte. */
    method StoreByte(b: byte)
      requires Valid() && size > 0
      modifies this, buff
      ensures Valid() && buff == old(buff) && size == old(size)
      ensures Contents == if old(fullStatus) then old(Contents)[1..] + [b] else old(Contents) + [b]
      ensures storedBytes == |Contents|
    {
      ghost var wasFull, B := fullStatus, buff[..];
      StoreKeepsWindow(B, Contents, head, tail, size, fullStatus, b);
      buff[head] := b;
      assert buff[..] == B[old(head) := b];
      UpdatePtrStatus();
      Contents := if wasFull then Contents[1..] + [b] else Contents + [b];
    }

    /** `cb_handle_overflow`, in its intended form: unless the ring is already
        full, store the `|data|` bytes one at a time, each followed by
        `UpdatePtrStatus`. Once the ring fills up mid-way, later bytes
        overwrite the oldest ones. The result is 0 when a byte was stored,
        -1 otherwise. */
    method HandleOverflow(data: seq<byte>) returns (r: int)
      requires Valid()
      requires size > 0 || |data| == 0
      modifies this, buff
      ensures Valid() && buff == old(buff) && size == old(size)
      ensures old(fullStatus) ==> r == -1 && unchanged(this) && unchanged(buff)
      ensures !old(fullStatus) ==> r == (if |data| > 0 then 0 else -1)
      ensures !old(fullStatus) ==> Contents == KeepNewest(size, old(Contents) + data)
      ensures !old(fullStatus) && |data| > 0 ==> storedBytes == |Contents|
      ensures |data| == 0 ==> storedBytes == old(storedBytes)
    {
      r := -1;
      if !fullStatus {
        ghost var written := old(Contents);
        for i := 0 to |data|
          invariant Valid() && buff == old(buff) && size == old(size)
          invariant written == old(Contents) + data[..i]
          invariant Contents == KeepNewest(size, written)
          invariant r == if i > 0 then 0 else -1
          invariant storedBytes == if i > 0 then |Contents| else old(storedBytes)
        {
          KeepNewestPush(size, written, data[i]);
          PrefixStep(old(Contents), data, i);
          StoreByte(data[i]);
          written := written + [data[i]];
          r := 0;
        }
      }
      assert data[..|data|] == data;
    }

    /** `cbfifo_enqueue`: all or nothing. When the bytes do not fit, the
        result is -1 and nothing changes; otherwise every byte is appended
        and the result is the growth of the length, `|data|`. */
    method Enqueue(data: seq<byte>) returns (r: int)
      requires Valid()
      modifies this, buff
      ensures Valid() && buff == old(buff) && size == old(size)
      ensures r == -1 <==> old(|Contents|) + |data| > size
      ensures r == -1 ==> unchanged(this) && unchanged(buff)
      ensures r != -1 ==> r == |data| && Contents == old(Contents) + data
      ensures r != -1 && |data| > 0 ==> storedBytes == |Contents|
    {
      var len := Length();
      if len + |data| > size {
        return -1;
      }
      var _ := HandleOverflow(data);
      r := Length() - len;
    }

    /** One round of the copy loop of `cbfifo_dequeue` on a non-empty FIFO:
        read the byte at `tail`, then `RetreatPointer`. */
    method TakeByte() returns (b: byte)
      requires Valid() && Contents != []
      modifies this
      ensures Valid() && buff == old(buff) && size == old(size)
      ensures head == old(head) && storedBytes == old(storedBytes)
      ensures b == old(Contents)[0] && Contents == old(Contents)[1..]
    {
      b := buff[tail];
      ghost var t0 := tail;
      RetreatPointer();
      Contents := Contents[1..];
      forall k | 0 <= k < |Contents|
        ensures Contents[k] == buff[Slot(tail, k, size)]
      {
        SlotAfterRetreat(t0, k, size);
      }
    }

    /** `cbfifo_dequeue`: copy up to `nbyte` bytes, oldest first, into `dst`,
        skipping the remaining rounds once the FIFO is empty; the result is
        the number of bytes copied. */
    method Dequeue(dst: array<byte>, nbyte: nat) returns (count: nat)
      requires Valid()
      requires nbyte <= dst.Length && dst != buff
      modifies this, dst
      ensures Valid() && buff == old(buff) && size == old(size)
      ensures head == old(head) && storedBytes == old(storedBytes)
      ensures count == if nbyte < old(|Contents|) then nbyte else old(|Contents|)
      ensures dst[..count] == old(Contents)[..count]
      ensures dst[count..] == old(dst[count..])
      ensures Contents == old(Contents)[count..]
    {
      count := 0;
      ghost var taken: seq<byte> := [];
      for i := 0 to nbyte
        invariant Valid() && buff == old(buff) && size == old(size)
        invariant head == old(head) && storedBytes == old(storedBytes)
        invariant count == |taken| == if i < old(|Contents|) then i else old(|Contents|)
        invariant old(Contents) == taken + Contents
        invariant forall k :: 0 <= k < count ==> dst[k] == taken[k]
        invariant forall k :: count <= k < dst.Length ==> dst[k] == old(dst[k])
      {
        if !Empty() {
          MoveFirst(taken, Contents);
          var b := TakeByte();
          dst[count] := b;
          taken := taken + [b];
          count := count + 1;
        }
      }
      assert old(Contents)[..count] == taken;
    }
  }
}
