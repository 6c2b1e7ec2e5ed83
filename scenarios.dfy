/** Client code that drives the two FIFOs through the call sequences of the
    repository's test drivers (test_cbfifo.c, test_llfifo.c, trial.c) and
    through a wrap-around of the ring, using only the operations' contracts. */
module Scenarios {
  import CbFifo
  import LlFifo
  import Findings

  /** A ring of 5 bytes: fill it, overflow it, drain part of it. */
  method RingFillOverflowDrain()
  {
    var f := new CbFifo.Fifo(5);
    var r := f.Enqueue([97, 98, 99, 100, 101]);
    assert r == 5 && f.Length() == 5 && f.Full();
    r := f.Enqueue([102]);
    assert r == -1 && f.Length() == 5;
    var out := new CbFifo.byte[5];
    var n := f.Dequeue(out, 3);
    assert n == 3 && out[..3] == [97, 98, 99];
    assert f.Contents == [100, 101] && f.Length() == 2;
  }

  /** Two bytes left at the end of a 5-byte ring, three more written past the
      end: all five come out in order, then nothing; a reset empties it. */
  method RingWrapAround()
  {
    var f := new CbFifo.Fifo(5);
    var r := f.Enqueue([0, 0, 0, 100, 101]);
    var out := new CbFifo.byte[5];
    var n := f.Dequeue(out, 3);
    assert f.Contents == [100, 101];
    r := f.Enqueue([120, 121, 122]);
    assert r == 3 && f.Contents == [100, 101, 120, 121, 122] && f.Full();
    n := f.Dequeue(out, 5);
    assert n == 5 && out[..5] == [100, 101, 120, 121, 122] && f.Empty();
    n := f.Dequeue(out, 5);
    assert n == 0;
    f.Reset();
    assert f.Empty() && f.Capacity() == 5;
  }

  /** The enqueue driver's four one-byte enqueues, the last of a 0 byte:
      each returns 1, the number of bytes stored, and the length grows to 4. */
  method RingOneByteAtATime()
  {
    var f := new CbFifo.Fifo(10);
    var r := f.Enqueue([116]);
    assert r == 1;
    r := f.Enqueue([115]);
    assert r == 1;
    r := f.Enqueue([97]);
    assert r == 1;
    r := f.Enqueue([0]);
    assert r == 1 && f.Length() == 4;
  }

  /** The dequeue driver: six bytes ("testi" and its terminating 0), then
      three 5-byte dequeues into an 11-byte buffer return 5, 1 and 0. */
  method RingDequeueInFives()
  {
    var f := new CbFifo.Fifo(10);
    var r := f.Enqueue([116, 101, 115, 116, 105, 0]);
    assert r == 6;
    var out := new CbFifo.byte[11];
    var n := f.Dequeue(out, 5);
    assert n == 5 && out[..5] == [116, 101, 115, 116, 105];
    n := f.Dequeue(out, 5);
    assert n == 1 && out[..1] == [0];
    n := f.Dequeue(out, 5);
    assert n == 0 && f.Empty();
  }

  /** Enqueues return the new lengths 1, 2, 3; a NULL element returns -1. */
  method ListEnqueueResults()
  {
    var fifo := LlFifo.Create<int>(6);
    var r := fifo.Enqueue(LlFifo.Some(1));
    assert r == 1;
    r := fifo.Enqueue(LlFifo.Some(2));
    assert r == 2;
    r := fifo.Enqueue(LlFifo.Some(3));
    assert r == 3;
    r := fifo.Enqueue(LlFifo.None);
    assert r == -1 && fifo.Length() == 3;
    LlFifo.Destroy(fifo);
    assert fifo.Length() == 0;
  }

  /** Six elements through a FIFO of capacity 2 come out in order; the
      capacity stays 2 although the length reaches 6. */
  method ListBeyondCapacity()
  {
    var fifo := LlFifo.Create<int>(2);
    var r := fifo.Enqueue(LlFifo.Some(10));
    r := fifo.Enqueue(LlFifo.Some(20));
    r := fifo.Enqueue(LlFifo.Some(30));
    r := fifo.Enqueue(LlFifo.Some(10));
    r := fifo.Enqueue(LlFifo.Some(20));
    r := fifo.Enqueue(LlFifo.Some(30));
    assert fifo.Contents == [10, 20, 30, 10, 20, 30];
    assert r == 6 && fifo.Capacity() == 2;
    DrainInOrder(fifo, [10, 20, 30, 10, 20, 30]);
    var e := fifo.Dequeue();
    assert e == LlFifo.None && fifo.front == null && fifo.rear == null;
    e := fifo.Dequeue();
    assert e == LlFifo.None && fifo.Length() == 0;
  }

  /** Dequeuing `|xs|` times from a FIFO that holds `xs` yields `xs` in order. */
  method DrainInOrder(fifo: LlFifo.Fifo<int>, xs: seq<int>)
    requires fifo.Valid() && fifo.Contents == xs
    modifies fifo
    ensures fifo.Valid() && fifo.Contents == []
  {
    for i := 0 to |xs|
      invariant fifo.Valid() && fifo.Contents == xs[i..]
    {
      var e := fifo.Dequeue();
      assert e == LlFifo.Some(xs[i]);
    }
  }

  /** Creation refuses only a negative capacity. */
  method ListCreate()
  {
    var a := LlFifo.Create<int>(-1);
    assert a == null;
    var b := LlFifo.Create<int>(0);
    assert b != null && b.Capacity() == 0 && b.Length() == 0;
    var c := LlFifo.Create<int>(1);
    assert c != null && c.Capacity() == 1;
    LlFifo.Destroy(a);
  }

  /** The inputs that show the three defects of the source. */
  method DefectInputs()
  {
    var f := new CbFifo.Fifo(5);
    var r := f.Enqueue([97, 98, 99, 100, 101]);
    var out := new CbFifo.byte[5];
    var len := Findings.DequeueAsWritten(f, out, 5);
    assert len == 10;

    var g := new CbFifo.Fifo(4);
    r := Findings.EnqueueAsWritten(g, [97]);
    assert r == 0 && g.Length() == 0;

    var fifo := new LlFifo.Fifo<int>(6);
    r := Findings.LlEnqueueAsWritten(fifo, LlFifo.Some(1));
    assert fifo.front.next == fifo.front;
  }
}
