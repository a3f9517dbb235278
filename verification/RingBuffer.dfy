/** The ring buffer, a bounded queue of bytes in an array, and pipes built on it. */
module RingBuffer {
  import opened Bytes
  import opened Common

  /** The last `n` elements of `s`, or all of it. */
  function Last(s: seq<byte>, n: nat): (r: seq<byte>)
    ensures |r| == if |s| <= n then |s| else n
  {
    if |s| <= n then s else s[|s| - n..]
  }

  /** A bounded queue after one more byte: a full one drops its oldest byte. */
  function Pushed(s: seq<byte>, n: nat, x: byte): seq<byte>
    requires n > 0
  {
    if |s| == n then s[1..] + [x] else s + [x]
  }

  /** The queue after each byte of the data in turn. */
  function PushedAll(s: seq<byte>, n: nat, data: seq<byte>): seq<byte>
    requires n > 0
  {
    if data == [] then s else Pushed(PushedAll(s, n, data[..|data| - 1]), n, data[|data| - 1])
  }

  /** Pushing byte by byte keeps the last `n` bytes of all. */
  lemma {:induction false} PushedAllLast(s: seq<byte>, n: nat, data: seq<byte>)
    requires n > 0 && |s| <= n
    ensures PushedAll(s, n, data) == Last(s + data, n)
    decreases |data|
  {
    if data == [] {
      assert s + data == s;
    } else {
      var front, x := data[..|data| - 1], data[|data| - 1];
      PushedAllLast(s, n, front);
      assert s + data == s + front + [x];
      LastPush(s + front, n, x);
    }
  }

  lemma LastPush(s: seq<byte>, n: nat, x: byte)
    requires n > 0
    ensures Last(s + [x], n) == Pushed(Last(s, n), n, x)
  {}

  /** Index of slot `i` behind `read`. */
  function Slot(read: nat, i: nat, size: nat): nat
    requires read < size && i <= size
  {
    if read + i < size then read + i else read + i - size
  }

  function Used(read: nat, write: nat, full: bool, size: nat): (n: nat)
    requires read < size && write < size && (full ==> read == write)
    ensures n <= size && (n == size <==> full) && Slot(read, n, size) == write
  {
    if full then size else if write >= read then write - read else size + write - read
  }

  /** The queued bytes, oldest first. */
  ghost function Queued(b: seq<byte>, read: nat, n: nat): (r: seq<byte>)
    requires read < |b| && n <= |b|
    ensures |r| == n && forall i :: 0 <= i < n ==> r[i] == b[Slot(read, i, |b|)]
  {
    seq(n, i requires 0 <= i < n => b[Slot(read, i, |b|)])
  }

  /** Index behind `i`. */
  function Next(i: nat, size: nat): nat
    requires i < size
  {
    if i + 1 == size then 0 else i + 1
  }

  /** The index `n` steps behind `i`. */
  function Turned(i: nat, n: nat, size: nat): (r: nat)
    requires i < size
    ensures r < size
  {
    if n == 0 then i else Next(Turned(i, n - 1, size), size)
  }

  lemma {:induction false} TurnedSlot(i: nat, n: nat, size: nat)
    requires i < size && n <= size
    ensures Turned(i, n, size) == Slot(i, n, size)
  {
    if n > 0 {
      TurnedSlot(i, n - 1, size);
    }
  }

  /** The `n` bytes from index `i` on, round and round. */
  function Around(b: seq<byte>, i: nat, n: nat): (r: seq<byte>)
    requires i < |b|
    ensures |r| == n
  {
    if n == 0 then [] else Around(b, i, n - 1) + [b[Turned(i, n - 1, |b|)]]
  }

  lemma {:induction false} AroundQueued(b: seq<byte>, read: nat, len: nat, n: nat)
    requires read < |b| && n <= len <= |b|
    ensures Around(b, read, n) == Queued(b, read, len)[..n]
  {
    if n > 0 {
      AroundQueued(b, read, len, n - 1);
      TurnedSlot(read, n - 1, |b|);
    }
  }

  /** After `n` of `len` queued bytes have been taken. */
  lemma TakenFront(b: seq<byte>, read: nat, len: nat, n: nat)
    requires read < |b| && n <= len <= |b|
    ensures Around(b, read, n) == Queued(b, read, len)[..n]
    ensures Queued(b, Turned(read, n, |b|), len - n) == Queued(b, read, len)[n..]
  {
    AroundQueued(b, read, len, n);
    TurnedSlot(read, n, |b|);
    QueuedBehind(b, read, len, n, Slot(read, n, |b|));
  }

  lemma QueuedBehind(b: seq<byte>, read: nat, len: nat, n: nat, read': nat)
    requires read < |b| && n <= len <= |b| && read' == if read + n < |b| then read + n else read + n - |b|
    ensures read' < |b| && Queued(b, read', len - n) == Queued(b, read, len)[n..]
  {
    forall i | 0 <= i < len - n ensures Slot(read', i, |b|) == Slot(read, n + i, |b|) {}
  }

  /** How many bytes a buffer holding `len` seems to hold after `n` are taken. */
  function Left(len: nat, n: nat, size: nat): (r: nat)
    requires len <= size && size > 0
    ensures r <= size
  {
    if n == 0 then len else var l := Left(len, n - 1, size); if l == 0 then size - 1 else l - 1
  }

  /** That is what was left exactly when there were enough. */
  lemma {:induction false} LeftExactly(len: nat, n: nat, size: nat)
    requires len <= size && size > 0
    ensures n <= len <==> Left(len, n, size) == len - n
  {
    if n > 0 {
      LeftExactly(len, n - 1, size);
    }
  }

  lemma PutQueued(b: seq<byte>, read: nat, n: nat, x: byte)
    requires read < |b| && n < |b|
    ensures Queued(b[Slot(read, n, |b|) := x], read, n + 1) == Queued(b, read, n) + [x]
  {}

  /** In a full buffer the byte overwrites the oldest one. */
  lemma PutFull(b: seq<byte>, read: nat, x: byte)
    requires read < |b|
    ensures Queued(b[read := x], Next(read, |b|), |b|) == Queued(b, read, |b|)[1..] + [x]
  {
    var q, r := Queued(b, read, |b|), Queued(b[read := x], Next(read, |b|), |b|);
    assert forall i :: 0 <= i < |b| - 1 ==> Slot(Next(read, |b|), i, |b|) == Slot(read, i + 1, |b|);
    assert forall i :: 0 <= i < |b| - 1 ==> r[i] == q[i + 1];
  }

  /** One byte written at `write`, the heads moved on. */
  lemma PutStep(b: seq<byte>, read: nat, write: nat, full: bool, x: byte, read': nat, write': nat)
    requires read < |b| && write < |b| && (full ==> read == write)
    requires read' == (if full then Next(read, |b|) else read) && write' == Next(write, |b|)
    ensures Queued(b[write := x], read', Used(read', write', write' == read', |b|)) ==
      Pushed(Queued(b, read, Used(read, write, full, |b|)), |b|, x)
  {
    if full {
      PutFull(b, read, x);
    } else {
      PutQueued(b, read, Used(read, write, full, |b|), x);
    }
  }

  class Ring {
    const buffer: array<byte>
    var read: nat
    var write: nat
    var full: bool

    ghost predicate Valid()
      reads this
    {
      read < buffer.Length && write < buffer.Length && (full ==> read == write)
    }

    ghost function Count(): nat
      reads this
      requires Valid()
    {
      Used(read, write, full, buffer.Length)
    }

    ghost function Contents(): seq<byte>
      reads this, buffer
      requires Valid()
    {
      Queued(buffer[..], read, Used(read, write, full, buffer.Length))
    }

    constructor (size: nat)
      requires size > 0
      ensures Valid() && fresh(buffer) && buffer.Length == size && Contents() == []
    {
      buffer := new byte[size];
      read, write, full := 0, 0, false;
    }

    /** `ringbuf_size`. */
    method Size() returns (n: nat)
      requires Valid()
      ensures n == |Contents()|
    {
      if !full {
        if write >= read { return write - read; }
        return buffer.Length + write - read;
      }
      return buffer.Length;
    }

    /** One byte at the write head; a full buffer drops its oldest byte. */
    method Put(x: byte)
      requires Valid()
      modifies this, buffer
      ensures Valid()
      ensures Contents() == Pushed(old(Contents()), buffer.Length, x)
    {
      ghost var b := buffer[..];
      PutStep(b, read, write, full, x, if full then Next(read, |b|) else read, Next(write, |b|));
      buffer[write] := x;
      assert buffer[..] == b[write := x];
      if full {
        read := Next(read, buffer.Length);
      }
      write := Next(write, buffer.Length);
      full := write == read;
    }

    /** One byte at the read head. The buffer must hold one: taking from an empty buffer makes it appear all but
        full. */
    method Take() returns (x: byte)
      requires Valid()
      modifies this
      ensures Valid() && x == buffer[old(read)] && read == Next(old(read), buffer.Length)
      ensures Count() == Left(old(Count()), 1, buffer.Length)
      ensures if old(Contents()) != [] then x == old(Contents())[0] && Contents() == old(Contents())[1..]
        else |Contents()| == buffer.Length - 1
    {
      ghost var s := Contents();
      x := buffer[read];
      read := Next(read, buffer.Length);
      full := false;
      assert s != [] ==> forall i :: 0 <= i < |Contents()| ==> Contents()[i] == s[i + 1];
    }

    /** `ringbuf_write`: of the old contents and the data, the last bytes that fit remain. */
    method Write(data: seq<byte>)
      requires Valid()
      modifies this, buffer
      ensures Valid() && Contents() == Last(old(Contents()) + data, buffer.Length)
    {
      ghost var s := Contents();
      var i := 0;
      while i < |data|
        invariant 0 <= i <= |data| && Valid()
        invariant Contents() == PushedAll(s, buffer.Length, data[..i])
      {
        assert data[..i + 1][..i] == data[..i];
        Put(data[i]);
        i := i + 1;
      }
      assert data[..i] == data;
      PushedAllLast(s, buffer.Length, data);
    }

    /** `ringbuf_read`: the oldest bytes if there are enough; behind them the stale ones go on, round and round. */
    method Read(n: nat) returns (data: seq<byte>)
      requires Valid()
      modifies this
      ensures Valid()
      ensures n <= |old(Contents())| ==> data == old(Contents())[..n] && Contents() == old(Contents())[n..]
      ensures data == Around(buffer[..], old(read), n)
      ensures |Contents()| == Left(|old(Contents())|, n, buffer.Length)
    {
      ghost var s, r := Contents(), read;
      data := TakeEach(n);
      LeftExactly(|s|, n, buffer.Length);
      if n <= |s| {
        TakenFront(buffer[..], r, |s|, n);
      }
    }

    /** The loop. */
    method TakeEach(n: nat) returns (data: seq<byte>)
      requires Valid()
      modifies this
      ensures Valid() && read == Turned(old(read), n, buffer.Length)
      ensures data == Around(buffer[..], old(read), n)
      ensures Count() == Left(old(Count()), n, buffer.Length)
    {
      data := [];
      var i := 0;
      ghost var len := Count();
      while i < n
        invariant 0 <= i <= n && Valid() && read == Turned(old(read), i, buffer.Length)
        invariant data == Around(buffer[..], old(read), i)
        invariant Count() == Left(len, i, buffer.Length)
      {
        var x := Take();
        data := data + [x];
        i := i + 1;
      }
    }
  }

  // ---------------------------------------------------------------- pipes

  /** `Again` stands for another round of yielding. */
  datatype Outcome = Again | Interrupted | Done(data: seq<byte>)

  class Pipe {
    const ring: Ring
    var closed: bool

    ghost predicate Valid()
      reads this, ring
    {
      ring.Valid()
    }

    constructor ()
      ensures Valid() && fresh(ring) && fresh(ring.buffer) && !closed && ring.buffer.Length == 4096
        && ring.Contents() == []
    {
      ring := new Ring(4096);
      closed := false;
    }

    /** One attempt of `pipe_read`. */
    method Read(size: nat) returns (o: Outcome)
      requires Valid()
      modifies ring
      ensures Valid()
      ensures P(ring.Contents(), ring.buffer.Length, closed)
        == PipeRead(old(P(ring.Contents(), ring.buffer.Length, closed)), size).0
      ensures o == PipeRead(old(P(ring.Contents(), ring.buffer.Length, closed)), size).1
    {
      var bytes := ring.Size();
      if bytes == 0 {
        return if closed then Interrupted else Again;
      }
      var data := ring.Read(if bytes < size then bytes else size);
      return Done(data);
    }

    /** One attempt of `pipe_write`; `Done` carries what was accepted. */
    method Write(data: seq<byte>) returns (o: Outcome)
      requires Valid()
      modifies ring, ring.buffer
      ensures Valid()
      ensures P(ring.Contents(), ring.buffer.Length, closed)
        == PipeWrite(old(P(ring.Contents(), ring.buffer.Length, closed)), data).0
      ensures o == PipeWrite(old(P(ring.Contents(), ring.buffer.Length, closed)), data).1
    {
      if ring.full {
        return if closed then Interrupted else Again;
      }
      var used := ring.Size();
      var empty := ring.buffer.Length - used;
      var bytes := if |data| < empty then |data| else empty;
      ring.Write(data[..bytes]);
      return Done(data[..bytes]);
    }
  }

  datatype P = P(buf: seq<byte>, cap: nat, closed: bool)

  /** What an attempt to read takes: the front of the buffer, as much as asked for. */
  function PipeRead(p: P, size: nat): (P, Outcome) {
    if p.buf == [] then (p, if p.closed then Interrupted else Again)
    else (P(p.buf[Min(|p.buf|, size)..], p.cap, p.closed), Done(p.buf[..Min(|p.buf|, size)]))
  }

  /** What an attempt to write appends: as much of the data as fits. */
  function PipeWrite(p: P, data: seq<byte>): (P, Outcome) {
    if |p.buf| >= p.cap then (p, if p.closed then Interrupted else Again)
    else (P(p.buf + data[..Min(|data|, p.cap - |p.buf|)], p.cap, p.closed), Done(data[..Min(|data|, p.cap - |p.buf|)]))
  }

  datatype Op = Read(size: nat) | Write(data: seq<byte>) | Close

  function Step(p: P, op: Op): (P, Outcome) {
    match op
    case Read(size) => PipeRead(p, size)
    case Write(data) => PipeWrite(p, data)
    case Close => (P(p.buf, p.cap, true), Again)
  }

  function Run(p: P, ops: seq<Op>): P
    decreases |ops|
  {
    if ops == [] then p else Run(Step(p, ops[0]).0, ops[1..])
  }

  /** The bytes that one attempt returns, and those it accepts. */
  function Out(p: P, op: Op): seq<byte> { if op.Read? && Step(p, op).1.Done? then Step(p, op).1.data else [] }
  function In(p: P, op: Op): seq<byte> { if op.Write? && Step(p, op).1.Done? then Step(p, op).1.data else [] }

  /** All bytes the reads of a run return. */
  function Delivered(p: P, ops: seq<Op>): seq<byte>
    decreases |ops|
  {
    if ops == [] then [] else Out(p, ops[0]) + Delivered(Step(p, ops[0]).0, ops[1..])
  }

  /** All bytes the writes of a run accept. */
  function Accepted(p: P, ops: seq<Op>): seq<byte>
    decreases |ops|
  {
    if ops == [] then [] else In(p, ops[0]) + Accepted(Step(p, ops[0]).0, ops[1..])
  }

  /** A read gives the smaller of what is asked for and what is queued.  Only on an empty pipe it gives nothing: it
      waits, or is interrupted if the pipe is closed. */
  lemma ReadExactly(p: P, size: nat)
    ensures var (q, o) := PipeRead(p, size);
      && q.cap == p.cap && q.closed == p.closed
      && (o.Done? <==> p.buf != []) && (o.Again? <==> p.buf == [] && !p.closed)
      && (o.Done? ==> o.data + q.buf == p.buf && |o.data| == if size < |p.buf| then size else |p.buf|)
      && (!o.Done? ==> q == p)
  {
    var n := Min(|p.buf|, size);
    assert p.buf == p.buf[..n] + p.buf[n..];
  }

  /** A write accepts the smaller of what is offered and what is free.  Only on a full pipe it accepts nothing: it
      waits, or is interrupted if the pipe is closed. */
  lemma WriteExactly(p: P, data: seq<byte>)
    requires |p.buf| <= p.cap
    ensures var (q, o) := PipeWrite(p, data);
      && q.cap == p.cap && q.closed == p.closed
      && (o.Done? <==> |p.buf| < p.cap) && (o.Again? <==> |p.buf| == p.cap && !p.closed)
      && (o.Done? ==> q.buf == p.buf + o.data && o.data <= data)
      && (o.Done? ==> |o.data| == if |data| < p.cap - |p.buf| then |data| else p.cap - |p.buf|)
      && (!o.Done? ==> q == p)
  {}

  lemma StepConserves(p: P, op: Op)
    requires |p.buf| <= p.cap
    ensures var q := Step(p, op).0; Out(p, op) + q.buf == p.buf + In(p, op) && |q.buf| <= q.cap == p.cap
  {}

  /** Over every interleaving of readers and writers the bytes read, followed by those still buffered, are the bytes
      that were buffered at first followed by those accepted: in order, none lost, none overwritten. */
  lemma {:induction false} PipeConserves(p: P, ops: seq<Op>)
    requires |p.buf| <= p.cap
    ensures Delivered(p, ops) + Run(p, ops).buf == p.buf + Accepted(p, ops) && |Run(p, ops).buf| <= p.cap
    decreases |ops|
  {
    if ops != [] {
      var q, rest := Step(p, ops[0]).0, ops[1..];
      StepConserves(p, ops[0]);
      PipeConserves(q, rest);
      Swapped(Out(p, ops[0]), Delivered(q, rest), Run(q, rest).buf, q.buf, p.buf, In(p, ops[0]), Accepted(q, rest));
    } else {
      assert [] + p.buf == p.buf + [];
    }
  }

  lemma Swapped(d: seq<byte>, ds: seq<byte>, buf: seq<byte>, q: seq<byte>, p: seq<byte>, a: seq<byte>, acc: seq<byte>)
    requires ds + buf == q + acc && d + q == p + a
    ensures d + ds + buf == p + (a + acc)
  {
    assert d + ds + buf == d + (ds + buf);
    assert d + (q + acc) == d + q + acc;
    assert p + a + acc == p + (a + acc);
  }
}
