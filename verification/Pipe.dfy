/** The pipe of kernel/io.c: a ring of 4096 bytes with 16-bit indices that wrap. A call that would wait returns
    Blocked; it is made again when the thread is woken. */
module Pipe {
  import opened Base

  const SIZE: nat := 4096
  const WRAP: nat := 0x1_0000

  datatype Outcome = Done(n: int) | Blocked(n: int)

  lemma RingIndex(n: nat)
    ensures n % WRAP % SIZE == n % SIZE
  {
    assert n == n / WRAP * 16 * SIZE + n % WRAP;
  }

  lemma WrapNext(n: nat)
    ensures (n % WRAP + 1) % WRAP == (n + 1) % WRAP
  {
  }

  /** The 16-bit difference of the indices is the number of bytes between them. */
  lemma WrapCount(a: nat, d: nat)
    requires d <= a <= d + SIZE
    ensures (a % WRAP - d % WRAP) % WRAP == a - d
  {
    var q, r := d / WRAP, d % WRAP;
    assert d == q * WRAP + r;
    if r + (a - d) < WRAP {
      assert a == q * WRAP + (r + (a - d));
      assert a % WRAP == r + (a - d);
    } else {
      assert a == (q + 1) * WRAP + (r + (a - d) - WRAP);
      assert a % WRAP == r + (a - d) - WRAP;
    }
  }

  /** Different bytes in the ring have different places. */
  lemma RingApart(i: nat, j: nat)
    requires i < j < i + SIZE
    ensures i % SIZE != j % SIZE
  {
  }

  class PipeState {
    var writeOpen: bool
    var readOpen: bool
    var head: nat
    var tail: nat
    const buf: array<u8>
    /** Everything the writer got accepted, and everything the reader got. */
    ghost var accepted: seq<u8>
    ghost var delivered: seq<u8>
    /** How often the shared state was freed. */
    var freed: nat
    /** The threads that wait for the pipe to have a byte, and those that wait for it to have room. */
    var readers: nat
    var writers: nat

    ghost predicate Valid()
      reads this, buf
    {
      && buf.Length == SIZE
      && delivered <= accepted && |accepted| <= |delivered| + SIZE
      && head == |delivered| % WRAP && tail == |accepted| % WRAP
      && (forall i :: |delivered| <= i < |accepted| ==> buf[i % SIZE] == accepted[i])
      && freed == if writeOpen || readOpen then 0 else 1
    }

    /** Nobody is left waiting for what is there: a reader waits only while the pipe is empty and may still be
        written, a writer only while it is full and may still be read. */
    ghost predicate Awake()
      reads this
    {
      && (readers > 0 ==> delivered == accepted && writeOpen)
      && (writers > 0 ==> |accepted| == |delivered| + SIZE && readOpen)
    }

    /** create_pipe */
    constructor ()
      ensures Valid() && writeOpen && readOpen && accepted == [] && delivered == [] && fresh(buf) && readers == 0 && writers == 0
    {
      writeOpen, readOpen, head, tail, freed, readers, writers := true, true, 0, 0, 0, 0, 0;
      buf := new u8[SIZE](i => 0);
      accepted, delivered := [], [];
    }

    /** pipe_count: the indices are 16 bits wide. */
    function Count(): (n: nat)
      requires Valid()
      reads this, buf
      ensures n == |accepted| - |delivered|
    {
      WrapCount(|accepted|, |delivered|);
      (tail - head) % WRAP
    }

    /** Take the byte at the head. */
    method Pop() returns (b: u8)
      requires Valid() && |delivered| < |accepted|
      modifies this`head, this`delivered
      ensures Valid() && delivered == old(delivered) + [b] && b == accepted[|old(delivered)|]
    {
      RingIndex(|delivered|);
      WrapNext(|delivered|);
      b := buf[head % SIZE];
      head := (head + 1) % WRAP;
      delivered := delivered + [b];
    }

    /** Put a byte at the tail. */
    method Push(b: u8)
      requires Valid() && |accepted| < |delivered| + SIZE
      modifies this`tail, this`accepted, buf
      ensures Valid() && accepted == old(accepted) + [b]
    {
      RingIndex(|accepted|);
      WrapNext(|accepted|);
      forall i | |delivered| <= i < |accepted| ensures i % SIZE != |accepted| % SIZE {
        RingApart(i, |accepted|);
      }
      buf[tail % SIZE] := b;
      tail := (tail + 1) % WRAP;
      accepted := accepted + [b];
    }

    /** pipe_read: as many bytes as there are, in order. Nothing at all means that the writer is gone and
        everything has been delivered; waiting means there is nothing yet. */
    method Read(isWriter: bool, bufsz: int) returns (r: Outcome, out: seq<u8>)
      requires Valid() && Awake()
      modifies this`head, this`delivered, this`readers, this`writers
      ensures Valid() && Awake() && delivered == old(delivered) + out
      ensures isWriter ==> r == Done(-EBADFD) && out == []
      ensures !isWriter && bufsz <= 0 ==> r == Done(0) && out == []
      ensures !isWriter && bufsz > 0 ==> (r.Blocked? <==> old(delivered) == accepted && writeOpen)
      ensures !isWriter && bufsz > 0 && r.Done? ==> r.n == |out| == Min(bufsz, |accepted| - |old(delivered)|)
      ensures !isWriter && bufsz > 0 && r == Done(0) ==> !writeOpen && delivered == accepted
      ensures r.Blocked? ==> r.n == 0 && out == []
      ensures readers == old(readers) + (if r.Blocked? then 1 else 0) && writers == if out != [] then 0 else old(writers)
    {
      out := [];
      if isWriter {
        return Done(-EBADFD), [];
      }
      if bufsz <= 0 {
        return Done(0), [];
      }
      if Count() == 0 && writeOpen {
        readers := readers + 1;
        return Blocked(0), [];
      }
      var n := 0;
      while n < bufsz && Count() > 0
        invariant Valid() && 0 <= n <= bufsz && |out| == n && delivered == old(delivered) + out
        invariant readers == old(readers) && writers == old(writers)
      {
        var b := Pop();
        out := out + [b];
        n := n + 1;
      }
      if n > 0 {
        writers := 0;
      }
      return Done(n), out;
    }

    /** pipe_write from byte `written` of data on: accepts bytes in order until all are in, the ring is full or
        the reader is gone. */
    method Write(isWriter: bool, data: seq<u8>, written: nat) returns (r: Outcome)
      requires Valid() && Awake() && written <= |data|
      modifies this`tail, this`accepted, this`readers, this`writers, buf
      ensures Valid() && Awake()
      ensures !isWriter ==> r == Done(-EBADFD) && accepted == old(accepted)
      ensures isWriter ==> old(accepted) <= accepted && |accepted| - |old(accepted)| <= |data| - written
      ensures isWriter ==> accepted == old(accepted) + data[written..written + |accepted| - |old(accepted)|]
      ensures isWriter && (readOpen || written == |data|) && r.Done? ==> r.n == |data| && |accepted| - |old(accepted)| == |data| - written
      ensures isWriter && r.Blocked? ==> readOpen && |accepted| == |delivered| + SIZE && r.n == written + |accepted| - |old(accepted)| < |data|
      ensures isWriter && !readOpen && written < |data| ==> accepted == old(accepted) && r == Done(if written > 0 then written else -EPIPE)
      ensures writers == old(writers) + (if r.Blocked? then 1 else 0) && readers == if accepted == old(accepted) then old(readers) else 0
    {
      if !isWriter {
        return Done(-EBADFD);
      }
      if data == [] {
        assert accepted == accepted + data[0..0];
        return Done(0);
      }
      var n := written;
      assert data[written..n] == [];
      while n < |data|
        invariant Valid() && written <= n <= |data| && accepted == old(accepted) + data[written..n]
        invariant !readOpen ==> n == written
        invariant Awake() && writers == old(writers) && readers == if accepted == old(accepted) then old(readers) else 0
        decreases |data| - n
      {
        if Count() == SIZE && readOpen {
          writers := writers + 1;
          return Blocked(n);
        }
        if !readOpen {
          return Done(if n > 0 then n else -EPIPE);
        }
        n := Fill(data, n);
        readers := 0;
      }
      return Done(n);
    }

    /** The inner loop of pipe_write. */
    method Fill(data: seq<u8>, written: nat) returns (n: nat)
      requires Valid() && written < |data| && |accepted| < |delivered| + SIZE
      modifies this`tail, this`accepted, buf
      ensures Valid() && written < n <= |data| && accepted == old(accepted) + data[written..n]
    {
      n := written;
      while n < |data| && Count() < SIZE
        invariant Valid() && written <= n <= |data| && accepted == old(accepted) + data[written..n]
        invariant n == written ==> |accepted| < |delivered| + SIZE
        decreases |data| - n
      {
        Push(data[n]);
        assert data[written..n + 1] == data[written..n] + [data[n]];
        n := n + 1;
      }
    }

    /** pipe_close: the last close frees the shared state, once. */
    method Close(isWriter: bool)
      requires Valid() && Awake() && (if isWriter then writeOpen else readOpen)
      modifies this`writeOpen, this`readOpen, this`freed, this`readers, this`writers
      ensures Valid() && Awake()
      ensures readers == (if isWriter then 0 else old(readers)) && writers == (if isWriter then old(writers) else 0)
      ensures writeOpen == (old(writeOpen) && !isWriter) && readOpen == (old(readOpen) && isWriter)
      ensures freed == old(freed) + if writeOpen || readOpen then 0 else 1
    {
      if isWriter {
        writeOpen := false;
        readers := 0;
      } else {
        readOpen := false;
        writers := 0;
      }
      var bothClosed := !writeOpen && !readOpen;
      if bothClosed {
        freed := freed + 1;
      }
    }
  }

  // ---- every run ----

  datatype Op = OpRead(size: int) | OpWrite(data: seq<u8>, written: nat) | OpClose(isWriter: bool)

  /** The bytes of the parts, in order. */
  function Flat(parts: seq<seq<u8>>): seq<u8> {
    if parts == [] then [] else Flat(parts[..|parts| - 1]) + parts[|parts| - 1]
  }

  lemma FlatSnoc(parts: seq<seq<u8>>, part: seq<u8>)
    ensures Flat(parts + [part]) == Flat(parts) + part
  {
    assert (parts + [part])[..|parts|] == parts;
  }

  lemma PartIs(data: seq<u8>, written: nat, n: nat)
    requires written + n <= |data|
    ensures data[written..written + n] <= data[written..]
  {
    assert data[written..][..n] == data[written..written + n];
  }

  /** What an operation put into the pipe: the beginning of what a write had still to write, or nothing. */
  predicate PartOf(op: Op, part: seq<u8>) {
    part == [] || (op.OpWrite? && op.written <= |op.data| && part <= op.data[op.written..])
  }

  /** A pipe as its users see it: a queue of at most 4096 bytes with two ends that can be closed. */
  datatype Queue = Queue(bytes: seq<u8>, writeOpen: bool, readOpen: bool)

  /** What an operation does to the queue, its result, and the bytes it delivers. An operation on an end that is closed
      has no result and does nothing. */
  function QueueStep(q: Queue, op: Op): (Queue, Option<Outcome>, seq<u8>) {
    match op
    case OpRead(size) =>
      if !q.readOpen then (q, None, [])
      else if size <= 0 then (q, Some(Done(0)), [])
      else if q.bytes == [] && q.writeOpen then (q, Some(Blocked(0)), [])
      else var n := Min(size, |q.bytes|); (q.(bytes := q.bytes[n..]), Some(Done(n)), q.bytes[..n])
    case OpWrite(data, written) =>
      if !q.writeOpen || written > |data| then (q, None, [])
      else if written == |data| then (q, Some(Done(|data|)), [])
      else if !q.readOpen then (q, Some(Done(if written > 0 then written else -EPIPE)), [])
      else
        var n := written + Max(0, Min(|data| - written, SIZE - |q.bytes|));
        (q.(bytes := q.bytes + data[written..n]), Some(if n == |data| then Done(n) else Blocked(n)), [])
    case OpClose(isWriter) =>
      if isWriter then (q.(writeOpen := false), None, []) else (q.(readOpen := false), None, [])
  }

  ghost function Seen(p: PipeState): Queue
    requires p.Valid()
    reads p, p.buf
  {
    Queue(p.accepted[|p.delivered|..], p.writeOpen, p.readOpen)
  }

  lemma Behind(delivered: seq<u8>, accepted: seq<u8>, out: seq<u8>)
    requires delivered + out <= accepted
    ensures accepted[|delivered|..][..|out|] == out && accepted[|delivered|..][|out|..] == accepted[|delivered + out|..]
  {
  }

  /** One operation, or nothing on a closed end. */
  method Do(p: PipeState, op: Op) returns (r: Option<Outcome>, out: seq<u8>)
    requires p.Valid() && p.Awake()
    modifies p, p.buf
    ensures p.Valid() && p.Awake() && p.delivered == old(p.delivered) + out && old(p.accepted) <= p.accepted
    ensures (Seen(p), r, out) == QueueStep(old(Seen(p)), op)
    ensures PartOf(op, p.accepted[|old(p.accepted)|..])
  {
    r, out := None, [];
    match op {
      case OpRead(size) =>
        if p.readOpen {
          var res;
          res, out := p.Read(false, size);
          r := Some(res);
          Behind(old(p.delivered), p.accepted, out);
        }
      case OpWrite(data, written) =>
        if p.writeOpen && written <= |data| {
          var res := p.Write(true, data, written);
          r := Some(res);
          PartIs(data, written, |p.accepted| - |old(p.accepted)|);
          assert p.accepted[|p.delivered|..] == old(p.accepted)[|p.delivered|..] + p.accepted[|old(p.accepted)|..];
        }
      case OpClose(isWriter) =>
        if if isWriter then p.writeOpen else p.readOpen {
          p.Close(isWriter);
        }
    }
  }

  /** Operation i of a run did to the queue what it should and had the result it should. */
  ghost predicate Did(qs: seq<Queue>, ops: seq<Op>, outs: seq<Option<Outcome>>, gots: seq<seq<u8>>, i: nat)
    requires i < |ops| && |ops| < |qs| && |ops| <= |outs| && |ops| <= |gots|
  {
    (qs[i + 1], outs[i], gots[i]) == QueueStep(qs[i], ops[i])
  }

  /** Over every run the ring with its wrapping indices is a bounded queue: every result and every byte read are the
      queue's. So the bytes read are a prefix of the bytes accepted, at most 4096 behind, and these are what the
      writes put in, one after the other; nobody waits for what is there, and the state is freed exactly when both
      ends are closed. */
  method Run(ops: seq<Op>) returns (p: PipeState, outs: seq<Option<Outcome>>, gots: seq<seq<u8>>, ghost parts: seq<seq<u8>>, ghost qs: seq<Queue>)
    ensures fresh(p) && p.Valid() && p.Awake()
    ensures |outs| == |gots| == |parts| == |ops| && |qs| == |ops| + 1 && qs[0] == Queue([], true, true) && qs[|ops|] == Seen(p)
    ensures forall i: nat :: i < |ops| ==> Did(qs, ops, outs, gots, i)
    ensures p.accepted == Flat(parts) && forall i :: 0 <= i < |ops| ==> PartOf(ops[i], parts[i])
    ensures p.delivered == Flat(gots) && Flat(gots) <= p.accepted && |p.accepted| - |Flat(gots)| <= SIZE
    ensures p.freed <= 1 && (p.freed == 1 <==> !p.writeOpen && !p.readOpen)
  {
    hide Flat, PartOf, QueueStep;
    p := new PipeState();
    outs, gots, parts, qs := [], [], [], [Seen(p)];
    FlatNone();
    for i := 0 to |ops|
      invariant fresh(p) && fresh(p.buf) && p.Valid() && p.Awake()
      invariant |outs| == |gots| == |parts| == i && |qs| == i + 1 && qs[0] == Queue([], true, true) && qs[i] == Seen(p)
      invariant forall j: nat :: j < i ==> Did(qs, ops[..i], outs, gots, j)
      invariant p.accepted == Flat(parts) && p.delivered == Flat(gots)
      invariant forall j :: 0 <= j < i ==> PartOf(ops[j], parts[j])
    {
      ghost var before, qs0, outs0, gots0, done := p.accepted, qs, outs, gots, ops[..i + 1];
      var r, out := Do(p, ops[i]);
      ghost var part := p.accepted[|before|..];
      FlatSnoc(parts, part);
      FlatSnoc(gots, out);
      outs, gots, parts, qs := outs + [r], gots + [out], parts + [part], qs + [Seen(p)];
      forall j: nat | j < i + 1 ensures Did(qs, done, outs, gots, j) {
        if j < i {
          assert Did(qs0, ops[..i], outs0, gots0, j);
        }
      }
    }
    assert ops[..|ops|] == ops;
  }

  lemma FlatNone()
    ensures Flat([]) == []
  {
  }
}
