/** The in-memory transport: a ring buffer for each direction, and the two endpoints
    that share the pair. */
module VirtualTransport {
  import opened Bytes
  import opened Statuses
  import opened ClientModel

  const CLOSED := Status(Io, Closed)

  // ----- a bounded first-in-first-out byte queue -----

  function FifoWrite(content: seq<byte>, size: nat, data: seq<byte>): (r: seq<byte>)
    requires |content| <= size
    ensures |r| <= size
  {
    content + data[..Min(|data|, size - |content|)]
  }

  function FifoRead(content: seq<byte>, len: nat): (r: (seq<byte>, seq<byte>))
    ensures r.0 + r.1 == content && |r.0| <= len
  {
    var n := Min(len, |content|);
    (content[..n], content[n..])
  }

  /** How a queue answers an attempt to write `len` bytes: it blocks only when full. */
  function AnswerWrite(content: seq<byte>, size: nat, len: nat): (r: WriteReply)
    requires |content| <= size
    ensures !Hard(r.status)
    ensures r.Taken(len) == Min(len, size - |content|)
  {
    var room := size - |content|;
    if room == 0 && len > 0 then WriteReply(BUSY, 0) else WriteReply(OK, room)
  }

  /** A full queue blocks, any other takes what there is room for; a read gives what is
      asked for, or all there is. */
  lemma QueueExactly(content: seq<byte>, size: nat, data: seq<byte>, len: nat)
    requires |content| <= size
    ensures var reply := AnswerWrite(content, size, |data|); var n := reply.Taken(|data|);
            && reply.status == (if data != [] && |content| == size then Status(Io, WouldBlock)
                                else Status(General, Okay))
            && (n == |data| || |content| + n == size) && FifoWrite(content, size, data) == content + data[..n]
    ensures var (given, rest) := FifoRead(content, len);
            given + rest == content && (|given| == len || (|given| < len && rest == []))
  {
  }

  // ----- the ring buffer -----

  lemma Wrap(x: nat, m: nat)
    requires 0 < m && x < 2 * m
    ensures x % m == if x < m then x else x - m
  {
    if x >= m {
      assert x == m * 1 + (x - m);
    }
  }

  /** The byte i places behind the head. */
  function Slot(head: nat, i: nat, size: nat): (k: nat)
    requires head < size && i <= size
    ensures k < size
  {
    if head + i < size then head + i else head + i - size
  }

  /** The queue that a ring holds: `len` bytes from the head on, around the end. */
  function RingContent(ring: seq<byte>, head: nat, len: nat): (s: seq<byte>)
    requires head < |ring| && len <= |ring|
    ensures |s| == len
  {
    seq(len, i requires 0 <= i < len => ring[Slot(head, i, |ring|)])
  }

  /** A byte stored behind the last one is appended. */
  lemma RingAppend(ring: seq<byte>, head: nat, len: nat, b: byte)
    requires head < |ring| && len < |ring|
    ensures Slot(head, len, |ring|) == (head + len) % |ring|
    ensures RingContent(ring[Slot(head, len, |ring|) := b], head, len + 1) == RingContent(ring, head, len) + [b]
  {
    Wrap(head + len, |ring|);
  }

  /** Moving the head over n bytes drops them. */
  lemma RingDrop(ring: seq<byte>, head: nat, len: nat, n: nat)
    requires head < |ring| && n <= len <= |ring|
    ensures (head + n) % |ring| < |ring|
    ensures RingContent(ring, (head + n) % |ring|, len - n) == RingContent(ring, head, len)[n..]
  {
    Wrap(head + n, |ring|);
  }

  lemma RingAt(ring: seq<byte>, head: nat, len: nat, i: nat)
    requires head < |ring| && i < len <= |ring|
    ensures (head + i) % |ring| < |ring|
    ensures ring[(head + i) % |ring|] == RingContent(ring, head, len)[i]
  {
    Wrap(head + i, |ring|);
  }

  /** The index the loop computes, from the tail, is the one behind the last byte. */
  lemma TailSlot(head: nat, len: nat, i: nat, size: nat)
    requires head < size && len + i < size
    ensures ((head + len) % size + i) % size == (head + (len + i)) % size < size
  {
    Wrap(head + len, size);
    Wrap((head + len) % size + i, size);
    Wrap(head + (len + i), size);
  }

  class Channel {
    const buf: array<byte>
    var head: nat
    var len: nat

    ghost predicate Ok()
      reads this
    {
      head < buf.Length && len <= buf.Length
    }

    ghost function Contents(): (s: seq<byte>)
      requires Ok()
      reads this, buf
      ensures |s| == len
    {
      RingContent(buf[..], head, len)
    }

    constructor (storage: array<byte>)
      requires storage.Length > 0
      ensures buf == storage && Ok() && Contents() == []
    {
      buf, head, len := storage, 0, 0;
    }

    method Write(data: array<byte>, n: nat) returns (status: Status, written: nat)
      requires Ok() && data != buf && n <= data.Length
      modifies this`len, buf
      ensures Ok() && Contents() == FifoWrite(old(Contents()), buf.Length, data[..n])
      ensures var reply := AnswerWrite(old(Contents()), buf.Length, n);
              status == reply.status && written == reply.Taken(n)
      ensures status == if n > 0 && old(len) == buf.Length then Status(Io, WouldBlock) else Status(General, Okay)
    {
      hide RingContent;
      ghost var content := Contents();
      var space := buf.Length - len;
      written := if n < space then n else space;
      var tail := (head + len) % buf.Length;
      assert content == content + data[..0];
      for i := 0 to written
        modifies buf
        invariant RingContent(buf[..], head, len + i) == content + data[..i]
      {
        TailSlot(head, len, i, buf.Length);
        RingAppend(buf[..], head, len + i, data[i]);
        ghost var ring := buf[..];
        buf[(tail + i) % buf.Length] := data[i];
        assert buf[..] == ring[(head + (len + i)) % buf.Length := data[i]];
        assert content + data[..i] + [data[i]] == content + data[..i + 1];
      }
      len := len + written;
      assert data[..n][..written] == data[..written];
      status := if written == 0 && n > 0 then BUSY else OK;
    }

    method Read(out: array<byte>, from: nat, n: nat) returns (status: Status, read: nat)
      requires Ok() && out != buf && from + n <= out.Length
      modifies this`head, this`len, out
      ensures Ok() && status == OK
      ensures var (given, rest) := FifoRead(old(Contents()), n);
              read == |given| && Contents() == rest && out[from..from + read] == given
      ensures out[..from] == old(out[..from])
    {
      hide RingContent;
      ghost var content := Contents();
      read := if n < len then n else len;
      for i := 0 to read
        modifies out
        invariant out[from..from + i] == content[..i]
        invariant out[..from] == old(out[..from])
      {
        RingAt(buf[..], head, len, i);
        out[from + i] := buf[(head + i) % buf.Length];
        assert out[from..from + (i + 1)] == content[..i] + [content[i]] == content[..i + 1];
      }
      RingDrop(buf[..], head, len, read);
      head := (head + read) % buf.Length;
      len := len - read;
      return OK, read;
    }
  }

  // ----- the endpoints -----

  class Endpoint {
    var tx: Channel
    var rx: Channel
    var connected: bool

    ghost predicate Ok()
      reads this, tx, rx
    {
      tx.Ok() && rx.Ok() && tx != rx && tx.buf != rx.buf
    }

    constructor (tx: Channel, rx: Channel)
      ensures this.tx == tx && this.rx == rx && !connected
    {
      this.tx, this.rx, connected := tx, rx, false;
    }

    method Connect() returns (status: Status)
      modifies this`connected
      ensures connected && status == OK
    {
      connected := true;
      return OK;
    }

    method Disconnect() returns (status: Status)
      modifies this`connected
      ensures !connected && status == OK
    {
      connected := false;
      return OK;
    }

    /** Writes into one channel and leaves the other alone. */
    method Write(data: array<byte>, n: nat) returns (status: Status, written: nat)
      requires Ok() && data != tx.buf && data != rx.buf && n <= data.Length
      modifies tx`len, tx.buf
      ensures Ok() && rx.Contents() == old(rx.Contents())
      ensures !connected ==> status == Status(Io, Closed) && written == 0 && tx.Contents() == old(tx.Contents())
      ensures connected ==>
                && tx.Contents() == FifoWrite(old(tx.Contents()), tx.buf.Length, data[..n])
                && var reply := AnswerWrite(old(tx.Contents()), tx.buf.Length, n);
                status == reply.status && written == reply.Taken(n)
    {
      if !connected {
        return CLOSED, 0;
      }
      status, written := tx.Write(data, n);
    }

    method Read(out: array<byte>, from: nat, n: nat) returns (status: Status, read: nat)
      requires Ok() && out != tx.buf && out != rx.buf && from + n <= out.Length
      modifies rx`head, rx`len, out
      ensures Ok() && tx.Contents() == old(tx.Contents()) && out[..from] == old(out[..from])
      ensures !connected ==> status == Status(Io, Closed) && read == 0 && rx.Contents() == old(rx.Contents())
      ensures connected ==>
                && status == OK && read == |FifoRead(old(rx.Contents()), n).0|
                && out[from..from + read] == FifoRead(old(rx.Contents()), n).0
                && rx.Contents() == FifoRead(old(rx.Contents()), n).1
    {
      if !connected {
        return CLOSED, 0;
      }
      status, read := rx.Read(out, from, n);
    }
  }

  /** Wires two endpoints so that what one writes the other reads. */
  method PairInit(a: Endpoint, aToB: Channel, b: Endpoint, bToA: Channel)
    requires a != b && aToB != bToA && aToB.buf != bToA.buf && aToB.Ok() && bToA.Ok()
    modifies a, b
    ensures a.Ok() && b.Ok() && !a.connected && !b.connected
    ensures a.tx == b.rx == aToB && b.tx == a.rx == bToA
  {
    a.tx, a.rx, a.connected := aToB, bToA, false;
    b.tx, b.rx, b.connected := bToA, aToB, false;
  }

  // ----- any interleaving of reads and writes on a pair -----

  datatype End = A | B

  datatype PairOp =
    | Open(who: End)
    | Shut(who: End)
    | Put(who: End, data: seq<byte>)
    | Take(who: End, len: nat)

  /** One direction of a pair, with all that ever went in and came out. */
  datatype Pipe = Pipe(content: seq<byte>, size: nat, written: seq<byte>, read: seq<byte>)

  datatype Pair = Pair(aOpen: bool, bOpen: bool, ab: Pipe, ba: Pipe) {
    function IsOpen(who: End): bool { if who == A then aOpen else bOpen }
  }

  ghost predicate PipeInv(p: Pipe) {
    |p.content| <= p.size && p.written == p.read + p.content
  }

  function PipePut(p: Pipe, data: seq<byte>): Pipe
    requires |p.content| <= p.size
  {
    var after := FifoWrite(p.content, p.size, data);
    p.(content := after, written := p.written + after[|p.content|..])
  }

  function PipeTake(p: Pipe, len: nat): Pipe {
    var (given, rest) := FifoRead(p.content, len);
    p.(content := rest, read := p.read + given)
  }

  ghost predicate PairInv(p: Pair) {
    PipeInv(p.ab) && PipeInv(p.ba)
  }

  ghost function PairStep(p: Pair, op: PairOp): Pair
    requires PairInv(p)
  {
    match op
    case Open(who) => if who == A then p.(aOpen := true) else p.(bOpen := true)
    case Shut(who) => if who == A then p.(aOpen := false) else p.(bOpen := false)
    case Put(who, data) =>
      if !p.IsOpen(who) then p
      else if who == A then p.(ab := PipePut(p.ab, data)) else p.(ba := PipePut(p.ba, data))
    case Take(who, len) =>
      if !p.IsOpen(who) then p
      else if who == A then p.(ba := PipeTake(p.ba, len)) else p.(ab := PipeTake(p.ab, len))
  }

  lemma PipePutKeeps(p: Pipe, data: seq<byte>)
    requires PipeInv(p)
    ensures PipeInv(PipePut(p, data))
  {
    var after := FifoWrite(p.content, p.size, data);
    assert after == p.content + after[|p.content|..];
    assert p.written + after[|p.content|..] == p.read + after;
  }

  lemma PipeTakeKeeps(p: Pipe, len: nat)
    requires PipeInv(p)
    ensures PipeInv(PipeTake(p, len))
  {
    var (given, rest) := FifoRead(p.content, len);
    assert p.read + (given + rest) == p.read + given + rest;
  }

  lemma PairStepKeeps(p: Pair, op: PairOp)
    requires PairInv(p)
    ensures PairInv(PairStep(p, op))
  {
    match op {
      case Put(who, data) => PipePutKeeps(if who == A then p.ab else p.ba, data);
      case Take(who, len) => PipeTakeKeeps(if who == A then p.ba else p.ab, len);
      case _ =>
    }
  }

  /** Conservation: over any interleaving, in each direction, the bytes that went in are
      the bytes that came out followed by those still inside. */
  ghost function PairRun(p: Pair, ops: seq<PairOp>): (r: Pair)
    requires PairInv(p)
    ensures PairInv(r)
    decreases |ops|
  {
    if ops == [] then p
    else
      PairStepKeeps(p, ops[0]);
      PairRun(PairStep(p, ops[0]), ops[1..])
  }

  // ----- the same on the wired objects -----

  /** Two endpoints that share their channels crosswise hold what the pair p holds. */
  ghost predicate Wired(a: Endpoint, b: Endpoint, p: Pair)
    reads a, b, a.tx, a.rx, b.tx, b.rx, a.tx.buf, a.rx.buf
  {
    && a != b && a.Ok() && b.tx == a.rx && b.rx == a.tx
    && a.connected == p.aOpen && b.connected == p.bOpen
    && a.tx.Contents() == p.ab.content && a.tx.buf.Length == p.ab.size
    && a.rx.Contents() == p.ba.content && a.rx.buf.Length == p.ba.size
  }

  /** The bytes that a call gets into its channel, or out of it. */
  ghost function StepMoves(p: Pair, op: PairOp): seq<byte>
    requires PairInv(p)
  {
    match op
    case Put(who, data) =>
      var pipe := if who == A then p.ab else p.ba;
      if p.IsOpen(who) then data[..Min(|data|, pipe.size - |pipe.content|)] else []
    case Take(who, len) =>
      if p.IsOpen(who) then FifoRead(if who == A then p.ba.content else p.ab.content, len).0 else []
    case _ => []
  }

  function PutBy(who: End, op: PairOp, moved: seq<byte>): seq<byte> {
    if op.Put? && op.who == who then moved else []
  }

  function TakenBy(who: End, op: PairOp, moved: seq<byte>): seq<byte> {
    if op.Take? && op.who == who then moved else []
  }

  /** All that the calls of one end wrote, of the bytes that each call moved. */
  function WrittenBy(who: End, ops: seq<PairOp>, moved: seq<seq<byte>>): seq<byte>
    requires |moved| == |ops|
  {
    var n := |ops|;
    if n == 0 then [] else WrittenBy(who, ops[..n - 1], moved[..n - 1]) + PutBy(who, ops[n - 1], moved[n - 1])
  }

  /** All that they read. */
  function ReadBy(who: End, ops: seq<PairOp>, moved: seq<seq<byte>>): seq<byte>
    requires |moved| == |ops|
  {
    var n := |ops|;
    if n == 0 then [] else ReadBy(who, ops[..n - 1], moved[..n - 1]) + TakenBy(who, ops[n - 1], moved[n - 1])
  }

  /** What a step adds to the histories is what it moved. */
  lemma StepHistory(p: Pair, op: PairOp)
    requires PairInv(p)
    ensures var q, moved := PairStep(p, op), StepMoves(p, op);
            && q.ab.written == p.ab.written + PutBy(A, op, moved)
            && q.ba.written == p.ba.written + PutBy(B, op, moved)
            && q.ab.read == p.ab.read + TakenBy(B, op, moved) && q.ba.read == p.ba.read + TakenBy(A, op, moved)
  {
    match op {
      case Put(who, data) => PutHistory(if who == A then p.ab else p.ba, data);
      case _ =>
    }
  }

  lemma PutHistory(p: Pipe, data: seq<byte>)
    requires PipeInv(p)
    ensures PipePut(p, data).written == p.written + data[..Min(|data|, p.size - |p.content|)]
  {
    var after := FifoWrite(p.content, p.size, data);
    assert after[|p.content|..] == data[..Min(|data|, p.size - |p.content|)];
  }

  /** What went in, came out and is inside, of a direction that holds `before` at first. */
  lemma Cancel(history: seq<byte>, before: seq<byte>, put: seq<byte>, taken: seq<byte>, after: seq<byte>)
    requires history + before + put == history + taken + after
    ensures before + put == taken + after
  {
    var whole, n := history + before + put, |history|;
    assert whole[n..] == before + put && whole[n..] == taken + after;
  }

  /** A write from a buffer of its own; gives the bytes that were taken. */
  method WriteBytes(e: Endpoint, data: seq<byte>) returns (moved: seq<byte>)
    requires e.Ok()
    modifies e.tx`len, e.tx.buf
    ensures e.Ok() && e.rx.Contents() == old(e.rx.Contents())
    ensures var before := old(e.tx.Contents()); var size := e.tx.buf.Length;
            if e.connected then
              && moved == data[..Min(|data|, size - |before|)] && e.tx.Contents() == FifoWrite(before, size, data)
            else moved == [] && e.tx.Contents() == before
  {
    hide RingContent, FifoWrite;
    var from := new byte[|data|](i requires 0 <= i < |data| => data[i]);
    assert from[..|data|] == data;
    var status, written := e.Write(from, |data|);
    moved := data[..written];
  }

  /** A read into a buffer of its own; gives the bytes that came. */
  method ReadBytes(e: Endpoint, len: nat) returns (moved: seq<byte>)
    requires e.Ok()
    modifies e.rx`head, e.rx`len
    ensures e.Ok() && e.tx.Contents() == old(e.tx.Contents())
    ensures var before := old(e.rx.Contents());
            if e.connected then (moved, e.rx.Contents()) == FifoRead(before, len)
            else moved == [] && e.rx.Contents() == before
  {
    hide RingContent, FifoRead;
    var into := new byte[len];
    var status, read := e.Read(into, 0, len);
    moved := into[..read];
  }

  /** One call on one of the endpoints. */
  method Perform(a: Endpoint, b: Endpoint, op: PairOp, ghost p: Pair) returns (moved: seq<byte>)
    requires Wired(a, b, p) && PairInv(p)
    modifies a`connected, b`connected, a.tx, a.rx, a.tx.buf, a.rx.buf
    ensures a.tx == old(a.tx) && a.rx == old(a.rx)
    ensures Wired(a, b, PairStep(p, op)) && moved == StepMoves(p, op)
  {
    hide FifoWrite, FifoRead, RingContent, AnswerWrite;
    moved := [];
    match op {
      case Open(who) =>
        var status;
        if who == A {
          status := a.Connect();
        } else {
          status := b.Connect();
        }
      case Shut(who) =>
        var status;
        if who == A {
          status := a.Disconnect();
        } else {
          status := b.Disconnect();
        }
      case Put(who, data) => moved := WriteBytes(if who == A then a else b, data);
      case Take(who, len) => moved := ReadBytes(if who == A then a else b, len);
    }
  }

  /** Any calls, in any order: ring, wiring and flags hold what the run of the pair says. In
      each direction, what was inside and what the writes took are what the reads returned
      and what is inside. */
  method PerformAll(a: Endpoint, b: Endpoint, ops: seq<PairOp>, ghost p: Pair) returns (moved: seq<seq<byte>>)
    requires Wired(a, b, p) && PairInv(p)
    modifies a`connected, b`connected, a.tx, a.rx, a.tx.buf, a.rx.buf
    ensures a.tx == old(a.tx) && a.rx == old(a.rx) && |moved| == |ops|
    ensures Wired(a, b, PairRun(p, ops)) && History(p, PairRun(p, ops), ops, moved)
    ensures old(a.tx.Contents()) + WrittenBy(A, ops, moved) == ReadBy(B, ops, moved) + a.tx.Contents()
    ensures old(a.rx.Contents()) + WrittenBy(B, ops, moved) == ReadBy(A, ops, moved) + a.rx.Contents()
  {
    ghost var q := p;
    moved := [];
    assert p.ab.written + [] == p.ab.written && p.ba.written + [] == p.ba.written;
    assert p.ab.read + [] == p.ab.read && p.ba.read + [] == p.ba.read;
    for i := 0 to |ops|
      invariant a.tx == old(a.tx) && a.rx == old(a.rx) && |moved| == i
      invariant PairInv(q) && Wired(a, b, q) && History(p, q, ops[..i], moved)
      invariant PairRun(q, ops[i..]) == PairRun(p, ops)
    {
      var bytes := Perform(a, b, ops[i], q);
      PairStepKeeps(q, ops[i]);
      HistoryGrows(p, q, ops[..i], moved, ops[i]);
      assert ops[i..][0] == ops[i] && ops[i..][1..] == ops[i + 1..] && ops[..i] + [ops[i]] == ops[..i + 1];
      q := PairStep(q, ops[i]);
      moved := moved + [bytes];
    }
    assert ops[|ops|..] == [] && ops[..|ops|] == ops;
    Cancel(p.ab.read, p.ab.content, WrittenBy(A, ops, moved), ReadBy(B, ops, moved), q.ab.content);
    Cancel(p.ba.read, p.ba.content, WrittenBy(B, ops, moved), ReadBy(A, ops, moved), q.ba.content);
  }

  /** Between p and q the calls of the two ends have moved these bytes. */
  ghost predicate History(p: Pair, q: Pair, ops: seq<PairOp>, moved: seq<seq<byte>>) {
    && |moved| == |ops|
    && q.ab.written == p.ab.written + WrittenBy(A, ops, moved)
    && q.ba.written == p.ba.written + WrittenBy(B, ops, moved)
    && q.ab.read == p.ab.read + ReadBy(B, ops, moved) && q.ba.read == p.ba.read + ReadBy(A, ops, moved)
  }

  lemma HistoryGrows(p: Pair, q: Pair, ops: seq<PairOp>, moved: seq<seq<byte>>, op: PairOp)
    requires PairInv(p) && PairInv(q) && History(p, q, ops, moved)
    ensures History(p, PairStep(q, op), ops + [op], moved + [StepMoves(q, op)])
  {
    hide PairStep, StepMoves;
    StepHistory(q, op);
    var bytes := StepMoves(q, op);
    assert (ops + [op])[..|ops|] == ops && (moved + [bytes])[..|ops|] == moved;
  }

  /** Traffic from B to A. */
  predicate Backward(op: PairOp) {
    (op.Put? && op.who == B) || (op.Take? && op.who == A)
  }

  function WithoutBackward(ops: seq<PairOp>): seq<PairOp> {
    if ops == [] then []
    else if Backward(ops[0]) then WithoutBackward(ops[1..])
    else [ops[0]] + WithoutBackward(ops[1..])
  }

  ghost predicate SameForward(p: Pair, q: Pair) {
    p.aOpen == q.aOpen && p.bOpen == q.bOpen && p.ab == q.ab
  }

  /** The directions do not disturb each other: leaving out all traffic one way changes
      nothing that went in, came out or is inside the other way. */
  lemma {:induction false} DirectionsIndependent(p: Pair, q: Pair, ops: seq<PairOp>)
    requires PairInv(p) && PairInv(q) && SameForward(p, q)
    ensures SameForward(PairRun(p, ops), PairRun(q, WithoutBackward(ops)))
    decreases |ops|
  {
    if ops != [] {
      var op, rest := ops[0], ops[1..];
      PairStepKeeps(p, op);
      PairStepKeeps(q, op);
      if Backward(op) {
        DirectionsIndependent(PairStep(p, op), q, rest);
      } else {
        DirectionsIndependent(PairStep(p, op), PairStep(q, op), rest);
        var kept := WithoutBackward(ops);
        assert kept[0] == op && kept[1..] == WithoutBackward(rest);
      }
    }
  }
}
