/** A publishing client, one ring channel and a receiving client, in any interleaving:
    what is delivered is what was accepted. */
module EndToEnd {
  import opened Bytes
  import opened Statuses
  import opened Packets
  import opened Framing
  import opened ClientModel
  import opened VirtualTransport
  import Outbound
  import Inbound

  datatype Net = Net(
    sender: ClientState,
    channel: seq<byte>,
    size: nat,
    receiver: ClientState,
    sent: seq<Message>)  // messages whose publish call answered OK

  datatype Move = Offer(m: Message) | Flush | Deliver

  ghost predicate NetOk(n: Net) {
    Valid(n.sender) && Valid(n.receiver) && 0 < n.size && |n.channel| <= n.size
  }

  /** A publish call, made only when nothing is staged. */
  function OfferStep(n: Net, m: Message): Net
    requires NetOk(n)
  {
    if n.sender.pending > 0 then n
    else
      var e := Encoding(n.sender.tx, PUBLISH_BYTE, PublishFields(m));
      var (s, status) := Publish(n.sender, m, 0, AnswerWrite(n.channel, n.size, e.outLen));
      if status != OK then n.(sender := s)
      else n.(sender := s, channel := FifoWrite(n.channel, n.size, e.buf[..e.outLen]), sent := n.sent + [m])
  }

  function FlushStep(n: Net): Net
    requires NetOk(n)
  {
    var s := n.sender;
    n.(sender := FlushPending(s, AnswerWrite(n.channel, n.size, s.pending)).0,
       channel := FifoWrite(n.channel, n.size, Staged(s)))
  }

  function DeliverStep(n: Net): Net
    requires NetOk(n)
  {
    n.(receiver := ClientRead(n.receiver, ReadReply(OK, n.channel)).0,
       channel := FifoRead(n.channel, n.receiver.rxSize - |n.receiver.rx|).1)
  }

  function Step(n: Net, move: Move): Net
    requires NetOk(n)
  {
    match move
    case Offer(m) => OfferStep(n, m)
    case Flush => FlushStep(n)
    case Deliver => DeliverStep(n)
  }

  /** Every accepted byte is received, in the channel, or staged, in that order. */
  ghost predicate NetInv(n: Net) {
    && NetOk(n)
    && (forall m :: m in n.sent ==> Deliverable(n.receiver.rxSize, m))
    && n.receiver.received + n.channel + Staged(n.sender) == Concat(PublishStream(n.sent))
    && Inbound.ReadsAsOne(n.receiver)
  }

  /** A fresh connection: nothing staged, sent, in flight or received. */
  ghost predicate Fresh(n: Net) {
    && NetOk(n) && n.sender.pending == 0 && n.channel == [] && n.sent == []
    && n.receiver.received == [] && n.receiver.rx == [] && n.receiver.delivered == []
  }

  lemma FreshInv(n: Net)
    requires Fresh(n)
    ensures NetInv(n)
  {
    assert Staged(n.sender) == [] && PublishStream([]) == [];
  }

  // ----- the moves -----

  lemma StreamSnoc(sent: seq<Message>, m: Message)
    ensures Concat(PublishStream(sent + [m])) == Concat(PublishStream(sent)) + PublishPacket(m)
  {
    assert PublishStream(sent + [m]) == PublishStream(sent) + [PublishPacket(m)];
    ConcatSnoc(PublishStream(sent), PublishPacket(m));
  }

  lemma JoinPacket(received: seq<byte>, channel: seq<byte>, packet: seq<byte>, k: nat)
    requires k <= |packet|
    ensures received + (channel + packet[..k]) + packet[k..] == received + channel + [] + packet
  {
    assert packet[..k] + packet[k..] == packet;
  }

  lemma OfferKeeps(n: Net, m: Message)
    requires NetInv(n) && Deliverable(n.receiver.rxSize, m)
    ensures NetInv(OfferStep(n, m))
  {
    if n.sender.pending == 0 {
      var e := Encoding(n.sender.tx, PUBLISH_BYTE, PublishFields(m));
      assert Staged(n.sender) == [];
      var s1 := n.sender.(tx := e.buf);
      var reply := AnswerWrite(n.channel, n.size, e.outLen);
      if e.status == OK {
        PublishEncodes(n.sender.tx, m);
        Outbound.SendDivides(s1, e.outLen, reply);
        StreamSnoc(n.sent, m);
        JoinPacket(n.receiver.received, n.channel, PublishPacket(m), reply.Taken(e.outLen));
      } else {
        assert Staged(s1) == [];
      }
    }
  }

  lemma FlushInto(s: ClientState, content: seq<byte>, size: nat)
    requires Valid(s) && |content| <= size
    ensures var k := Min(s.pending, size - |content|);
            var s1 := FlushPending(s, AnswerWrite(content, size, s.pending)).0;
            s1.pending == s.pending - k && Staged(s1) == Staged(s)[k..]
  {
    var reply := AnswerWrite(content, size, s.pending);
    Outbound.FlushMoves(s, reply);
    Outbound.FlushTakes(s, reply);
  }

  lemma FlushKeeps(n: Net)
    requires NetInv(n)
    ensures NetInv(FlushStep(n))
    ensures var n1 := FlushStep(n); var k := Min(n.sender.pending, n.size - |n.channel|);
            n1.sender.pending == n.sender.pending - k && |n1.channel| == |n.channel| + k
  {
    hide FlushPending, PublishStream, Concat, Deliverable, Inbound.ReadsAsOne;
    var k := Min(n.sender.pending, n.size - |n.channel|);
    FlushInto(n.sender, n.channel, n.size);
    JoinPacket(n.receiver.received, n.channel, Staged(n.sender), k);
    assert n.channel + [] == n.channel && n.receiver.received + n.channel + [] == n.receiver.received + n.channel;
  }

  /** Part of a stream of good packets is never rejected. */
  lemma PrefixParsesOk(cap: nat, sent: seq<Message>, part: seq<byte>, rest: seq<byte>)
    requires (forall m :: m in sent ==> Deliverable(cap, m)) && part + rest == Concat(PublishStream(sent))
    ensures Parse(cap, part).status == OK && Parse(cap, part).log <= sent
  {
    ParsePublishes(cap, sent);
    LogMonotone(cap, part, rest);
    if Parse(cap, part).status != OK {
      StuckForGood(cap, part, rest);
    }
  }

  lemma ReadTakes(r: ClientState, channel: seq<byte>)
    requires Valid(r)
    ensures ClientRead(r, ReadReply(OK, channel)).0.received
         == r.received + FifoRead(channel, r.rxSize - |r.rx|).0
    ensures ClientRead(r, ReadReply(OK, channel)).0.rxSize == r.rxSize
  {
  }

  lemma JoinRead(received: seq<byte>, given: seq<byte>, rest: seq<byte>, staged: seq<byte>)
    ensures received + (given + rest) + staged == received + given + rest + staged
    ensures received + given + rest + staged == received + given + (rest + staged)
  {
  }

  lemma DeliverKeeps(n: Net)
    requires NetInv(n)
    ensures NetInv(DeliverStep(n))
    ensures ClientRead(n.receiver, ReadReply(OK, n.channel)).1 == OK
    ensures var n1 := DeliverStep(n);
            n1.sender == n.sender && |n1.channel| == |n.channel| - Min(n.receiver.rxSize - |n.receiver.rx|, |n.channel|)
  {
    var r, reply := n.receiver, ReadReply(OK, n.channel);
    var (given, rest) := FifoRead(n.channel, r.rxSize - |r.rx|);
    ReadTakes(r, n.channel);
    Inbound.ReadKeepsOne(r, reply);
    JoinRead(r.received, given, rest, Staged(n.sender));
    PrefixParsesOk(r.rxSize, n.sent, r.received + given, rest + Staged(n.sender));
  }

  // ----- the theorems -----

  ghost predicate Offers(cap: nat, moves: seq<Move>) {
    forall move :: move in moves && move.Offer? ==> Deliverable(cap, move.m)
  }

  ghost function RunNet(n: Net, moves: seq<Move>): (r: Net)
    requires NetInv(n) && Offers(n.receiver.rxSize, moves)
    ensures NetInv(r) && r.receiver.rxSize == n.receiver.rxSize
    decreases |moves|
  {
    if moves == [] then n
    else
      StepKeeps(n, moves[0]);
      assert moves[0] in moves;
      RunNet(Step(n, moves[0]), moves[1..])
  }

  lemma StepKeeps(n: Net, move: Move)
    requires NetInv(n) && (move.Offer? ==> Deliverable(n.receiver.rxSize, move.m))
    ensures NetInv(Step(n, move)) && Step(n, move).receiver.rxSize == n.receiver.rxSize
  {
    match move {
      case Offer(m) => OfferKeeps(n, m);
      case Flush => FlushKeeps(n);
      case Deliver => DeliverKeeps(n);
    }
  }

  /** From a fresh connection, whatever the capacity of the channel and however publishes,
      flushes and reads are interleaved, the callback has been given a prefix of the
      accepted messages, and all of them once nothing is staged or in flight. */
  lemma DeliveredInOrder(n: Net, moves: seq<Move>)
    requires Fresh(n) && Offers(n.receiver.rxSize, moves)
    ensures NetInv(n)
    ensures var r := RunNet(n, moves);
            && r.receiver.delivered <= r.sent
            && (r.sender.pending == 0 && r.channel == [] ==> r.receiver.delivered == r.sent && r.receiver.rx == [])
  {
    FreshInv(n);
    Prefix(RunNet(n, moves));
  }

  /** And the receiver's next read of the channel never fails. */
  lemma NoReadFails(n: Net, moves: seq<Move>)
    requires Fresh(n) && Offers(n.receiver.rxSize, moves)
    ensures NetInv(n)
    ensures var r := RunNet(n, moves); ClientRead(r.receiver, ReadReply(OK, r.channel)).1 == OK
  {
    FreshInv(n);
    DeliverKeeps(RunNet(n, moves));
  }

  lemma Prefix(n: Net)
    requires NetInv(n)
    ensures n.receiver.delivered <= n.sent
    ensures n.sender.pending == 0 && n.channel == [] ==> n.receiver.delivered == n.sent && n.receiver.rx == []
  {
    hide PublishStream, Concat, Deliverable, Parse;
    var r := n.receiver;
    var rest := n.channel + Staged(n.sender);
    assert r.received + rest == r.received + n.channel + Staged(n.sender);
    PrefixParsesOk(r.rxSize, n.sent, r.received, rest);
    if n.sender.pending == 0 && n.channel == [] {
      assert r.received + [] + [] == r.received;
      ParsePublishes(r.rxSize, n.sent);
    }
  }

  /** How many bytes are still on their way. */
  function InFlight(n: Net): nat {
    n.sender.pending + |n.channel|
  }

  lemma RoomToRead(n: Net)
    requires NetInv(n)
    ensures |n.receiver.rx| < n.receiver.rxSize
  {
    var r := n.receiver;
    JoinRead(r.received, [], n.channel, Staged(n.sender));
    assert r.received + [] == r.received;
    PrefixParsesOk(r.rxSize, n.sent, r.received, n.channel + Staged(n.sender));
    ParseRoom(r.rxSize, r.received);
  }

  /** One flush, one read. */
  ghost function Round(n: Net): (r: Net)
    requires NetInv(n)
    ensures NetInv(r) && r.sent == n.sent
    ensures InFlight(r) <= if InFlight(n) > 0 then InFlight(n) - 1 else 0
  {
    FlushKeeps(n);
    RoomToRead(FlushStep(n));
    DeliverKeeps(FlushStep(n));
    DeliverStep(FlushStep(n))
  }

  ghost function Rounds(n: Net, k: nat): (r: Net)
    requires NetInv(n)
    ensures NetInv(r) && r.sent == n.sent
    ensures InFlight(r) <= if InFlight(n) > k then InFlight(n) - k else 0
    decreases k
  {
    if k == 0 then n else Rounds(Round(n), k - 1)
  }

  /** And they do arrive: alternating flushes and reads, as many as there are bytes on
      their way, deliver every accepted message. */
  lemma EverythingArrives(n: Net, k: nat)
    requires NetInv(n) && k >= InFlight(n)
    ensures Rounds(n, k).receiver.delivered == n.sent
  {
    Prefix(Rounds(n, k));
  }
}
