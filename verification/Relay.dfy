/** Two whole clients and a peer between them: whatever the sender does besides, what it
    published is what the receiver delivers. */
module Relay {
  import opened Bytes
  import opened Statuses
  import opened Packets
  import opened Framing
  import opened ClientModel
  import opened Outbound
  import opened Inbound
  import H = FixedHeader

  // ----- streams of any packets -----

  /** A packet that a reader with a buffer of cap bytes takes without complaint. */
  ghost predicate Readable(cap: nat, p: seq<byte>) {
    Framed(p) && |p| <= cap && Dispatch(p, H.Decode(p).value).Got?
  }

  ghost function MessagesOf(p: seq<byte>): seq<Message> {
    if Framed(p) && Dispatch(p, H.Decode(p).value).Got? then Dispatch(p, H.Decode(p).value).value else []
  }

  ghost function Deliveries(packets: seq<seq<byte>>): seq<Message> {
    if packets == [] then [] else MessagesOf(packets[0]) + Deliveries(packets[1..])
  }

  lemma {:induction false} DeliveriesSnoc(packets: seq<seq<byte>>, p: seq<byte>)
    ensures Deliveries(packets + [p]) == Deliveries(packets) + MessagesOf(p)
  {
    hide MessagesOf;
    if packets == [] {
      assert [p][1..] == [];
    } else {
      assert (packets + [p])[1..] == packets[1..] + [p];
      DeliveriesSnoc(packets[1..], p);
      LogsJoin(MessagesOf(packets[0]), Deliveries(packets[1..]), MessagesOf(p));
    }
  }

  lemma PacketAtFront(cap: nat, p: seq<byte>, more: seq<byte>)
    requires Readable(cap, p)
    ensures FrontOf(cap, p + more) == Whole(|p|, MessagesOf(p)) && |p| >= 2
  {
    hide Dispatch;
    var extra := Window(cap, p + more)[|p|..];
    assert Window(cap, p + more) == p + extra;
    H.DecodeStable(p, extra);
    H.DecodeBounds(p);
    assert (p + more)[..|p|] == p;
  }

  /** Readable packets, of whatever types, parse to the messages of the PUBLISHes among them. */
  lemma {:induction false} ParseReadable(cap: nat, packets: seq<seq<byte>>)
    requires forall p :: p in packets ==> Readable(cap, p)
    ensures Parse(cap, Concat(packets)) == Parsed(Deliveries(packets), [], OK)
    decreases |packets|
  {
    if packets != [] {
      var p, more, s := packets[0], Concat(packets[1..]), Concat(packets);
      assert p in packets && s == p + more;
      hide Readable, FrontOf, MessagesOf;
      PacketAtFront(cap, p, more);
      assert s[|p|..] == more;
      ParseReadable(cap, packets[1..]);
    }
  }

  /** Readable packets in front of bytes that cannot be read are delivered all the same, and
      the verdict is that on what stands in the way. */
  lemma BadPacketStops(cap: nat, packets: seq<seq<byte>>, bad: seq<byte>, status: Status)
    requires (forall p :: p in packets ==> Readable(cap, p)) && bad != []
    requires FrontOf(cap, bad) == Stuck(status)
    ensures Parse(cap, Concat(packets) + bad) == Parsed(Deliveries(packets), bad, status)
  {
    hide Concat, FrontOf, Readable, Deliveries;
    ParseReadable(cap, packets);
    ParseContinue(cap, Concat(packets), bad);
    assert [] + bad == bad && Deliveries(packets) + [] == Deliveries(packets);
  }

  lemma PublishMessages(m: Message)
    requires Encodable(m)
    ensures Framed(PublishPacket(m)) && MessagesOf(PublishPacket(m)) == [m]
    ensures Dispatch(PublishPacket(m), H.Decode(PublishPacket(m)).value).Got?
  {
    hide H.Decode, DecodePublish, PublishPacket;
    PublishRoundTrip(m, []);
    assert PublishPacket(m) + [] == PublishPacket(m);
  }

  /** Packets of the other types deliver nothing. */
  lemma OtherMessages(p: seq<byte>)
    requires Framed(p) && |p| > 0 && p[0] as int / 16 != H.PUBLISH
    ensures MessagesOf(p) == [] && Dispatch(p, H.Decode(p).value).Got?
  {
    hide H.Decode;
    H.DecodeBounds(p);
  }

  // ----- what a run published -----

  /** The messages whose publish call answered OK, since the last accepted connect call. */
  ghost function Published(s: ClientState, ops: seq<Op>, log: seq<Message>): seq<Message>
    requires Valid(s)
    decreases |ops|
  {
    if ops == [] then log
    else
      var (s1, status) := Apply(s, ops[0]);
      Published(s1, ops[1..], LogAfter(log, ops[0], status))
  }

  function LogAfter(log: seq<Message>, op: Op, status: Status): seq<Message> {
    if status != OK then log
    else match op
      case OpConnect => []
      case OpPublish(topic, payload, _, _) => log + [Message(topic, payload)]
      case _ => log
  }

  /** Publish calls for messages that a packet can carry whole. */
  predicate PublishesEncodable(ops: seq<Op>) {
    forall op :: op in ops && op.OpPublish? ==> Encodable(Message(op.topic, op.payload))
  }

  /** The accepted packets carry exactly the messages of the log. */
  ghost predicate Carries(s: ClientState, log: seq<Message>) {
    && Deliveries(s.accepted) == log
    && forall p :: p in s.accepted ==> Framed(p) && Dispatch(p, H.Decode(p).value).Got?
  }

  lemma CarriesOneMore(s: ClientState, s1: ClientState, log: seq<Message>, p: seq<byte>)
    requires Carries(s, log) && s1.accepted == s.accepted + [p]
    requires Framed(p) && Dispatch(p, H.Decode(p).value).Got?
    ensures Carries(s1, log + MessagesOf(p))
  {
    hide Framed, Dispatch, MessagesOf;
    DeliveriesSnoc(s.accepted, p);
  }

  /** An accepted publish adds the PUBLISH packet of its message. */
  lemma PublishAccepts(s: ClientState, m: Message, qos: int, reply: WriteReply)
    requires Valid(s) && Encodable(m)
    ensures var (s1, status) := Publish(s, m, qos, reply);
            s1.accepted == s.accepted + if status == OK then [PublishPacket(m)] else []
  {
    hide SendEncoded, Encoding, PublishPacket;
    assert s.accepted + [] == s.accepted;
    if qos == 0 {
      PublishEncodes(s.tx, m);
      SendEncodedFrame(s, Encoding(s.tx, PUBLISH_BYTE, PublishFields(m)), reply);
    }
  }

  lemma StepCarries(s: ClientState, op: Op, log: seq<Message>)
    requires Valid(s) && Carries(s, log)
    requires op.OpPublish? ==> Encodable(Message(op.topic, op.payload))
    ensures var (s1, status) := Apply(s, op); Carries(s1, LogAfter(log, op, status))
  {
    hide Publish, Subscribe, Poll, Framed, MessagesOf, Dispatch, Encodable;
    var (s1, status) := Apply(s, op);
    match op {
      case OpConnect =>
      case OpPublish(topic, payload, qos, reply) =>
        var m := Message(topic, payload);
        PublishAccepts(s, m, qos, reply);
        if status == OK {
          PublishMessages(m);
          CarriesOneMore(s, s1, log, PublishPacket(m));
        } else {
          assert s.accepted + [] == s.accepted;
        }
      case OpDisconnect =>
      case OpSubscribe(_, _, _) => OtherStepCarries(s, op, log);
      case OpPoll(_) => OtherStepCarries(s, op, log);
    }
  }

  lemma OtherStepCarries(s: ClientState, op: Op, log: seq<Message>)
    requires Valid(s) && Carries(s, log) && (op.OpSubscribe? || op.OpPoll?)
    ensures Carries(Apply(s, op).0, log)
  {
    hide Apply, Framed, MessagesOf, Dispatch;
    StepAccepts(s, op);
    var s1 := Apply(s, op).0;
    if s1.accepted != s.accepted {
      var p := s1.accepted[|s.accepted|];
      assert s1.accepted == s1.accepted[..|s.accepted|] + [p];
      OtherMessages(p);
      CarriesOneMore(s, s1, log, p);
      assert log + [] == log;
    }
  }

  lemma {:induction false} RunCarries(s: ClientState, ops: seq<Op>, log: seq<Message>)
    requires Valid(s) && Carries(s, log) && PublishesEncodable(ops)
    ensures Carries(Run(s, ops), Published(s, ops, log))
    decreases |ops|
  {
    hide Apply, Carries, LogAfter, Encodable;
    if ops != [] {
      assert ops[0] in ops && forall op :: op in ops[1..] ==> op in ops;
      var (s1, status) := Apply(s, ops[0]);
      StepCarries(s, ops[0], log);
      RunCarries(s1, ops[1..], LogAfter(log, ops[0], status));
    }
  }

  // ----- part of a stream -----

  /** A reader behind any part of the stream of accepted packets. */
  lemma PartParses(cap: nat, packets: seq<seq<byte>>, part: seq<byte>, rest: seq<byte>)
    requires forall p :: p in packets ==> Readable(cap, p)
    requires part + rest == Concat(packets)
    ensures Parse(cap, part).status == OK && Parse(cap, part).log <= Deliveries(packets)
    ensures rest == [] ==> Parse(cap, part) == Parsed(Deliveries(packets), [], OK)
  {
    hide Parse, Readable, Concat;
    ParseReadable(cap, packets);
    LogMonotone(cap, part, rest);
    if Parse(cap, part).status != OK {
      StuckForGood(cap, part, rest);
    }
    assert rest == [] ==> part + rest == part;
  }

  // ----- the packets that matter -----

  predicate IsPublish(p: seq<byte>) {
    |p| > 0 && p[0] as int / 16 == H.PUBLISH
  }

  function OnlyPublishes(packets: seq<seq<byte>>): seq<seq<byte>> {
    if packets == [] then []
    else (if IsPublish(packets[0]) then [packets[0]] else []) + OnlyPublishes(packets[1..])
  }

  lemma {:induction false} OnlyPublishesHas(packets: seq<seq<byte>>, p: seq<byte>)
    ensures p in OnlyPublishes(packets) <==> p in packets && IsPublish(p)
  {
    if packets != [] {
      OnlyPublishesHas(packets[1..], p);
      assert packets == [packets[0]] + packets[1..];
    }
  }

  lemma FramedNotEmpty(p: seq<byte>)
    requires Framed(p)
    ensures |p| > 0
  {
    H.DecodeBounds(p);
  }

  /** Leaving out the packets of the other types leaves out no message. */
  lemma {:induction false} DeliveriesOfPublishes(packets: seq<seq<byte>>)
    requires forall p :: p in packets ==> Framed(p)
    ensures Deliveries(OnlyPublishes(packets)) == Deliveries(packets)
  {
    hide Framed, MessagesOf;
    if packets != [] {
      var p, more := packets[0], OnlyPublishes(packets[1..]);
      assert p in packets && forall q :: q in packets[1..] ==> q in packets;
      DeliveriesOfPublishes(packets[1..]);
      if IsPublish(p) {
        assert OnlyPublishes(packets)[1..] == more;
      } else {
        FramedNotEmpty(p);
        OtherMessages(p);
        assert OnlyPublishes(packets) == more;
      }
    }
  }

  lemma {:induction false} DeliveriesOfPrefix(part: seq<seq<byte>>, packets: seq<seq<byte>>)
    requires part <= packets
    ensures Deliveries(part) <= Deliveries(packets)
  {
    hide MessagesOf;
    if part != [] {
      DeliveriesOfPrefix(part[1..], packets[1..]);
    }
  }

  // ----- the theorems -----

  /** What a receiver makes of a stream of readable packets behind its CONNACK. */
  lemma ReceiverDelivers(r: ClientState, packets: seq<seq<byte>>, published: seq<Message>)
    requires Valid(r) && r.state == Connected && InboundInv(r)
    requires (forall p :: p in packets ==> Readable(r.rxSize, p)) && Deliveries(packets) <= published
    requires AfterConnack(r.received) <= Concat(packets)
    ensures r.delivered <= published && Parse(r.rxSize, AfterConnack(r.received)).status == OK
    ensures AfterConnack(r.received) == Concat(packets) && r.rx == [] ==> r.delivered == Deliveries(packets)
  {
    hide Parse, Concat, Readable, Deliveries;
    var part := AfterConnack(r.received);
    var rest := Concat(packets)[|part|..];
    assert part + rest == Concat(packets);
    PartParses(r.rxSize, packets, part, rest);
    if rest == [] && r.rx == [] {
      NothingLeft(r);
    }
  }

  lemma NothingLeft(r: ClientState)
    requires Acked(r.received) && r.rx == []
    requires Before(r.delivered, Parse(r.rxSize, r.rx)) == Parse(r.rxSize, AfterConnack(r.received))
    ensures r.delivered == Parse(r.rxSize, AfterConnack(r.received)).log
  {
    assert r.delivered + [] == r.delivered;
  }

  /** After any run from a fresh attempt that encodes over no staged bytes, the stream is the
      accepted packets, which carry what was published. */
  lemma SenderCarries(s0: ClientState, sendOps: seq<Op>)
    requires Valid(s0) && s0.pending == 0 && s0.wire == [] && s0.accepted == []
    requires RunLeavesStagedAlone(s0, sendOps) && PublishesEncodable(sendOps)
    ensures StreamInv(Run(s0, sendOps)) && Carries(Run(s0, sendOps), Published(s0, sendOps, []))
  {
    hide Run, RunLeavesStagedAlone, Published, Concat;
    FreshStream(s0);
    OutboundStream(s0, sendOps);
    assert Carries(s0, []);
    RunCarries(s0, sendOps, []);
  }

  /** The relay has passed on, behind the receiver's CONNACK, some of what the sender's
      transport took since it connected. */
  ghost predicate Relayed(sender: ClientState, receiver: ClientState) {
    Acked(receiver.received) && AfterConnack(receiver.received) <= sender.wire
  }

  /** Run the sender in any way that encodes over no staged bytes, with its CONNECT, PINGREQs
      and SUBSCRIBEs among the publishes, and the receiver in any way that throws no input
      away. If the receiver is connected and every packet fits its buffer, it has delivered a
      prefix of what was published, its stream is never in error, and once it has read all of
      it and has nothing left in its buffer, it has delivered all of it. */
  lemma RelayedInOrder(s0: ClientState, sendOps: seq<Op>, r0: ClientState, readOps: seq<Op>)
    requires Valid(s0) && s0.pending == 0 && s0.wire == [] && s0.accepted == []
    requires Valid(r0) && r0.state == Disconnected
    requires RunLeavesStagedAlone(s0, sendOps) && PublishesEncodable(sendOps) && RunLosesNoInput(r0, readOps)
    ensures var s, r := Run(s0, sendOps), Run(r0, readOps);
            var published := Published(s0, sendOps, []);
            r.state == Connected && Relayed(s, r) && (forall p :: p in s.accepted ==> |p| <= r.rxSize) ==>
              && r.delivered <= published
              && Parse(r.rxSize, AfterConnack(r.received)).status == OK
              && (AfterConnack(r.received) == s.wire && s.pending == 0 && r.rx == [] ==> r.delivered == published)
  {
    hide Run, RunLeavesStagedAlone, RunLosesNoInput, Published, Parse, Concat, Dispatch, Framed;
    var s, r := Run(s0, sendOps), Run(r0, readOps);
    SenderCarries(s0, sendOps);
    InboundStream(r0, readOps);
    if r.state == Connected && Relayed(s, r) && forall p :: p in s.accepted ==> |p| <= r.rxSize {
      ReceiverDelivers(r, s.accepted, Published(s0, sendOps, []));
      assert s.pending == 0 ==> s.wire + Staged(s) == s.wire;
    }
  }

  /** A broker has sent the receiver, behind its CONNACK, some of a stream of packets. The
      PUBLISHes among them are the first of those that it can cut out of what the sender's
      transport took; the others, PINGRESP or SUBACK say, are its own. */
  ghost predicate Forwarded(sender: ClientState, receiver: ClientState, packets: seq<seq<byte>>) {
    && Acked(receiver.received) && AfterConnack(receiver.received) <= Concat(packets)
    && OnlyPublishes(packets) <= OnlyPublishes(Split(sender.wire))
    && forall p :: p in packets ==> |p| <= receiver.rxSize && (!IsPublish(p) ==> Framed(p))
  }

  ghost predicate AllForwarded(sender: ClientState, packets: seq<seq<byte>>) {
    sender.pending == 0 && OnlyPublishes(packets) == OnlyPublishes(Split(sender.wire))
  }

  /** What the broker forwards can be read, and carries the first of the messages. */
  lemma ForwardedReadable(s: ClientState, r: ClientState, packets: seq<seq<byte>>, published: seq<Message>)
    requires Valid(s) && StreamInv(s) && Carries(s, published) && Forwarded(s, r, packets)
    ensures forall p :: p in packets ==> Readable(r.rxSize, p)
    ensures Deliveries(packets) <= published
    ensures AllForwarded(s, packets) ==> Deliveries(packets) == published
  {
    hide Framed, Dispatch, MessagesOf, Concat, Deliveries, OnlyPublishes, Split;
    SplitPrefix(s.accepted, s.wire, Staged(s));
    var seen := Split(s.wire);
    forall p | p in packets
      ensures Readable(r.rxSize, p)
    {
      if IsPublish(p) {
        OnlyPublishesHas(packets, p);
        OnlyPublishesHas(seen, p);
        assert p in s.accepted;
      } else {
        FramedNotEmpty(p);
        OtherMessages(p);
      }
    }
    DeliveriesOfPublishes(packets);
    DeliveriesOfPublishes(seen);
    DeliveriesOfPrefix(OnlyPublishes(packets), OnlyPublishes(seen));
    DeliveriesOfPrefix(seen, s.accepted);
    if s.pending == 0 {
      assert s.wire + Staged(s) == s.wire;
      SplitConcat(s.accepted);
    }
  }

  /** The same two runs with a broker between them: the receiver has delivered a prefix of
      what was published, without error, and all of it once everything was forwarded, read
      and used up. */
  lemma ForwardedInOrder(s0: ClientState, sendOps: seq<Op>, r0: ClientState, readOps: seq<Op>,
                         packets: seq<seq<byte>>)
    requires Valid(s0) && s0.pending == 0 && s0.wire == [] && s0.accepted == []
    requires Valid(r0) && r0.state == Disconnected
    requires RunLeavesStagedAlone(s0, sendOps) && PublishesEncodable(sendOps) && RunLosesNoInput(r0, readOps)
    ensures var s, r := Run(s0, sendOps), Run(r0, readOps);
            var published := Published(s0, sendOps, []);
            r.state == Connected && Forwarded(s, r, packets) ==>
              && r.delivered <= published
              && Parse(r.rxSize, AfterConnack(r.received)).status == OK
              && (AllForwarded(s, packets) && AfterConnack(r.received) == Concat(packets) && r.rx == [] ==>
                    r.delivered == published)
  {
    hide Run, RunLeavesStagedAlone, RunLosesNoInput, Published, Parse, Concat, Carries, Forwarded, Readable;
    var s, r := Run(s0, sendOps), Run(r0, readOps);
    SenderCarries(s0, sendOps);
    InboundStream(r0, readOps);
    if r.state == Connected && Forwarded(s, r, packets) {
      var published := Published(s0, sendOps, []);
      ForwardedReadable(s, r, packets, published);
      assert AfterConnack(r.received) <= Concat(packets) by { ForwardedPart(s, r, packets); }
      ReceiverDelivers(r, packets, published);
    }
  }

  lemma ForwardedPart(s: ClientState, r: ClientState, packets: seq<seq<byte>>)
    requires Forwarded(s, r, packets)
    ensures Acked(r.received) && AfterConnack(r.received) <= Concat(packets)
  {
  }
}
