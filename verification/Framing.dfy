/** Cutting a byte stream into packets through a buffer of `cap` bytes.

    `Parse` is the one-shot reading of a whole stream; the theorem of this module is
    that it can be interrupted anywhere and resumed from what it left over. */
module Framing {
  import opened Bytes
  import opened Statuses
  import opened Packets
  import H = FixedHeader

  /** What a packet delivers: a PUBLISH its message, any other known packet nothing. */
  function Dispatch(packet: seq<byte>, h: H.Header): Decoded<seq<Message>> {
    if h.kind == H.PUBLISH then
      match DecodePublish(packet, h)
      case Got(m) => Got([m])
      case Fail(status) => Fail(status)
    else Got([])
  }

  /** The part of the stream that a buffer of `cap` bytes can show. */
  function Window(cap: nat, s: seq<byte>): seq<byte> {
    if |s| <= cap then s else s[..cap]
  }

  datatype Front =
    | Incomplete
    | Stuck(status: Status)
    | Whole(length: nat, messages: seq<Message>)

  /** What stands at the front of the stream. */
  function FrontOf(cap: nat, s: seq<byte>): (r: Front)
    ensures r.Whole? ==> 2 <= r.length <= |s|
  {
    H.DecodeBounds(Window(cap, s));
    match H.Decode(Window(cap, s))
    case Fail(status) =>
      if status != TOO_SMALL then Stuck(status)
      else if |s| >= cap then Stuck(TOO_SMALL)
      else Incomplete
    case Got(h) =>
      if h.PacketLength() > cap then Stuck(TOO_SMALL)
      else if h.PacketLength() > |s| then Incomplete
      else match Dispatch(s[..h.PacketLength()], h)
        case Got(messages) => Whole(h.PacketLength(), messages)
        case Fail(status) => Stuck(status)
  }

  /** The body of a PUBLISH at QoS 0 is too short for the topic that it announces. */
  predicate CutsTopic(s: seq<byte>, h: H.Header)
    requires h.PacketLength() <= |s|
  {
    h.remaining < 2 || h.remaining < 2 + (256 * s[h.size] as int + s[h.size + 1] as int)
  }

  /** What the front of a full or filling buffer is found to be. */
  lemma FrontExactly(cap: nat, s: seq<byte>)
    requires 0 < |s| <= cap
    ensures var d, front := H.Decode(s), FrontOf(cap, s);
            match d
            case Fail(status) =>
              if status == VIOLATION then front == Stuck(Status(Protocol, ProtocolViolation))
              else front == if |s| == cap then Stuck(Status(Protocol, BufferTooSmall)) else Incomplete
            case Got(h) =>
              if h.PacketLength() > cap then front == Stuck(Status(Protocol, BufferTooSmall))
              else if h.PacketLength() > |s| then front == Incomplete
              else if h.kind != 3 then front == Whole(h.PacketLength(), [])
              else if h.flags / 2 % 4 != 0 then front == Stuck(Status(Protocol, Unsupported))
              else if CutsTopic(s, h) then front == Stuck(Status(Protocol, Malformed))
              else front.Whole? && front.length == h.PacketLength() && |front.messages| == 1
  {
    hide H.Decode;
    H.DecodeBounds(s);
    assert Window(cap, s) == s;
    if H.Decode(s).Got? && H.Decode(s).value.PacketLength() <= |s| {
      var h := H.Decode(s).value;
      PublishRefusedExactly(s[..h.PacketLength()], h);
    }
  }

  datatype Parsed = Parsed(log: seq<Message>, rest: seq<byte>, status: Status)

  function Before(log: seq<Message>, p: Parsed): Parsed {
    p.(log := log + p.log)
  }

  lemma BeforeNothing(p: Parsed)
    ensures Before([], p) == p && Before(p.log, p.(log := [])) == p
  {
    assert [] + p.log == p.log && p.log + [] == p.log;
  }

  lemma LogsJoin(a: seq<Message>, b: seq<Message>, c: seq<Message>)
    ensures a + (b + c) == a + b + c
  {
  }

  lemma BeforeTwice(first: seq<Message>, second: seq<Message>, p: Parsed)
    ensures Before(first, Before(second, p)) == Before(first + second, p)
  {
    assert first + (second + p.log) == first + second + p.log;
  }

  function Parse(cap: nat, s: seq<byte>): (r: Parsed)
    ensures |r.rest| <= |s|
    decreases |s|
  {
    if s == [] then Parsed([], [], OK)
    else match FrontOf(cap, s)
      case Incomplete => Parsed([], s, OK)
      case Stuck(status) => Parsed([], s, status)
      case Whole(length, messages) => Before(messages, Parse(cap, s[length..]))
  }

  // ----- chunking independence -----

  /** Bytes that arrive later never change what has been found at the front. */
  lemma FrontStable(cap: nat, s: seq<byte>, more: seq<byte>)
    ensures !FrontOf(cap, s).Incomplete? ==> FrontOf(cap, s + more) == FrontOf(cap, s)
    ensures FrontOf(cap, s).Incomplete? ==> |s| < cap
  {
    var w := Window(cap, s);
    if |s| >= cap {
      assert Window(cap, s + more) == w;
    } else {
      var extra := Window(cap, s + more)[|s|..];
      assert Window(cap, s + more) == w + extra;
      H.DecodeStable(w, extra);
    }
    if H.Decode(w).Got? && H.Decode(w).value.PacketLength() <= |s| {
      var n := H.Decode(w).value.PacketLength();
      assert (s + more)[..n] == s[..n];
    }
  }

  function Resume(cap: nat, p: Parsed, more: seq<byte>): Parsed {
    if p.status == OK then Before(p.log, Parse(cap, p.rest + more))
    else p.(rest := p.rest + more)
  }

  /** However the stream is split in two, parsing the halves in turn is parsing the whole. */
  lemma {:induction false} ParseSplit(cap: nat, s: seq<byte>, more: seq<byte>)
    ensures Parse(cap, s + more) == Resume(cap, Parse(cap, s), more)
    decreases |s|
  {
    if s == [] {
      assert [] + more == more;
      assert [] + Parse(cap, more).log == Parse(cap, more).log;
    } else {
      FrontStable(cap, s, more);
      hide FrontOf;
      match FrontOf(cap, s) {
        case Incomplete =>
          assert [] + Parse(cap, s + more).log == Parse(cap, s + more).log;
        case Stuck(_) =>
        case Whole(length, messages) =>
          assert (s + more)[length..] == s[length..] + more;
          ParseSplit(cap, s[length..], more);
          var p, q := Parse(cap, s[length..]), Parse(cap, Parse(cap, s[length..]).rest + more);
          LogsJoin(messages, p.log, q.log);
      }
    }
  }

  /** What is left over parses to nothing more, with the same verdict. */
  lemma {:induction false} ParseRest(cap: nat, s: seq<byte>)
    ensures var p := Parse(cap, s); Parse(cap, p.rest) == Parsed([], p.rest, p.status)
    decreases |s|
  {
    if s != [] && FrontOf(cap, s).Whole? {
      ParseRest(cap, s[FrontOf(cap, s).length..]);
    }
  }

  /** An error is final: whatever follows, the verdict stays and nothing is delivered. */
  lemma StuckForGood(cap: nat, s: seq<byte>, more: seq<byte>)
    requires Parse(cap, s).status != OK
    ensures var p := Parse(cap, s);
            && Parse(cap, s + more) == p.(rest := p.rest + more)
            && Parse(cap, p.rest + more) == Parsed([], p.rest + more, p.status)
  {
    ParseSplit(cap, s, more);
    ParseRest(cap, s);
    ParseSplit(cap, Parse(cap, s).rest, more);
  }

  /** A buffer that holds what is left over, and then more, continues the whole stream. */
  lemma ParseContinue(cap: nat, s: seq<byte>, more: seq<byte>)
    ensures var p := Parse(cap, s);
            Parse(cap, s + more) == Before(p.log, Parse(cap, p.rest + more))
  {
    var p := Parse(cap, s);
    if p.status == OK {
      ParseSplit(cap, s, more);
    } else {
      StuckForGood(cap, s, more);
      assert p.log + [] == p.log;
    }
  }

  /** After an OK verdict the buffer has room for at least one more byte. */
  lemma {:induction false} ParseRoom(cap: nat, s: seq<byte>)
    requires cap > 0
    ensures Parse(cap, s).status == OK ==> |Parse(cap, s).rest| < cap
    decreases |s|
  {
    if s != [] {
      FrontStable(cap, s, []);
      if FrontOf(cap, s).Whole? {
        ParseRoom(cap, s[FrontOf(cap, s).length..]);
      }
    }
  }

  /** The log of a prefix is a prefix of the log. */
  lemma LogMonotone(cap: nat, s: seq<byte>, more: seq<byte>)
    ensures Parse(cap, s).log <= Parse(cap, s + more).log
  {
    ParseContinue(cap, s, more);
  }

  // ----- the stream of a sender -----

  function PublishStream(sent: seq<Message>): seq<seq<byte>> {
    seq(|sent|, i requires 0 <= i < |sent| => PublishPacket(sent[i]))
  }

  predicate Deliverable(cap: nat, m: Message) {
    Encodable(m) && |PublishPacket(m)| <= cap
  }

  lemma PublishAtFront(cap: nat, m: Message, more: seq<byte>)
    requires Deliverable(cap, m)
    ensures FrontOf(cap, PublishPacket(m) + more) == Whole(|PublishPacket(m)|, [m])
  {
    var p := PublishPacket(m);
    var extra := Window(cap, p + more)[|p|..];
    assert Window(cap, p + more) == p + extra;
    PublishRoundTrip(m, extra);
    assert (p + more)[..|p|] == p;
    H.DecodeBounds(Window(cap, p + more));
  }

  /** Parsing the concatenated packets of any messages gives those messages back. */
  lemma {:induction false} ParsePublishes(cap: nat, sent: seq<Message>)
    requires forall m :: m in sent ==> Deliverable(cap, m)
    ensures Parse(cap, Concat(PublishStream(sent))) == Parsed(sent, [], OK)
    decreases |sent|
  {
    if sent != [] {
      var tail := sent[1..];
      assert PublishStream(sent) == [PublishPacket(sent[0])] + PublishStream(tail);
      var p, more := PublishPacket(sent[0]), Concat(PublishStream(tail));
      PublishAtFront(cap, sent[0], more);
      ParsePublishes(cap, tail);
      assert (p + more)[|p|..] == more;
      assert sent == [sent[0]] + tail;
    }
  }

  // ----- splitting without a buffer -----

  /** Splits a stream at the lengths its headers announce. */
  function Split(s: seq<byte>): seq<seq<byte>>
    decreases |s|
  {
    H.DecodeBounds(s);
    if H.Decode(s).Got? && H.Decode(s).value.PacketLength() <= |s| then
      var n := H.Decode(s).value.PacketLength();
      [s[..n]] + Split(s[n..])
    else []
  }

  /** Cut short anywhere, the stream still splits into the first of the packets. */
  lemma {:induction false} SplitPrefix(packets: seq<seq<byte>>, part: seq<byte>, rest: seq<byte>)
    requires (forall p :: p in packets ==> Framed(p)) && part + rest == Concat(packets)
    ensures Split(part) <= packets
    decreases |packets|
  {
    if packets != [] {
      var p, more := packets[0], Concat(packets[1..]);
      assert p in packets && Framed(p);
      H.DecodeBounds(p);
      assert part == (p + more)[..|part|];
      if |part| < |p| {
        assert p == part + p[|part|..];
        H.DecodeStable(part, p[|part|..]);
      } else {
        assert part == p + part[|p|..];
        H.DecodeStable(p, part[|p|..]);
        assert part[|p|..] + rest == (part + rest)[|p|..] == more;
        SplitPrefix(packets[1..], part[|p|..], rest);
        assert packets == [p] + packets[1..];
      }
    }
  }

  /** Concatenated packets split again in exactly one way. */
  lemma {:induction false} SplitConcat(packets: seq<seq<byte>>)
    requires forall p :: p in packets ==> Framed(p)
    ensures Split(Concat(packets)) == packets
    decreases |packets|
  {
    if packets != [] {
      var p, more, s := packets[0], Concat(packets[1..]), Concat(packets);
      H.DecodeStable(p, more);
      H.DecodeBounds(p);
      assert p in packets && Framed(p);
      assert s[..|p|] == p && s[|p|..] == more;
      SplitConcat(packets[1..]);
      assert packets == [p] + packets[1..];
    }
  }
}
