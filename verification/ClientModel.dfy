/** The client as a state with one transition per public call.

    What the transport and the clock answer are arguments of the transition, so a
    statement about every argument is one about every network and every clock. The
    state also carries the history of the current connection attempt: what the
    transport took and gave, which packets were accepted, what was delivered. */
module ClientModel {
  import opened Bytes
  import opened Statuses
  import opened Packets
  import opened Framing
  import H = FixedHeader

  // ----- answers from outside -----

  /** A write takes as much as there is room for, or nothing when it is refused. */
  datatype WriteReply = WriteReply(status: Status, room: nat) {
    function Taken(len: nat): (n: nat)
      ensures n <= len
    {
      if status == OK then Min(len, room) else 0
    }
  }

  /** A read gives what is available and fits, or nothing when it is refused. */
  datatype ReadReply = ReadReply(status: Status, avail: seq<byte>) {
    function Given(len: nat): (r: seq<byte>)
      ensures |r| <= len
    {
      if status == OK then avail[..Min(len, |avail|)] else []
    }
  }

  /** All that one poll can ask for; which answers it uses depends on the state. */
  datatype PollEnv = PollEnv(
    flush: WriteReply,
    connect: Status,
    ackRead: ReadReply,
    coreNow: u64,
    read: ReadReply,
    now: u64,
    send: WriteReply)

  // ----- the state -----

  datatype ConnState = Disconnected | Connecting | ConnectSent | Connected | Disconnecting

  datatype ClientState = ClientState(
    state: ConnState,
    tx: seq<byte>,             // the whole transmit buffer
    pending: nat,              // how much of its front is staged
    rx: seq<byte>,             // the filled part of the receive buffer
    rxSize: nat,
    interval: u64,
    lastActivity: u64,
    packetId: u16,
    connectSent: bool,
    linkUp: bool,              // the transport was connected and not yet disconnected
    // since the last accepted connect call:
    wire: seq<byte>,           // taken by the transport
    accepted: seq<seq<byte>>,  // packets that a send answered with OK
    received: seq<byte>,       // given by the transport
    delivered: seq<Message>,   // passed to the message callback
    pings: seq<u64>,           // clock readings of the accepted PINGREQs
    connectedAt: u64)          // clock reading when the transport connected

  ghost predicate Valid(s: ClientState) {
    0 < |s.tx| && 0 < s.rxSize && s.pending <= |s.tx| && |s.rx| <= s.rxSize
  }

  function Staged(s: ClientState): seq<byte>
    requires s.pending <= |s.tx|
  {
    s.tx[..s.pending]
  }

  type Outcome = (ClientState, Status)

  const CONNACK_TIMEOUT_MS := 5000

  /** Unsigned 64-bit difference of two clock readings. */
  function Elapsed(now: u64, since: u64): u64 {
    (now - since) % U64_SIZE
  }

  function KeepAliveSeconds(interval: u64): u16 {
    interval / 1000 % U16_SIZE
  }

  // ----- sending -----

  /** Sends the first `len` bytes of the transmit buffer; an unsent rest is moved to
      its front. Refused while an earlier rest is still there. */
  function Send(s: ClientState, len: nat, reply: WriteReply): (r: Outcome)
    requires Valid(s) && len <= |s.tx|
    ensures Valid(r.0)
  {
    if s.pending > 0 then (s, BUSY)
    else if Hard(reply.status) then (s, reply.status)
    else
      var written := reply.Taken(len);
      var s1 := s.(wire := s.wire + s.tx[..written], accepted := s.accepted + [s.tx[..len]]);
      if written < len then
        (s1.(tx := Splice(s.tx, 0, s.tx[written..len]), pending := len - written), OK)
      else (s1, OK)
  }

  function SendEncoded(s: ClientState, e: Encoded, reply: WriteReply): (r: Outcome)
    requires Valid(s) && |e.buf| == |s.tx| && e.outLen <= |e.buf|
    ensures Valid(r.0)
  {
    var s1 := s.(tx := e.buf);
    if e.status != OK then (s1, e.status) else Send(s1, e.outLen, reply)
  }

  function FlushPending(s: ClientState, reply: WriteReply): (r: Outcome)
    requires Valid(s)
    ensures Valid(r.0)
  {
    if s.pending == 0 then (s, OK)
    else if Hard(reply.status) then (s, reply.status)
    else
      var written := reply.Taken(s.pending);
      (s.(wire := s.wire + s.tx[..written],
          tx := Splice(s.tx, 0, s.tx[written..s.pending]),
          pending := s.pending - written), OK)
  }

  function ConnectEncoding(s: ClientState): (e: Encoded)
    ensures |e.buf| == |s.tx| && e.outLen <= |s.tx|
  {
    Encoding(s.tx, CONNECT_BYTE, ConnectFields([], KeepAliveSeconds(s.interval)))
  }

  function SendConnect(s: ClientState, reply: WriteReply): (r: Outcome)
    requires Valid(s)
    ensures Valid(r.0)
  {
    SendEncoded(s, ConnectEncoding(s), reply)
  }

  function SendPing(s: ClientState, reply: WriteReply): (r: Outcome)
    requires Valid(s)
    ensures Valid(r.0)
  {
    SendEncoded(s, EncodingPingreq(s.tx), reply)
  }

  // ----- receiving -----

  function Receive(s: ClientState, reply: ReadReply): (r: ClientState)
    requires Valid(s)
    ensures Valid(r)
  {
    var given := reply.Given(s.rxSize - |s.rx|);
    s.(rx := s.rx + given, received := s.received + given)
  }

  function ClientRead(s: ClientState, reply: ReadReply): (r: Outcome)
    requires Valid(s)
    ensures Valid(r.0)
  {
    if Hard(reply.status) then (s, reply.status)
    else
      var s1 := Receive(s, reply);
      var p := Parse(s1.rxSize, s1.rx);
      (s1.(rx := p.rest, delivered := s1.delivered + p.log), p.status)
  }

  // ----- the connection state machine -----

  function Drop(s: ClientState): ClientState {
    s.(state := Disconnected, linkUp := false)
  }

  function CheckTimeout(s: ClientState, now: u64): Outcome {
    if Elapsed(now, s.lastActivity) >= CONNACK_TIMEOUT_MS then (Drop(s), Status(General, Timeout))
    else (s, OK)
  }

  function AwaitConnack(s: ClientState, env: PollEnv): (r: Outcome)
    requires Valid(s)
    ensures Valid(r.0)
  {
    if Hard(env.ackRead.status) then (Drop(s), env.ackRead.status)
    else
      JudgeConnack(Receive(s, env.ackRead), env.coreNow)
  }

  /** Acts on the CONNACK once it is complete; otherwise only the clock can end the wait. */
  function JudgeConnack(s: ClientState, now: u64): (r: Outcome)
    requires Valid(s)
    ensures Valid(r.0)
  {
    if s.rx == [] then CheckTimeout(s, now)
    else match H.Decode(s.rx)
      case Fail(status) =>
        if status.code != BufferTooSmall then (Drop(s), status) else CheckTimeout(s, now)
      case Got(h) =>
        if h.kind != H.CONNACK then (Drop(s), VIOLATION)
        else if h.PacketLength() > s.rxSize then (Drop(s), TOO_SMALL)
        else if h.PacketLength() > |s.rx| then CheckTimeout(s, now)
        else TakeConnack(s, h.PacketLength(), now)
  }

  /** Consumes the CONNACK, accepted or not, and keeps what came behind it. */
  function TakeConnack(s: ClientState, length: nat, now: u64): (r: Outcome)
    requires Valid(s) && length <= |s.rx|
    ensures Valid(r.0)
  {
    var ack := DecodeConnack(s.rx[..length]);
    var s1 := s.(rx := s.rx[length..]);
    if ack.Got? && ack.value.returnCode == 0 then (s1.(state := Connected, lastActivity := now), OK)
    else (Drop(s1), Status(Protocol, ConnectFailed))
  }

  function ConnectTransport(s: ClientState, env: PollEnv): Outcome {
    if env.connect == OK then
      (s.(state := ConnectSent, lastActivity := env.coreNow, connectedAt := env.coreNow, linkUp := true), OK)
    else if env.connect.code == WouldBlock then (s, OK)
    else (s.(state := Disconnected), env.connect)
  }

  function CorePoll(s: ClientState, env: PollEnv): (r: Outcome)
    requires Valid(s)
    ensures Valid(r.0)
  {
    match s.state
    case Disconnected => (s, OK)
    case Connecting => ConnectTransport(s, env)
    case ConnectSent => AwaitConnack(s, env)
    case Connected => (s, OK)
    case Disconnecting => (Drop(s), OK)
  }

  // ----- public calls -----

  function Init(tx: seq<byte>, rxSize: nat, interval: u64, now: u64): ClientState {
    ClientState(Disconnected, tx, 0, [], rxSize, interval, now, 1, false, false, [], [], [], [], [], 0)
  }

  /** Clears both buffers before it looks at the state. */
  function Connect(s: ClientState): (r: Outcome)
    requires Valid(s)
    ensures Valid(r.0)
  {
    var s1 := s.(pending := 0, rx := []);
    if s.state != Disconnected then (s1, Status(General, StateInvalid))
    else (s1.(state := Connecting, connectSent := false,
              wire := [], accepted := [], received := [], delivered := [], pings := []), OK)
  }

  function Disconnect(s: ClientState): (r: Outcome)
    requires Valid(s)
    ensures Valid(r.0)
  {
    if s.state != Connected then (s, Status(General, StateInvalid))
    else (s.(state := Disconnecting), OK)
  }

  function Publish(s: ClientState, m: Message, qos: int, reply: WriteReply): (r: Outcome)
    requires Valid(s)
    ensures Valid(r.0)
  {
    if qos != 0 then (s, Status(General, Unsupported))
    else SendEncoded(s, Encoding(s.tx, PUBLISH_BYTE, PublishFields(m)), reply)
  }

  function NextPacketId(id: u16): u16 {
    var next := (id + 1) % U16_SIZE;
    if next == 0 then 1 else next
  }

  function Subscribe(s: ClientState, topic: seq<byte>, qos: int, reply: WriteReply): (r: Outcome)
    requires Valid(s)
    ensures Valid(r.0)
  {
    if qos != 0 then (s, Status(General, Unsupported))
    else
      var s1 := s.(packetId := NextPacketId(s.packetId));
      SendEncoded(s1, Encoding(s1.tx, SUBSCRIBE_BYTE, SubscribeFields(s1.packetId, topic)), reply)
  }

  /** What a poll does once the staged bytes and the state machine have had their turn. */
  function PollIo(s: ClientState, env: PollEnv): (r: Outcome)
    requires Valid(s)
    ensures Valid(r.0)
  {
    match s.state
    case ConnectSent =>
      if s.connectSent then (s, OK)
      else
        var (s1, status) := SendConnect(s, env.send);
        if status != OK then (s1, status) else (s1.(connectSent := true), OK)
    case Connected =>
      var (s1, status) := ClientRead(s, env.read);
      if status != OK then (s1, status) else KeepAlive(s1, env)
    case _ => (s, OK)
  }

  function KeepAlive(s: ClientState, env: PollEnv): (r: Outcome)
    requires Valid(s)
    ensures Valid(r.0)
  {
    if Elapsed(env.now, s.lastActivity) < s.interval then (s, OK)
    else
      var (s1, status) := SendPing(s, env.send);
      if status != OK then (s1, status)
      else (s1.(lastActivity := env.now, pings := s1.pings + [env.now]), OK)
  }

  function Poll(s: ClientState, env: PollEnv): (r: Outcome)
    requires Valid(s)
    ensures Valid(r.0)
  {
    var (s1, flushed) := FlushPending(s, env.flush);
    if flushed != OK then (s1, flushed)
    else
      var (s2, core) := CorePoll(s1, env);
      if core != OK then (s2, core) else PollIo(s2, env)
  }

  // ----- runs -----

  datatype Op =
    | OpConnect
    | OpDisconnect
    | OpPublish(topic: CString, payload: seq<byte>, qos: int, reply: WriteReply)
    | OpSubscribe(topic: CString, qos: int, reply: WriteReply)
    | OpPoll(env: PollEnv)

  function Apply(s: ClientState, op: Op): (r: Outcome)
    requires Valid(s)
    ensures Valid(r.0)
  {
    match op
    case OpConnect => Connect(s)
    case OpDisconnect => Disconnect(s)
    case OpPublish(topic, payload, qos, reply) => Publish(s, Message(topic, payload), qos, reply)
    case OpSubscribe(topic, qos, reply) => Subscribe(s, topic, qos, reply)
    case OpPoll(env) => Poll(s, env)
  }

  function Run(s: ClientState, ops: seq<Op>): (r: ClientState)
    requires Valid(s)
    ensures Valid(r)
    decreases |ops|
  {
    if ops == [] then s else Run(Apply(s, ops[0]).0, ops[1..])
  }
}
