/** The client object: caller-owned buffers, counters, and the calls that update
    them in place, each proved to take the transition of ClientModel. */
module Client {
  import opened Bytes
  import opened Statuses
  import opened Packets
  import opened Framing
  import opened ClientModel
  import H = FixedHeader

  /** A transport that answers as it is told and remembers what went through it. */
  class Transport {
    var connected: bool
    ghost var wire: seq<byte>
    ghost var received: seq<byte>

    constructor ()
      ensures !connected && wire == [] && received == []
    {
      connected, wire, received := false, [], [];
    }

    method Connect(reply: Status) returns (status: Status)
      modifies this`connected
      ensures status == reply
      ensures connected == (old(connected) || reply == OK)
    {
      if reply == OK {
        connected := true;
      }
      return reply;
    }

    method Disconnect()
      modifies this`connected
      ensures !connected
    {
      connected := false;
    }

    /** The count is meaningless when the write is refused. */
    method Write(buf: array<byte>, len: nat, reply: WriteReply) returns (status: Status, written: nat)
      requires len <= buf.Length
      modifies this`wire
      ensures status == reply.status
      ensures status == OK ==> written == reply.Taken(len)
      ensures wire == old(wire) + buf[..reply.Taken(len)]
      ensures status != OK ==> wire == old(wire)
    {
      wire := wire + buf[..reply.Taken(len)];
      return reply.status, Min(len, reply.room);
    }

    /** A refused read may have scribbled on the free part of the buffer; its count is
        meaningless. */
    method Read(buf: array<byte>, from: nat, len: nat, reply: ReadReply) returns (status: Status, read: nat)
      requires from + len <= buf.Length
      modifies this`received, buf
      ensures status == reply.status
      ensures status == OK ==> read == |reply.Given(len)| && buf[..from + read] == old(buf[..from]) + reply.Given(len)
      ensures buf[..from] == old(buf[..from])
      ensures received == old(received) + reply.Given(len)
      ensures status != OK ==> received == old(received)
    {
      read := Min(len, |reply.avail|);
      Memcpy(buf, from, reply.avail[..read]);
      received := received + reply.Given(len);
      return reply.status, read;
    }
  }

  class Client {
    const txBuffer: array<byte>
    const rxBuffer: array<byte>
    const transport: Transport
    const keepAliveIntervalMs: u64

    var state: ConnState
    var lastActivityMs: u64
    var packetId: u16
    var connectSent: bool
    var txPendingLen: nat
    var rxLen: nat

    ghost var accepted: seq<seq<byte>>
    ghost var delivered: seq<Message>
    ghost var pings: seq<u64>
    ghost var connectedAt: u64

    ghost predicate Ok()
      reads this
    {
      && 0 < txBuffer.Length && 0 < rxBuffer.Length && txBuffer != rxBuffer
      && txPendingLen <= txBuffer.Length && rxLen <= rxBuffer.Length
    }

    ghost function View(): (s: ClientState)
      requires Ok()
      reads this, txBuffer, rxBuffer, transport
      ensures Valid(s)
    {
      ClientState(state, txBuffer[..], txPendingLen, rxBuffer[..rxLen], rxBuffer.Length,
                  keepAliveIntervalMs, lastActivityMs, packetId, connectSent, transport.connected,
                  transport.wire, accepted, transport.received, delivered, pings, connectedAt)
    }

    constructor (tx: array<byte>, rx: array<byte>, transport: Transport, interval: u64, now: u64)
      requires 0 < tx.Length && 0 < rx.Length && tx != rx
      requires !transport.connected && transport.wire == [] && transport.received == []
      ensures Ok() && txBuffer == tx && rxBuffer == rx && this.transport == transport
      ensures View() == Init(tx[..], rx.Length, interval, now)
    {
      txBuffer, rxBuffer, this.transport, keepAliveIntervalMs := tx, rx, transport, interval;
      state, lastActivityMs, packetId, connectSent := Disconnected, now, 1, false;
      txPendingLen, rxLen := 0, 0;
      accepted, delivered, pings, connectedAt := [], [], [], 0;
    }

    // ----- sending -----

    /** Sends the front of the transmit buffer. */
    method ClientSend(len: nat, reply: WriteReply) returns (status: Status)
      requires Ok() && len <= txBuffer.Length
      modifies this`txPendingLen, this`accepted, txBuffer, transport`wire
      ensures Ok() && (View(), status) == Send(old(View()), len, reply)
    {
      hide Splice;
      if txPendingLen > 0 {
        return BUSY;
      }
      ghost var packet := txBuffer[..len];
      var written;
      status, written := transport.Write(txBuffer, len, reply);
      if status != OK && status.code != WouldBlock {
        return status;
      }
      if status.code == WouldBlock {
        written := 0;
      }
      assert written == reply.Taken(len);
      if written < len {
        var remaining := len - written;
        ghost var before := txBuffer[..];
        assert txBuffer[written..written + remaining] == before[written..len];
        Memmove(txBuffer, 0, written, remaining);
        assert txBuffer[..] == Splice(before, 0, before[written..len]);
        txPendingLen := remaining;
      }
      accepted := accepted + [packet];
      return OK;
    }

    /** Resumes a partial write; runs before anything else in a poll. */
    method FlushPendingBytes(reply: WriteReply) returns (status: Status)
      requires Ok()
      modifies this`txPendingLen, txBuffer, transport`wire
      ensures Ok() && (View(), status) == FlushPending(old(View()), reply)
    {
      hide Splice;
      if txPendingLen == 0 {
        return OK;
      }
      ghost var before := txBuffer[..];
      var written;
      status, written := transport.Write(txBuffer, txPendingLen, reply);
      if status != OK && status.code != WouldBlock {
        return status;
      }
      if status.code == WouldBlock {
        written := 0;
      }
      SpliceSame(before, txPendingLen);
      assert before[0..txPendingLen] == before[..txPendingLen];
      assert written == txPendingLen ==> before[written..txPendingLen] == [];
      if written > 0 {
        txPendingLen := txPendingLen - written;
        if txPendingLen > 0 {
          Memmove(txBuffer, 0, written, txPendingLen);
        }
      }
      return OK;
    }

    method SendConnectPacket(reply: WriteReply) returns (status: Status)
      requires Ok()
      modifies this, txBuffer, transport
      ensures Ok() && (View(), status) == SendConnect(old(View()), reply)
    {
      var outLen;
      var keepAliveSec: u16 := keepAliveIntervalMs / 1000 % U16_SIZE;
      status, outLen := EncodeConnect(txBuffer, [], keepAliveSec);
      if status != OK {
        return status;
      }
      status := ClientSend(outLen, reply);
    }

    method SendPingreq(reply: WriteReply) returns (status: Status)
      requires Ok()
      modifies this, txBuffer, transport
      ensures Ok() && (View(), status) == SendPing(old(View()), reply)
    {
      var outLen;
      status, outLen := EncodePingreq(txBuffer);
      if status != OK {
        return status;
      }
      status := ClientSend(outLen, reply);
    }

    // ----- receiving -----

    method DispatchPacket(h: H.Header, length: nat) returns (status: Status)
      requires Ok() && length <= rxLen
      modifies this`delivered
      ensures match Dispatch(rxBuffer[..length], h)
              case Got(messages) => status == OK && delivered == old(delivered) + messages
              case Fail(st) => status == st && delivered == old(delivered)
    {
      if h.kind == H.PUBLISH {
        var decoded := DecodePublish(rxBuffer[..length], h);
        if decoded.Fail? {
          return decoded.status;
        }
        delivered := delivered + [decoded.value];
      }
      return OK;
    }

    /** Appends what the transport has, then takes every complete packet off the front. */
    method ReadPackets(reply: ReadReply) returns (status: Status)
      requires Ok()
      modifies this, rxBuffer, transport
      ensures Ok() && (View(), status) == ClientRead(old(View()), reply)
    {
      var read;
      status, read := transport.Read(rxBuffer, rxLen, rxBuffer.Length - rxLen, reply);
      if status != OK && status.code != WouldBlock {
        return status;
      }
      if status.code == WouldBlock {
        read := 0;
      }
      rxLen := rxLen + read;
      assert View() == Receive(old(View()), reply);
      status := CutPackets();
    }

    method CutPackets() returns (status: Status)
      requires Ok()
      modifies this`rxLen, this`delivered, rxBuffer
      ensures Ok()
      ensures var p := Parse(rxBuffer.Length, old(rxBuffer[..rxLen]));
              rxBuffer[..rxLen] == p.rest && delivered == old(delivered) + p.log && status == p.status
    {
      ghost var cap, log, taken := rxBuffer.Length, delivered, [];
      ghost var whole := Parse(cap, rxBuffer[..rxLen]);
      BeforeNothing(whole);
      while true
        invariant rxLen <= cap && delivered == log + taken
        invariant whole == Before(taken, Parse(cap, rxBuffer[..rxLen]))
        decreases rxLen
      {
        if rxLen == 0 {
          return OK;
        }
        var more;
        ghost var messages;
        more, status, messages := CutFront();
        if !more {
          return;
        }
        BeforeTwice(taken, messages, Parse(cap, rxBuffer[..rxLen]));
        LogsJoin(log, taken, messages);
        taken := taken + messages;
      }
    }

    /** One round of the loop: dispatches and removes the packet at the front, or says
        how the loop ends. */
    method CutFront() returns (more: bool, status: Status, ghost messages: seq<Message>)
      requires Ok() && rxLen > 0
      modifies this`rxLen, this`delivered, rxBuffer
      ensures Ok() && delivered == old(delivered) + messages
      ensures Parse(rxBuffer.Length, old(rxBuffer[..rxLen]))
           == if more then Before(messages, Parse(rxBuffer.Length, rxBuffer[..rxLen]))
              else Parsed([], rxBuffer[..rxLen], status)
      ensures if more then rxLen < old(rxLen) else messages == []
    {
      messages := [];
      ghost var rx := rxBuffer[..rxLen];
      assert Window(rxBuffer.Length, rx) == rx;
      var decoded := H.DecodeFixedHeader(rxBuffer, rxLen);
      H.DecodeBounds(rx);
      if decoded.Fail? && decoded.status.code == BufferTooSmall {
        if rxLen == rxBuffer.Length {
          return false, TOO_SMALL, [];
        }
        return false, OK, [];
      }
      if decoded.Fail? {
        return false, decoded.status, [];
      }
      var h := decoded.value;
      var length := h.PacketLength();
      if length > rxBuffer.Length {
        return false, TOO_SMALL, [];
      }
      if length > rxLen {
        return false, OK, [];
      }
      assert rx[..length] == rxBuffer[..length];
      ghost var front := FrontOf(rxBuffer.Length, rx);
      status := DispatchPacket(h, length);
      if status != OK {
        return false, status, [];
      }
      TakeOff(length);
      assert rxBuffer[..rxLen] == rx[length..];
      return true, OK, front.messages;
    }

    /** Shifts the receive buffer down over a packet that has been dealt with. */
    method TakeOff(length: nat)
      requires Ok() && length <= rxLen
      modifies this`rxLen, rxBuffer
      ensures Ok() && rxBuffer[..rxLen] == old(rxBuffer[length..rxLen])
    {
      rxLen := rxLen - length;
      if rxLen > 0 {
        Memmove(rxBuffer, 0, length, rxLen);
      }
    }

    // ----- the connection state machine -----

    method DropTransport()
      requires Ok()
      modifies this`state, transport
      ensures Ok() && View() == Drop(old(View()))
    {
      transport.Disconnect();
      state := Disconnected;
    }

    method HandleConnecting(env: PollEnv) returns (status: Status)
      requires Ok()
      modifies this, transport
      ensures Ok() && (View(), status) == ConnectTransport(old(View()), env)
    {
      status := transport.Connect(env.connect);
      if status == OK {
        state := ConnectSent;
        lastActivityMs := env.coreNow;
        connectedAt := env.coreNow;
        return OK;
      }
      if status.code == WouldBlock {
        return OK;
      }
      state := Disconnected;
    }

    method HandleConnectSent(env: PollEnv) returns (status: Status)
      requires Ok()
      modifies this, rxBuffer, transport
      ensures Ok() && (View(), status) == AwaitConnack(old(View()), env)
    {
      var read;
      status, read := transport.Read(rxBuffer, rxLen, rxBuffer.Length - rxLen, env.ackRead);
      if status != OK && status.code != WouldBlock {
        DropTransport();
        return status;
      }
      if status.code == WouldBlock {
        read := 0;
      }
      rxLen := rxLen + read;
      assert View() == Receive(old(View()), env.ackRead);
      status := ExamineConnack(env.coreNow);
    }

    /** Looks for the CONNACK at the front of the buffer, then at the clock. */
    method ExamineConnack(now: u64) returns (status: Status)
      requires Ok()
      modifies this, rxBuffer, transport
      ensures Ok() && (View(), status) == JudgeConnack(old(View()), now)
    {
      if rxLen > 0 {
        var decoded := H.DecodeFixedHeader(rxBuffer, rxLen);
        match decoded {
          case Got(h) =>
            if h.kind != H.CONNACK {
              DropTransport();
              return VIOLATION;
            }
            if h.PacketLength() > rxBuffer.Length {
              DropTransport();
              return TOO_SMALL;
            }
            if h.PacketLength() <= rxLen {
              status := ConsumeConnack(h.PacketLength(), now);
              return;
            }
          case Fail(failure) =>
            if failure.code != BufferTooSmall {
              DropTransport();
              return failure;
            }
        }
      }
      if (now - lastActivityMs) % U64_SIZE >= CONNACK_TIMEOUT_MS {
        DropTransport();
        return Status(General, Timeout);
      }
      return OK;
    }

    method ConsumeConnack(length: nat, now: u64) returns (status: Status)
      requires Ok() && length <= rxLen
      modifies this, rxBuffer, transport
      ensures Ok() && (View(), status) == TakeConnack(old(View()), length, now)
    {
      assert rxBuffer[..rxLen][..length] == rxBuffer[..length];
      var ack := DecodeConnack(rxBuffer[..length]);
      TakeOff(length);
      assert View() == old(View()).(rx := old(View()).rx[length..]);
      if ack.Got? && ack.value.returnCode == 0 {
        state := Connected;
        lastActivityMs := now;
        return OK;
      }
      DropTransport();
      return Status(Protocol, ConnectFailed);
    }

    method PollCore(env: PollEnv) returns (status: Status)
      requires Ok()
      modifies this, rxBuffer, transport
      ensures Ok() && (View(), status) == CorePoll(old(View()), env)
    {
      match state {
        case Disconnected => return OK;
        case Connecting => status := HandleConnecting(env);
        case ConnectSent => status := HandleConnectSent(env);
        case Connected => return OK;
        case Disconnecting =>
          DropTransport();
          return OK;
      }
    }

    // ----- public calls -----

    method RequestConnect() returns (status: Status)
      requires Ok()
      modifies this, transport
      ensures Ok() && (View(), status) == Connect(old(View()))
    {
      txPendingLen := 0;
      rxLen := 0;
      assert rxBuffer[..rxLen] == [];
      assert View() == old(View()).(pending := 0, rx := []);
      status := StartConnecting();
    }

    /** The part of a connect call that looks at the state. */
    method StartConnecting() returns (status: Status)
      requires Ok() && txPendingLen == 0 && rxLen == 0
      modifies this`state, this`connectSent, this`accepted, this`delivered, this`pings, transport
      ensures Ok() && (View(), status) == Connect(old(View()))
    {
      assert rxBuffer[..rxLen] == [];
      if state != Disconnected {
        return Status(General, StateInvalid);
      }
      state := Connecting;
      connectSent := false;
      transport.wire, transport.received := [], [];
      accepted, delivered, pings := [], [], [];
      return OK;
    }

    method RequestDisconnect() returns (status: Status)
      requires Ok()
      modifies this
      ensures Ok() && (View(), status) == Disconnect(old(View()))
    {
      if state != Connected {
        return Status(General, StateInvalid);
      }
      state := Disconnecting;
      return OK;
    }

    method PublishMessage(topic: CString, payload: seq<byte>, qos: int, reply: WriteReply) returns (status: Status)
      requires Ok()
      modifies this, txBuffer, transport
      ensures Ok() && (View(), status) == Publish(old(View()), Message(topic, payload), qos, reply)
    {
      if qos != 0 {
        return Status(General, Unsupported);
      }
      var outLen;
      status, outLen := EncodePublish(txBuffer, topic, payload);
      if status != OK {
        return status;
      }
      status := ClientSend(outLen, reply);
    }

    method DrawPacketId() returns (id: u16)
      modifies this`packetId
      ensures packetId == id == NextPacketId(old(packetId))
    {
      packetId := (packetId + 1) % U16_SIZE;
      if packetId == 0 {
        packetId := 1;
      }
      return packetId;
    }

    method SubscribeTopic(topic: CString, qos: int, reply: WriteReply) returns (status: Status)
      requires Ok()
      modifies this, txBuffer, transport
      ensures Ok() && (View(), status) == Subscribe(old(View()), topic, qos, reply)
    {
      if qos != 0 {
        return Status(General, Unsupported);
      }
      var id := DrawPacketId();
      var outLen;
      status, outLen := EncodeSubscribe(txBuffer, id, topic);
      if status != OK {
        return status;
      }
      status := ClientSend(outLen, reply);
    }

    method PollConnection(env: PollEnv) returns (status: Status)
      requires Ok()
      modifies this, txBuffer, rxBuffer, transport
      ensures Ok() && (View(), status) == Poll(old(View()), env)
    {
      status := FlushPendingBytes(env.flush);
      if status != OK {
        return status;
      }
      status := PollCore(env);
      if status != OK {
        return status;
      }
      status := PollTransfer(env);
    }

    /** The second half of a poll: CONNECT once, or inbound packets and then keepalive. */
    method PollTransfer(env: PollEnv) returns (status: Status)
      requires Ok()
      modifies this, txBuffer, rxBuffer, transport
      ensures Ok() && (View(), status) == PollIo(old(View()), env)
    {
      match state {
        case ConnectSent =>
          if !connectSent {
            status := SendConnectPacket(env.send);
            if status != OK {
              return status;
            }
            connectSent := true;
          }
        case Connected =>
          status := ReadPackets(env.read);
          if status != OK {
            return status;
          }
          status := CheckKeepAlive(env);
          if status != OK {
            return status;
          }
        case _ =>
      }
      return OK;
    }

    method CheckKeepAlive(env: PollEnv) returns (status: Status)
      requires Ok()
      modifies this, txBuffer, transport
      ensures Ok() && (View(), status) == KeepAlive(old(View()), env)
    {
      var now := env.now;
      if (now - lastActivityMs) % U64_SIZE >= keepAliveIntervalMs {
        status := SendPingreq(env.send);
        if status != OK {
          return status;
        }
        lastActivityMs := now;
        pings := pings + [now];
      }
      return OK;
    }
  }
}
