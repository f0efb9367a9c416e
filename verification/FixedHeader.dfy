/** The fixed header in front of every packet (section 2.2 of MQTT 3.1.1). */
module FixedHeader {
  import opened Bytes
  import opened Statuses
  import RL = RemainingLength

  const CONNECT := 1
  const CONNACK := 2
  const PUBLISH := 3
  const PUBACK := 4
  const SUBSCRIBE := 8
  const SUBACK := 9
  const PINGREQ := 12
  const PINGRESP := 13
  const DISCONNECT := 14

  datatype Header = Header(kind: nat, flags: nat, remaining: nat, size: nat) {
    function PacketLength(): nat { size + remaining }
  }

  function QosBits(flags: nat): nat {
    flags / 2 % 4
  }

  /** DUP and RETAIN may be set on a PUBLISH; QoS 3 and unknown packet types may not. */
  predicate FlagsValid(kind: nat, flags: nat) {
    if kind in {CONNECT, CONNACK, PUBACK, SUBACK, PINGREQ, PINGRESP, DISCONNECT} then flags == 0
    else if kind == PUBLISH then QosBits(flags) != 3
    else kind == SUBSCRIBE && flags == 2
  }

  function Decode(s: seq<byte>): Decoded<Header> {
    if |s| < 2 then Fail(TOO_SMALL)
    else if !FlagsValid(s[0] / 16, s[0] % 16) then Fail(VIOLATION)
    else match RL.Decode(s[1..])
      case Value(v, consumed) => Got(Header(s[0] / 16, s[0] % 16, v, 1 + consumed))
      case Short => Fail(TOO_SMALL)
      case TooLong => Fail(VIOLATION)
  }

  /** The first bytes of the packets that table 2.2 of MQTT 3.1.1 lays out and the client
      knows: PUBLISH at any QoS below 3, SUBSCRIBE with its reserved bit, the others bare. */
  predicate KnownFirst(b: byte) {
    b in {0x10, 0x20, 0x40, 0x82, 0x90, 0xC0, 0xD0, 0xE0} || 0x30 <= b <= 0x35 || 0x38 <= b <= 0x3D
  }

  /** One of the first four bytes of the length field ends it. */
  predicate LengthEnds(s: seq<byte>) {
    exists i :: 1 <= i < 5 && i < |s| && s[i] < 128
  }

  lemma LengthVerdict(s: seq<byte>)
    requires |s| >= 2
    ensures RL.Decode(s[1..]).Value? <==> LengthEnds(s)
    ensures RL.Decode(s[1..]).TooLong? <==> !LengthEnds(s) && |s| >= 6
  {
    var d := s[1..];
    RL.VerdictExactly(d);
    assert forall i :: 0 <= i < |d| ==> d[i] == s[i + 1];
    if LengthEnds(s) {
      var i :| 1 <= i < 5 && i < |s| && s[i] < 128;
      assert d[i - 1] < 128;
    }
  }

  lemma FlagsTable(b: byte)
    ensures FlagsValid(b / 16, b % 16) <==> KnownFirst(b)
  {
  }

  /** Which headers are accepted, which are rejected and which need more bytes, in the bytes
      themselves. */
  lemma DecodeExactly(s: seq<byte>)
    ensures Decode(s).Got? <==> |s| >= 2 && KnownFirst(s[0]) && LengthEnds(s)
    ensures Decode(s) == Fail(Status(Protocol, ProtocolViolation))
       <==> |s| >= 2 && (!KnownFirst(s[0]) || (|s| >= 6 && !LengthEnds(s)))
    ensures Decode(s) == Fail(Status(Protocol, BufferTooSmall))
       <==> |s| < 2 || (|s| < 6 && KnownFirst(s[0]) && !LengthEnds(s))
  {
    hide FlagsValid, KnownFirst, LengthEnds, RL.Decode;
    if |s| >= 2 {
      FlagsTable(s[0]);
      LengthVerdict(s);
    }
  }

  /** Prefix stability: once the header is accepted or rejected, no further byte
      changes the verdict, and six bytes always suffice to reach one. */
  lemma DecodeStable(s: seq<byte>, more: seq<byte>)
    ensures Decode(s) != Fail(TOO_SMALL) ==> Decode(s + more) == Decode(s)
    ensures Decode(s) == Fail(TOO_SMALL) ==> |s| < 6
  {
    if |s| >= 2 {
      assert (s + more)[1..] == s[1..] + more;
      RL.DecodeStable(s[1..], more);
    }
  }

  /** An accepted header is two to five bytes long and lies inside the input. */
  lemma DecodeBounds(s: seq<byte>)
    ensures Decode(s).Fail? ==> Decode(s).status in {TOO_SMALL, VIOLATION}
    ensures Decode(s).Got? ==> var h := Decode(s).value;
              && 2 <= h.size <= 5 && h.size <= |s|
              && h.remaining <= RL.MAX
              && FlagsValid(h.kind, h.flags)
              && s[0] as int == h.kind * 16 + h.flags && h.flags < 16
  {
    if Decode(s).Got? {
      RL.DecodeSound(s[1..]);
    }
  }

  method DecodeFixedHeader(buf: array<byte>, len: nat) returns (r: Decoded<Header>)
    requires len <= buf.Length
    ensures r == Decode(buf[..len])
  {
    if len < 2 {
      return Fail(TOO_SMALL);
    }
    var kind, flags := buf[0] / 16, buf[0] % 16;
    if !FlagsValid(kind, flags) {
      return Fail(VIOLATION);
    }
    assert buf[1..1 + (len - 1)] == buf[..len][1..];
    var length := RL.DecodeRemainingLength(buf, 1, len - 1);
    match length {
      case Value(v, consumed) => return Got(Header(kind, flags, v, 1 + consumed));
      case Short => return Fail(TOO_SMALL);
      case TooLong => return Fail(VIOLATION);
    }
  }
}
