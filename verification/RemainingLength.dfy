/** The variable-length Remaining Length field (section 2.2.3 of MQTT 3.1.1):
    base-128 digits, least significant first, bit 7 set on all but the last. */
module RemainingLength {
  import opened Bytes
  import opened Statuses

  const MAX := 268435455
  const MAX_MULTIPLIER := 128 * 128 * 128

  // ----- reference definitions -----

  function Encode(v: nat): (r: seq<byte>)
    ensures |r| >= 1
    decreases v
  {
    if v < 128 then [v] else [v % 128 + 128] + Encode(v / 128)
  }

  /** The unbounded sum of the base-128 digits of s. */
  function Base128(s: seq<byte>): nat {
    if s == [] then 0 else s[0] % 128 + 128 * Base128(s[1..])
  }

  /** How many bytes at the front of s announce a successor. */
  function Continued(s: seq<byte>): (k: nat)
    ensures k <= |s|
    ensures forall i :: 0 <= i < k ==> s[i] >= 128
    ensures k < |s| ==> s[k] < 128
  {
    if s == [] || s[0] < 128 then 0 else 1 + Continued(s[1..])
  }

  datatype Length = Value(v: nat, consumed: nat) | Short | TooLong

  /** A field ends within four bytes, is cut short by the end of the input, or is
      too long; a fifth byte is needed to tell the last two apart. */
  function Decode(s: seq<byte>): Length {
    var k := Continued(s);
    if k < |s| && k < 4 then Value(Base128(s[..k + 1]), k + 1)
    else if |s| >= 5 then TooLong
    else Short
  }

  // ----- properties -----

  function Pow128(n: nat): nat {
    if n == 0 then 1 else 128 * Pow128(n - 1)
  }

  lemma {:induction false} Base128Snoc(s: seq<byte>, b: byte)
    ensures Base128(s + [b]) == Base128(s) + b % 128 * Pow128(|s|)
  {
    if s == [] {
      assert ([] + [b])[1..] == [];
    } else {
      assert (s + [b])[1..] == s[1..] + [b];
      Base128Snoc(s[1..], b);
      var weight, tail := b % 128 * Pow128(|s| - 1), Base128(s[1..]);
      assert weight * 128 == b % 128 * Pow128(|s|);
      assert Base128(s + [b]) == s[0] % 128 + 128 * (tail + weight);
    }
  }

  lemma {:induction false} Base128Bound(s: seq<byte>)
    ensures Base128(s) < Pow128(|s|)
  {
    if s != [] {
      Base128Bound(s[1..]);
    }
  }

  lemma {:induction false} ContinuedAtLeast(s: seq<byte>, k: nat)
    requires k <= |s|
    requires forall i :: 0 <= i < k ==> s[i] >= 128
    ensures Continued(s) >= k
  {
    if k > 0 {
      ContinuedAtLeast(s[1..], k - 1);
    }
  }

  lemma ContinuedIs(s: seq<byte>, k: nat)
    requires k <= |s|
    requires forall i :: 0 <= i < k ==> s[i] >= 128
    requires k < |s| ==> s[k] < 128
    ensures Continued(s) == k
  {
    ContinuedAtLeast(s, k);
  }

  /** Every digit but the last of an encoding is marked, and the digits sum to v. */
  lemma {:induction false} EncodeShape(v: nat)
    ensures var e := Encode(v);
            && Base128(e) == v
            && (forall i :: 0 <= i < |e| - 1 ==> e[i] >= 128)
            && e[|e| - 1] < 128
    decreases v
  {
    if v >= 128 {
      EncodeShape(v / 128);
      assert Encode(v)[1..] == Encode(v / 128);
    }
  }

  /** The encoding has n digits exactly for the values of n base-128 digits. */
  lemma {:induction false} EncodeLength(v: nat, n: nat)
    requires n >= 1
    ensures |Encode(v)| <= n <==> v < Pow128(n)
    decreases v
  {
    if v >= 128 {
      if n == 1 {
        assert Pow128(1) == 128 * Pow128(0);
      } else {
        EncodeLength(v / 128, n - 1);
        assert v / 128 < Pow128(n - 1) <==> v < 128 * Pow128(n - 1);
      }
    } else {
      Pow128Grows(n);
    }
  }

  lemma {:induction false} Pow128Grows(n: nat)
    requires n >= 1
    ensures Pow128(n) >= 128
  {
    if n > 1 {
      Pow128Grows(n - 1);
    }
  }

  lemma FourDigits()
    ensures Pow128(1) == 128 && Pow128(2) == 128 * 128 && Pow128(3) == MAX_MULTIPLIER && Pow128(4) == MAX + 1
  {
    assert Pow128(1) == 128 * Pow128(0);
    assert Pow128(2) == 128 * Pow128(1);
    assert Pow128(3) == 128 * Pow128(2);
    assert Pow128(4) == 128 * Pow128(3);
  }

  /** Decode after encode, with anything behind the field. */
  lemma RoundTrip(v: nat, suffix: seq<byte>)
    requires v <= MAX
    ensures Decode(Encode(v) + suffix) == Value(v, |Encode(v)|)
    ensures 1 <= |Encode(v)| <= 4
  {
    var e := Encode(v);
    EncodeShape(v);
    FourDigits();
    EncodeLength(v, 4);
    ContinuedIs(e + suffix, |e| - 1);
    assert (e + suffix)[..|e|] == e;
  }

  /** Exactly the values up to MAX fit the four bytes the encoders reserve. */
  lemma FitsFourBytes(v: nat)
    ensures |Encode(v)| <= 4 <==> v <= MAX
  {
    FourDigits();
    EncodeLength(v, 4);
  }

  /** A decoded field occupies one to four bytes, holds the unbounded base-128 sum of
      them, and is never shorter than the encoding of its value. */
  lemma DecodeSound(s: seq<byte>)
    requires Decode(s).Value?
    ensures var d := Decode(s);
            && 1 <= d.consumed <= 4 && d.consumed <= |s|
            && d.v == Base128(s[..d.consumed]) <= MAX
            && |Encode(d.v)| <= d.consumed
  {
    var d := Decode(s);
    Base128Bound(s[..d.consumed]);
    EncodeLength(d.v, d.consumed);
    FourDigits();
    assert Pow128(d.consumed) <= Pow128(4);
  }

  /** Encoding again what was decoded gives the same bytes exactly when the field did not
      spend a byte on leading zero digits. */
  lemma ReencodeExactly(s: seq<byte>)
    requires Decode(s).Value?
    ensures var d := Decode(s);
            Encode(d.v) == s[..d.consumed] <==> d.consumed == 1 || s[d.consumed - 1] != 0
  {
    CanonicalExactly(s[..Decode(s).consumed]);
  }

  lemma {:induction false} CanonicalExactly(f: seq<byte>)
    requires f != [] && (forall i :: 0 <= i < |f| - 1 ==> f[i] >= 128) && f[|f| - 1] < 128
    ensures Encode(Base128(f)) == f <==> |f| == 1 || f[|f| - 1] != 0
  {
    hide Encode, Base128;
    var tail := f[1..];
    Base128Step(f);
    if |f| == 1 {
      EncodeDigit(f[0]);
    } else {
      CanonicalExactly(tail);
      assert f == [f[0]] + tail;
      if Base128(tail) == 0 {
        EncodeDigit(f[0] % 128);
        LastDigitZero(tail);
      } else {
        EncodeMore(f[0] % 128, Base128(tail));
        assert Encode(Base128(f))[1..] == Encode(Base128(tail));
        Base128Step(tail);
      }
    }
  }

  lemma Base128Step(f: seq<byte>)
    requires f != []
    ensures Base128(f) == f[0] % 128 + 128 * Base128(f[1..])
    ensures |f| == 1 ==> Base128(f) == f[0] % 128
  {
    assert |f| == 1 ==> f[1..] == [];
  }

  lemma EncodeDigit(v: nat)
    requires v < 128
    ensures Encode(v) == [v]
  {
  }

  lemma EncodeMore(d: nat, t: nat)
    requires d < 128 && t > 0
    ensures Encode(d + 128 * t) == [d + 128] + Encode(t)
  {
    DivMod128(d, t);
  }

  lemma {:induction false} ZeroDigits(f: seq<byte>)
    requires forall i :: 0 <= i < |f| ==> f[i] % 128 == 0
    ensures Base128(f) == 0
  {
    if f != [] {
      ZeroDigits(f[1..]);
    }
  }

  /** A last digit may be followed by zero digits. */
  lemma PaddedDigit(s: seq<byte>, k: nat)
    requires 1 <= k < 4 && k < |s| && s[0] >= 128 && s[k] == 0
    requires forall i :: 1 <= i < k ==> s[i] == 128
    ensures Decode(s) == Value(s[0] - 128, k + 1)
  {
    ContinuedIs(s, k);
    var f := s[..k + 1];
    ZeroDigits(f[1..]);
    hide Continued;
    assert Base128(f) == f[0] % 128 + 128 * Base128(f[1..]);
  }

  lemma OneDigit(f: seq<byte>)
    requires |f| == 1
    ensures Base128(f) == f[0] % 128
  {
    Base128Step(f);
  }

  lemma TwoDigits(f: seq<byte>)
    requires |f| == 2
    ensures Base128(f) == f[0] as int % 128 + 128 * (f[1] as int % 128)
  {
    Base128Step(f);
    OneDigit(f[1..]);
  }

  lemma ThreeDigits(f: seq<byte>)
    requires |f| == 3
    ensures Base128(f) == f[0] as int % 128 + 128 * (f[1] as int % 128) + 16384 * (f[2] as int % 128)
  {
    Base128Step(f);
    TwoDigits(f[1..]);
  }

  lemma DecodeOne(s: seq<byte>)
    requires |s| >= 1 && s[0] < 128
    ensures Decode(s) == Value(s[0], 1)
  {
    ContinuedIs(s, 0);
    OneDigit(s[..1]);
  }

  lemma DecodeTwo(s: seq<byte>)
    requires |s| >= 2 && s[0] >= 128 && s[1] < 128
    ensures Decode(s) == Value(s[0] as int % 128 + 128 * s[1] as int, 2)
  {
    ContinuedIs(s, 1);
    TwoDigits(s[..2]);
  }

  lemma DecodeThree(s: seq<byte>)
    requires |s| >= 3 && s[0] >= 128 && s[1] >= 128 && s[2] < 128
    ensures Decode(s) == Value(s[0] as int % 128 + 128 * (s[1] as int % 128) + 16384 * s[2] as int, 3)
  {
    ContinuedIs(s, 2);
    ThreeDigits(s[..3]);
  }

  lemma DivMod128(d: nat, t: nat)
    requires d < 128
    ensures (d + 128 * t) / 128 == t && (d + 128 * t) % 128 == d
  {
  }

  lemma {:induction false} LastDigitZero(f: seq<byte>)
    requires f != [] && f[|f| - 1] < 128 && Base128(f) == 0
    ensures f[|f| - 1] == 0
  {
    if |f| > 1 {
      LastDigitZero(f[1..]);
    }
  }

  /** The verdict, read off the first four bytes. */
  lemma VerdictExactly(s: seq<byte>)
    ensures Decode(s).Value? <==> exists i :: 0 <= i < 4 && i < |s| && s[i] < 128
    ensures Decode(s).TooLong? <==> |s| >= 5 && forall i :: 0 <= i < 4 ==> s[i] >= 128
  {
    var k := Continued(s);
    assert k < |s| ==> s[k] < 128;
  }

  /** Reading on cannot change a verdict; only an undecided field is still open. */
  lemma DecodeStable(s: seq<byte>, more: seq<byte>)
    ensures Decode(s) != Short ==> Decode(s + more) == Decode(s)
    ensures Decode(s) == Short ==> |s| < 5
  {
    var k := Continued(s);
    if k < |s| {
      ContinuedIs(s + more, k);
      assert (s + more)[..k + 1] == s[..k + 1];
    } else {
      ContinuedAtLeast(s + more, k);
    }
  }

  /** The multiplier of the i-th digit, while it fits 32 bits. */
  function Weight(i: nat): u32
    requires i <= 4
  {
    if i == 0 then 1 else if i == 1 then 128 else if i == 2 then 16384 else if i == 3 then 2097152 else 268435456
  }

  lemma WeightIsPow128(i: nat)
    requires i <= 4
    ensures Weight(i) == Pow128(i)
  {
    FourDigits();
  }

  lemma FourDigitsFit32Bits(s: seq<byte>)
    requires |s| <= 4
    ensures Base128(s) <= MAX
  {
    Base128Bound(s);
    WeightIsPow128(|s|);
  }

  /** One round of the decoding loop: only the fifth byte can leave 32 bits. */
  lemma DigitStep(s: seq<byte>, i: nat)
    requires i < |s| && i < 4
    ensures Base128(s[..i]) <= MAX && Base128(s[..i + 1]) <= MAX
    ensures Add32(Base128(s[..i]), Mul32(s[i] % 128, Weight(i))) == Base128(s[..i + 1])
    ensures Mul32(Weight(i), 128) == Weight(i + 1)
  {
    hide Base128, Pow128, Mul32, Weight;
    assert s[..i + 1] == s[..i] + [s[i]];
    Base128Snoc(s[..i], s[i]);
    FourDigitsFit32Bits(s[..i]);
    FourDigitsFit32Bits(s[..i + 1]);
    DigitProduct(s[i] % 128, i);
    WeightStep(i);
  }

  lemma WeightStep(i: nat)
    requires i < 4
    ensures Mul32(Weight(i), 128) == Weight(i + 1)
  {
  }

  lemma DigitProduct(digit: u32, i: nat)
    requires digit < 128 && i < 4
    ensures Mul32(digit, Weight(i)) == digit * Weight(i) == digit * Pow128(i)
  {
    WeightIsPow128(i);
  }

  // ----- the loops -----

  /** Writes the digits of `value` at the start of buf. */
  method EncodeRemainingLength(value: u32, buf: array<byte>) returns (status: Status, outLen: nat)
    modifies buf
    ensures status == (if |Encode(value)| <= buf.Length then OK else TOO_SMALL)
    ensures status == OK ==> outLen == |Encode(value)| && buf[..] == Splice(old(buf[..]), 0, Encode(value))
  {
    var i, v := 0, value;
    outLen := 0;
    while true
      invariant 0 <= i <= buf.Length
      invariant Encode(value) == buf[..i] + Encode(v)
      invariant buf[i..] == old(buf[i..])
      decreases v
    {
      if i >= buf.Length {
        return TOO_SMALL, 0;
      }
      var encoded := v % 128;
      var rest := v / 128;
      if rest > 0 {
        encoded := encoded + 128;
      }
      ghost var before := buf[..i];
      buf[i] := encoded;
      assert buf[..i + 1] == before + [encoded];
      i := i + 1;
      if rest == 0 {
        break;
      }
      v := rest;
    }
    assert buf[..] == buf[..i] + buf[i..];
    assert buf[..i] == Encode(value);
    return OK, i;
  }

  /** The four bytes before it leave a 32-bit accumulator below 2^28, so the sum that
      wraps at a fifth byte is computed and then discarded with the error. */
  method DecodeRemainingLength(buf: array<byte>, from: nat, len: nat) returns (r: Length)
    requires from + len <= buf.Length
    ensures r == Decode(buf[from..from + len])
  {
    ghost var s := buf[from..from + len];
    var multiplier: u32, result: u32, i := 1, 0, 0;
    while i < len
      invariant 0 <= i <= len && i <= 4
      invariant multiplier == Weight(i)
      invariant result == Base128(s[..i])
      invariant forall j :: 0 <= j < i ==> s[j] >= 128
    {
      var b := buf[from + i];
      ghost var i0 := i;
      if i < 4 {
        DigitStep(s, i);
      }
      i := i + 1;
      result := Add32(result, Mul32(b % 128, multiplier));
      if multiplier > MAX_MULTIPLIER {
        ContinuedAtLeast(s, i0);
        return TooLong;
      }
      if b < 128 {
        ContinuedIs(s, i0);
        return Value(result, i);
      }
      multiplier := Mul32(multiplier, 128);
    }
    assert s[..i] == s;
    ContinuedIs(s, i);
    return Short;
  }
}
