/** Bytes, machine integers and the C memory primitives the client relies on.

    A byte is an integer below 256, so masks and shifts are written with
    `/` and `%`: on a byte `b`, `b >> 4` is `b / 16` and `b & 0x7F` is `b % 128`. */
module Bytes {

  type byte = b: int | 0 <= b < 256
  type u16 = n: int | 0 <= n < 0x1_0000
  type u32 = n: int | 0 <= n < 0x1_0000_0000
  type u64 = n: int | 0 <= n < 0x1_0000_0000_0000_0000

  /** A C string: its bytes up to the terminating NUL, which is not among them. */
  type CString = s: seq<byte> | forall i :: 0 <= i < |s| ==> s[i] != 0

  const U16_SIZE := 0x1_0000
  const U32_SIZE := 0x1_0000_0000
  const U64_SIZE := 0x1_0000_0000_0000_0000

  function Min(a: nat, b: nat): nat {
    if a < b then a else b
  }

  /** The buffer after `data` is copied over it at `off`. */
  function Splice(buf: seq<byte>, off: nat, data: seq<byte>): (r: seq<byte>)
    requires off + |data| <= |buf|
    ensures |r| == |buf|
  {
    buf[..off] + data + buf[off + |data|..]
  }

  lemma Mod65536(n: nat, q: nat, r: nat)
    requires n == 65536 * q + r && r < 65536
    ensures n % 65536 == r
  {
  }

  lemma HighAndLow(n: nat)
    ensures n / 256 % 256 * 256 + n % 256 == n % U16_SIZE
  {
    var high, low := n / 256, n % 256;
    assert n == 256 * high + low;
    assert high == 256 * (high / 256) + high % 256;
    Mod65536(n, high / 256, high % 256 * 256 + low);
  }

  /** Two bytes, most significant first; longer values are cut to 16 bits. */
  function BigEndian16(n: nat): (r: seq<byte>)
    ensures |r| == 2 && r[0] as int * 256 + r[1] as int == n % U16_SIZE
  {
    HighAndLow(n);
    [n / 256 % 256, n % 256]
  }

  // ----- 32-bit arithmetic -----

  function Add32(a: u32, b: u32): u32 {
    (a + b) % U32_SIZE
  }

  function Mul32(a: u32, b: u32): u32 {
    (a * b) % U32_SIZE
  }

  function Concat(parts: seq<seq<byte>>): seq<byte> {
    if parts == [] then [] else parts[0] + Concat(parts[1..])
  }

  lemma SpliceSame(buf: seq<byte>, n: nat)
    requires n <= |buf|
    ensures Splice(buf, 0, buf[..n]) == buf && Splice(buf, n, []) == buf && Splice(buf, 0, []) == buf
  {
  }

  lemma SpliceFront(buf: seq<byte>, data: seq<byte>)
    requires |data| <= |buf|
    ensures Splice(buf, 0, data)[..|data|] == data
  {
  }

  lemma SplitAt(w: seq<byte>, s: seq<byte>, k: nat)
    requires k <= |s|
    ensures (w + s[..k]) + s[k..] == w + s
  {
  }

  lemma {:induction false} ConcatSnoc(parts: seq<seq<byte>>, last: seq<byte>)
    ensures Concat(parts + [last]) == Concat(parts) + last
  {
    if parts == [] {
      assert [last][1..] == [];
      assert Concat([last]) == last + Concat([]);
    } else {
      assert (parts + [last])[1..] == parts[1..] + [last];
      ConcatSnoc(parts[1..], last);
    }
  }

  lemma ConcatTwo(a: seq<byte>, b: seq<byte>)
    ensures Concat([a, b]) == a + b
  {
    assert [a, b][1..] == [b];
    assert Concat([b]) == b + Concat([b][1..]) == b;
  }

  lemma ConcatThree(a: seq<byte>, b: seq<byte>, c: seq<byte>)
    ensures Concat([a, b, c]) == a + (b + c)
  {
    assert [a, b, c][1..] == [b, c];
    ConcatTwo(b, c);
  }

  /** `memmove` inside one buffer; source and destination may overlap. */
  method Memmove(buf: array<byte>, dst: nat, src: nat, n: nat)
    requires dst + n <= buf.Length && src + n <= buf.Length
    modifies buf
    ensures buf[..] == Splice(old(buf[..]), dst, old(buf[src..src + n]))
  {
    forall i | 0 <= i < n {
      buf[dst + i] := buf[src + i];
    }
  }

  /** `memcpy` of bytes held outside the buffer. */
  method Memcpy(buf: array<byte>, off: nat, data: seq<byte>)
    requires off + |data| <= buf.Length
    modifies buf
    ensures buf[..] == Splice(old(buf[..]), off, data)
  {
    forall i | 0 <= i < |data| {
      buf[off + i] := data[i];
    }
  }
}
