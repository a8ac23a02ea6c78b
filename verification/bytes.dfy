/** Fixed-width unsigned integers and their big-endian byte encodings. */
module Bytes {

  /** An octet, as Rust's `u8`. */
  newtype byte = b: int | 0 <= b < 0x100

  /** Rust's `u16`. */
  type u16 = n: int | 0 <= n < 0x1_0000

  /** Rust's `u32`. */
  type u32 = n: int | 0 <= n < 0x1_0000_0000

  /** The unsigned value of a big-endian byte string. */
  function ValueBE(bs: seq<byte>): nat
  {
    if |bs| == 0 then 0 else ValueBE(bs[..|bs| - 1]) * 256 + bs[|bs| - 1] as int
  }

  /** Appending a byte shifts the value one byte to the left. */
  lemma ValueBEAppend(bs: seq<byte>, b: byte)
    ensures ValueBE(bs + [b]) == ValueBE(bs) * 256 + b as int
  {
    assert (bs + [b])[..|bs|] == bs;
  }

  /** `write_u16::<BigEndian>`: the high byte first, then the low byte. */
  function BE16(n: u16): (bs: seq<byte>)
    ensures |bs| == 2
    ensures bs[0] as int == n / 256 && bs[1] as int == n % 256
    ensures ValueBE(bs) == n
  {
    var hi, lo := (n / 256) as byte, (n % 256) as byte;
    ValueBEAppend([], hi);
    ValueBEAppend([hi], lo);
    assert [] + [hi] == [hi] && [hi] + [lo] == [hi, lo];
    assert ValueBE([hi, lo]) == (n / 256) * 256 + n % 256;
    [hi, lo]
  }

  /** `write_u24::<BigEndian>` for a value that fits in 24 bits. */
  function BE24(n: nat): (bs: seq<byte>)
    requires n < 0x100_0000
    ensures |bs| == 3
    ensures bs[0] as int == n / 256 / 256 && bs[1] as int == (n / 256) % 256 && bs[2] as int == n % 256
    ensures ValueBE(bs) == n
  {
    var q := n / 256;
    var b0, b1, b2 := (q / 256) as byte, (q % 256) as byte, (n % 256) as byte;
    ValueBEAppend([], b0);
    ValueBEAppend([b0], b1);
    ValueBEAppend([b0, b1], b2);
    assert [] + [b0] == [b0] && [b0] + [b1] == [b0, b1] && [b0, b1] + [b2] == [b0, b1, b2];
    assert q == (q / 256) * 256 + q % 256 && n == q * 256 + n % 256;
    [b0, b1, b2]
  }

  /** Two bytes are the big-endian encoding of their value. */
  lemma BE16OfValue(bs: seq<byte>)
    requires |bs| == 2
    ensures ValueBE(bs) < 0x1_0000
    ensures BE16(ValueBE(bs)) == bs
  {
    ValueBEAppend([], bs[0]);
    ValueBEAppend([bs[0]], bs[1]);
    assert [] + [bs[0]] == [bs[0]] && [bs[0]] + [bs[1]] == bs;
    var n := bs[0] as int * 256 + bs[1] as int;
    assert ValueBE(bs) == n;
    DivMod256(n, bs[0] as int, bs[1] as int);
    var r := BE16(n);
    assert r[0] == bs[0] && r[1] == bs[1];
  }

  /** Three bytes are the big-endian encoding of their value. */
  lemma BE24OfValue(bs: seq<byte>)
    requires |bs| == 3
    ensures ValueBE(bs) < 0x100_0000
    ensures BE24(ValueBE(bs)) == bs
  {
    ValueBEAppend([], bs[0]);
    ValueBEAppend([bs[0]], bs[1]);
    ValueBEAppend([bs[0], bs[1]], bs[2]);
    assert [] + [bs[0]] == [bs[0]] && [bs[0]] + [bs[1]] == [bs[0], bs[1]] && [bs[0], bs[1]] + [bs[2]] == bs;
    var hi := bs[0] as int * 256 + bs[1] as int;
    var n := hi * 256 + bs[2] as int;
    assert ValueBE(bs) == n;
    DivMod256(n, hi, bs[2] as int);
    DivMod256(hi, bs[0] as int, bs[1] as int);
    var r := BE24(n);
    assert r[0] == bs[0] && r[1] == bs[1] && r[2] == bs[2];
  }

  /** Division by 256 recovers the quotient and remainder it was built from. */
  lemma DivMod256(n: int, q: int, r: int)
    requires 0 <= r < 256 && n == q * 256 + r
    ensures n / 256 == q && n % 256 == r
  {
  }
}
