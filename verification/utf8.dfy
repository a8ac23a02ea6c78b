/** UTF-8, the byte form Rust's `String::as_bytes` exposes. A `char` here is a
    Unicode scalar value. */
module Utf8 {
  import opened Wrappers
  import opened Bytes

  /** True for the code points that are Unicode scalar values. */
  predicate IsScalar(n: int)
  {
    (0 <= n < 0xD800) || (0xE000 <= n < 0x11_0000)
  }

  /** A continuation byte `10xxxxxx` carrying six bits. */
  function Cont(six: int): byte
    requires 0 <= six < 64
  {
    (0x80 + six) as byte
  }

  /** The one to four bytes of a scalar value: its bits taken six at a time from
      the right, under a lead byte that announces the length. */
  function EncodeChar(c: char): (bs: seq<byte>)
    ensures 1 <= |bs| <= 4
    ensures (|bs| == 1) <==> (c as int < 0x80)
    ensures |bs| == 1 ==> bs[0] as int == c as int
  {
    var n := c as int;
    var q1 := n / 64;
    var q2 := q1 / 64;
    var q3 := q2 / 64;
    if n < 0x80 then [n as byte]
    else if n < 0x800 then [(0xC0 + q1) as byte, Cont(n % 64)]
    else if n < 0x1_0000 then [(0xE0 + q2) as byte, Cont(q1 % 64), Cont(n % 64)]
    else [(0xF0 + q3) as byte, Cont(q2 % 64), Cont(q1 % 64), Cont(n % 64)]
  }

  /** The UTF-8 bytes of a string: the encodings of its characters, in order. */
  function Encode(s: string): (bs: seq<byte>)
    ensures |s| <= |bs| <= 4 * |s|
    ensures |bs| == 0 <==> |s| == 0
  {
    if |s| == 0 then [] else EncodeChar(s[0]) + Encode(s[1..])
  }

  /** True for a continuation byte. */
  predicate IsCont(b: byte)
  {
    0x80 <= b < 0xC0
  }

  /** The first character of a byte string and how many bytes it took, or `None`
      when the bytes do not start with a well-formed sequence. A sequence is
      well-formed when its lead byte announces the length, the announced number
      of continuation bytes follows, and the value is a scalar value that no
      shorter sequence can carry (no overlong forms). */
  function DecodeChar(bs: seq<byte>): (r: Option<(char, nat)>)
    requires |bs| > 0
    ensures r.Some? ==> 1 <= r.value.1 <= |bs|
  {
    var b0 := bs[0] as int;
    if b0 < 0x80 then Some((b0 as char, 1))
    else if b0 < 0xC0 then None
    else if b0 < 0xE0 then
      if |bs| < 2 || !IsCont(bs[1]) then None
      else
        var n := (b0 - 0xC0) * 64 + (bs[1] as int - 0x80);
        if 0x80 <= n && IsScalar(n) then Some((n as char, 2)) else None
    else if b0 < 0xF0 then
      if |bs| < 3 || !IsCont(bs[1]) || !IsCont(bs[2]) then None
      else
        var n := ((b0 - 0xE0) * 64 + (bs[1] as int - 0x80)) * 64 + (bs[2] as int - 0x80);
        if 0x800 <= n && IsScalar(n) then Some((n as char, 3)) else None
    else
      if |bs| < 4 || !IsCont(bs[1]) || !IsCont(bs[2]) || !IsCont(bs[3]) then None
      else
        var n := (((b0 - 0xF0) * 64 + (bs[1] as int - 0x80)) * 64 + (bs[2] as int - 0x80)) * 64 + (bs[3] as int - 0x80);
        if 0x1_0000 <= n && IsScalar(n) then Some((n as char, 4)) else None
  }

  /** The string whose UTF-8 bytes are `bs`, or `None` when a sequence is malformed. */
  function Decode(bs: seq<byte>): Option<string>
    decreases |bs|
  {
    if |bs| == 0 then Some("")
    else
      match DecodeChar(bs)
      case None => None
      case Some((c, w)) =>
        match Decode(bs[w..])
        case None => None
        case Some(rest) => Some([c] + rest)
  }

  /** Decoding the first character of an encoding recovers it and its width. */
  lemma DecodeEncodeChar(c: char, rest: seq<byte>)
    ensures DecodeChar(EncodeChar(c) + rest) == Some((c, |EncodeChar(c)|))
  {
    var n := c as int;
    var q1 := n / 64;
    var q2 := q1 / 64;
    var q3 := q2 / 64;
    assert n == q1 * 64 + n % 64;
    assert q1 == q2 * 64 + q1 % 64;
    assert q2 == q3 * 64 + q2 % 64;
    var bs := EncodeChar(c) + rest;
    if n < 0x80 {
    } else if n < 0x800 {
      assert bs[0] as int == 0xC0 + q1 && bs[1] as int == 0x80 + n % 64;
    } else if n < 0x1_0000 {
      assert bs[0] as int == 0xE0 + q2;
      assert bs[1] as int == 0x80 + q1 % 64 && bs[2] as int == 0x80 + n % 64;
    } else {
      assert bs[0] as int == 0xF0 + q3;
      assert bs[1] as int == 0x80 + q2 % 64;
      assert bs[2] as int == 0x80 + q1 % 64 && bs[3] as int == 0x80 + n % 64;
    }
  }

  /** Decoding undoes encoding. */
  lemma {:induction false} DecodeEncode(s: string)
    ensures Decode(Encode(s)) == Some(s)
    decreases |s|
  {
    if |s| > 0 {
      var head := EncodeChar(s[0]);
      var tail := Encode(s[1..]);
      DecodeEncodeChar(s[0], tail);
      assert (head + tail)[|head|..] == tail;
      DecodeEncode(s[1..]);
      assert [s[0]] + s[1..] == s;
    }
  }

  /** Quotient and remainder by 64 are unique. */
  lemma DivMod64(n: int, q: int, r: int)
    requires 0 <= r < 64 && n == q * 64 + r
    ensures n / 64 == q && n % 64 == r
  {
  }

  /** A two-byte scalar value's encoding, from its two six-bit groups. */
  lemma EncodeTwo(c: char, a: int, d: int)
    requires 0 <= d < 64 && c as int == a * 64 + d && 0x80 <= c as int < 0x800
    ensures EncodeChar(c) == [(0xC0 + a) as byte, Cont(d)]
  {
    DivMod64(c as int, a, d);
  }

  /** A three-byte scalar value's encoding, from its three six-bit groups. */
  lemma EncodeThree(c: char, a: int, b: int, d: int)
    requires 0 <= b < 64 && 0 <= d < 64 && c as int == (a * 64 + b) * 64 + d
    requires 0x800 <= c as int < 0x1_0000
    ensures EncodeChar(c) == [(0xE0 + a) as byte, Cont(b), Cont(d)]
  {
    DivMod64(c as int, a * 64 + b, d);
    DivMod64(a * 64 + b, a, b);
  }

  /** A four-byte scalar value's encoding, from its four six-bit groups. */
  lemma EncodeFour(c: char, a: int, b: int, d: int, e: int)
    requires 0 <= b < 64 && 0 <= d < 64 && 0 <= e < 64
    requires c as int == ((a * 64 + b) * 64 + d) * 64 + e && 0x1_0000 <= c as int
    ensures EncodeChar(c) == [(0xF0 + a) as byte, Cont(b), Cont(d), Cont(e)]
  {
    DivMod64(c as int, (a * 64 + b) * 64 + d, e);
    DivMod64((a * 64 + b) * 64 + d, a * 64 + b, d);
    DivMod64(a * 64 + b, a, b);
  }

  /** A well-formed sequence is the encoding of the character it decodes to: the
      decoder accepts one byte form per character. */
  lemma EncodeDecodeChar(bs: seq<byte>)
    requires |bs| > 0 && DecodeChar(bs).Some?
    ensures EncodeChar(DecodeChar(bs).value.0) == bs[..DecodeChar(bs).value.1]
  {
    var c := DecodeChar(bs).value.0;
    var w := DecodeChar(bs).value.1;
    var b0 := bs[0] as int;
    if w == 2 {
      EncodeTwo(c, b0 - 0xC0, bs[1] as int - 0x80);
      assert bs[..2] == [bs[0], bs[1]];
    } else if w == 3 {
      EncodeThree(c, b0 - 0xE0, bs[1] as int - 0x80, bs[2] as int - 0x80);
      assert bs[..3] == [bs[0], bs[1], bs[2]];
    } else if w == 4 {
      EncodeFour(c, b0 - 0xF0, bs[1] as int - 0x80, bs[2] as int - 0x80, bs[3] as int - 0x80);
      assert bs[..4] == [bs[0], bs[1], bs[2], bs[3]];
    }
  }

  /** A decodable non-empty byte string is the encoding of its first
      character followed by bytes that decode to the rest of the string. */
  lemma DecodeCons(bs: seq<byte>) returns (c: char, w: nat)
    requires |bs| > 0 && Decode(bs).Some?
    ensures 1 <= w <= |bs| && EncodeChar(c) == bs[..w]
    ensures Decode(bs[w..]).Some? && Decode(bs).value == [c] + Decode(bs[w..]).value
  {
    c, w := DecodeChar(bs).value.0, DecodeChar(bs).value.1;
    EncodeDecodeChar(bs);
  }

  /** Encoding undoes decoding: bytes that decode are the encoding of the
      string they decode to. */
  lemma {:induction false} EncodeDecode(bs: seq<byte>)
    requires Decode(bs).Some?
    ensures Encode(Decode(bs).value) == bs
    decreases |bs|
  {
    if |bs| > 0 {
      var c, w := DecodeCons(bs);
      var tail := Decode(bs[w..]).value;
      EncodeDecode(bs[w..]);
      var s := [c] + tail;
      assert s[0] == c && s[1..] == tail;
      assert Encode(s) == EncodeChar(c) + Encode(tail);
      assert bs[..w] + bs[w..] == bs;
    }
  }

  /** Encoding distributes over concatenation. */
  lemma {:induction false} EncodeConcat(a: string, b: string)
    ensures Encode(a + b) == Encode(a) + Encode(b)
    decreases |a|
  {
    if |a| == 0 {
      assert a + b == b;
    } else {
      assert (a + b)[1..] == a[1..] + b;
      EncodeConcat(a[1..], b);
    }
  }
}
