/** Decimal text for unsigned integers: Rust's `u16::to_string` and
    `str::parse::<u16>`. */
module Decimal {
  import opened Wrappers
  import opened Bytes

  predicate IsDigit(c: char)
  {
    '0' <= c <= '9'
  }

  predicate AllDigits(s: string)
  {
    forall i :: 0 <= i < |s| ==> IsDigit(s[i])
  }

  function DigitChar(d: nat): (c: char)
    requires d < 10
    ensures IsDigit(c)
  {
    ('0' as int + d) as char
  }

  /** The value of a string of decimal digits, most significant first. */
  function DigitsValue(ds: string): nat
    requires AllDigits(ds)
  {
    if |ds| == 0 then 0
    else DigitsValue(ds[..|ds| - 1]) * 10 + (ds[|ds| - 1] as int - '0' as int)
  }

  /** `n.to_string()`: the shortest decimal rendering, without sign or padding. */
  function ToDecimal(n: nat): (s: string)
    ensures |s| > 0 && AllDigits(s)
    ensures |s| > 1 ==> s[0] != '0'
    ensures ':' !in s
  {
    if n < 10 then [DigitChar(n)]
    else
      var prefix := ToDecimal(n / 10);
      assert (prefix + [DigitChar(n % 10)])[0] == prefix[0];
      prefix + [DigitChar(n % 10)]
  }

  /** The digits of a rendering are worth the rendered number. */
  lemma {:induction false} ToDecimalValue(n: nat)
    ensures DigitsValue(ToDecimal(n)) == n
    decreases n
  {
    if n >= 10 {
      ToDecimalValue(n / 10);
      var s := ToDecimal(n);
      assert s[..|s| - 1] == ToDecimal(n / 10);
    }
  }

  /** The digits `str::parse` examines: a single leading `+` is accepted and dropped. */
  function Unsigned(s: string): string
  {
    if |s| > 0 && s[0] == '+' then s[1..] else s
  }

  /** `s.parse::<u16>()`: an optional `+`, then one or more decimal digits (leading
      zeros allowed) whose value is at most 65535; anything else is an error. */
  function ParseU16(s: string): (r: Option<u16>)
    ensures r.Some? <==> |Unsigned(s)| > 0 && AllDigits(Unsigned(s)) && DigitsValue(Unsigned(s)) < 0x1_0000
    ensures r.Some? ==> r.value == DigitsValue(Unsigned(s))
    ensures |s| == 0 ==> r.None?
  {
    var digits := Unsigned(s);
    if |digits| == 0 || !AllDigits(digits) then None
    else
      var v := DigitsValue(digits);
      if v < 0x1_0000 then Some(v) else None
  }

  /** Every `u16` rendered with `to_string` parses back to itself. */
  lemma ParseToDecimal(n: u16)
    ensures ParseU16(ToDecimal(n)) == Some(n)
  {
    ToDecimalValue(n);
    assert IsDigit(ToDecimal(n)[0]);
  }

  /** A leading `+` does not change the parsed value of a digit string. */
  lemma ParsePlus(s: string)
    requires |s| > 0 && IsDigit(s[0])
    ensures ParseU16("+" + s) == ParseU16(s)
  {
    assert ("+" + s)[1..] == s;
  }

  /** `k` zero digits. */
  function Zeros(k: nat): (z: string)
    ensures |z| == k && AllDigits(z)
  {
    if k == 0 then "" else "0" + Zeros(k - 1)
  }

  /** The digit string without its redundant leading zeros (a lone `0` stays). */
  function StripZeros(ds: string): string
  {
    if |ds| > 1 && ds[0] == '0' then StripZeros(ds[1..]) else ds
  }

  /** The leading digit of a string is worth its place value. */
  lemma {:induction false} DigitsValueCons(c: char, t: string)
    requires IsDigit(c) && AllDigits(t)
    ensures AllDigits([c] + t)
    ensures DigitsValue([c] + t) == (c as int - '0' as int) * Pow10(|t|) + DigitsValue(t)
    decreases |t|
  {
    ConsDigits(c, t);
    if |t| > 0 {
      var s := [c] + t;
      var t' := t[..|t| - 1];
      ConsDigits(c, t');
      DigitsValueCons(c, t');
      assert s[..|s| - 1] == [c] + t';
      var d, p, last := c as int - '0' as int, Pow10(|t'|), t[|t| - 1] as int - '0' as int;
      assert s[|s| - 1] == t[|t| - 1];
      assert DigitsValue(s) == DigitsValue([c] + t') * 10 + last;
      assert DigitsValue(t) == DigitsValue(t') * 10 + last;
      assert Pow10(|t|) == 10 * p;
      PlaceValue(d, p, DigitsValue(t'), last);
    }
  }

  lemma PlaceValue(d: int, p: int, w: int, last: int)
    ensures (d * p + w) * 10 + last == d * (10 * p) + (w * 10 + last)
  {
  }

  /** A digit in front of digits, and the digits before the last, are digits. */
  lemma ConsDigits(c: char, t: string)
    requires IsDigit(c) && AllDigits(t)
    ensures AllDigits([c] + t)
    ensures |t| == 0 || AllDigits(t[..|t| - 1])
  {
    var s := [c] + t;
    assert forall i :: 0 < i < |s| ==> s[i] == t[i - 1];
  }

  function Pow10(k: nat): (p: nat)
    ensures p >= 1
  {
    if k == 0 then 1 else 10 * Pow10(k - 1)
  }

  /** Leading zeros add nothing to the value of a digit string. */
  lemma {:induction false} ZerosValue(k: nat, t: string)
    requires AllDigits(t)
    ensures AllDigits(Zeros(k) + t) && DigitsValue(Zeros(k) + t) == DigitsValue(t)
    decreases k
  {
    if k > 0 {
      ZerosValue(k - 1, t);
      var u := Zeros(k - 1) + t;
      assert Zeros(k) == "0" + Zeros(k - 1);
      assert Zeros(k) + t == ['0'] + u;
      DigitsValueCons('0', u);
      assert DigitsValue(['0'] + u) == DigitsValue(u);
    } else {
      assert Zeros(k) + t == t;
    }
  }

  /** Stripping leading zeros removes only zeros and leaves a non-empty digit
      string without a redundant leading zero. */
  lemma {:induction false} StripZerosShape(ds: string)
    requires |ds| > 0
    ensures var t := StripZeros(ds);
      && 0 < |t| <= |ds|
      && (|t| > 1 ==> t[0] != '0')
      && ds == Zeros(|ds| - |t|) + t
    decreases |ds|
  {
    if |ds| > 1 && ds[0] == '0' {
      var t := StripZeros(ds[1..]);
      StripZerosShape(ds[1..]);
      assert StripZeros(ds) == t;
      var k := |ds[1..]| - |t|;
      assert Zeros(k + 1) + t == "0" + (Zeros(k) + t);
      assert "0" + ds[1..] == ds;
    } else {
      assert Zeros(0) + ds == ds;
    }
  }

  /** Stripping leading zeros keeps the digits and the value. */
  lemma StripZerosSound(ds: string)
    requires |ds| > 0 && AllDigits(ds)
    ensures var t := StripZeros(ds);
      && 0 < |t| <= |ds| && AllDigits(t)
      && (|t| > 1 ==> t[0] != '0')
      && DigitsValue(t) == DigitsValue(ds)
  {
    var t := StripZeros(ds);
    StripZerosShape(ds);
    var k := |ds| - |t|;
    assert AllDigits(t) by {
      assert forall i :: 0 <= i < |t| ==> t[i] == ds[k + i];
    }
    ZerosValue(k, t);
  }

  /** A digit string with a non-zero leading digit is worth at least 1. */
  lemma {:induction false} CanonicalPositive(c: string)
    requires |c| > 0 && AllDigits(c) && c[0] != '0'
    ensures DigitsValue(c) >= 1
    decreases |c|
  {
    if |c| > 1 {
      CanonicalPositive(c[..|c| - 1]);
    }
  }

  /** A digit string without redundant leading zeros is the rendering of its value. */
  lemma {:induction false} CanonicalIsToDecimal(c: string)
    requires |c| > 0 && AllDigits(c) && (|c| > 1 ==> c[0] != '0')
    ensures ToDecimal(DigitsValue(c)) == c
    decreases |c|
  {
    if |c| > 1 {
      var c' := c[..|c| - 1];
      CanonicalIsToDecimal(c');
      CanonicalPositive(c');
      var d := c[|c| - 1] as int - '0' as int;
      assert DigitChar(d) == c[|c| - 1];
      assert c' + [c[|c| - 1]] == c;
    } else {
      assert DigitChar(c[0] as int - '0' as int) == c[0];
    }
  }

  /** Conversely, every text `parse::<u16>` accepts is an optional `+`, some zeros,
      and the `to_string` rendering of the value. */
  lemma ParsedForm(s: string, n: u16)
    requires ParseU16(s) == Some(n)
    ensures |ToDecimal(n)| <= |Unsigned(s)|
    ensures Unsigned(s) == Zeros(|Unsigned(s)| - |ToDecimal(n)|) + ToDecimal(n)
  {
    var ds := Unsigned(s);
    StripZerosSound(ds);
    StripZerosShape(ds);
    CanonicalIsToDecimal(StripZeros(ds));
  }
}
