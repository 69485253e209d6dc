/** Rust's fixed-width signed integers and `str::parse` for them, with the
    decimal rendering (`to_string`) as the inverse. */
module Numbers {
  import opened Wrappers

  const I32_MIN: int := -0x8000_0000
  const I32_MAX: int := 0x7FFF_FFFF
  const I16_MIN: int := -0x8000
  const I16_MAX: int := 0x7FFF

  type I32 = x: int | I32_MIN <= x <= I32_MAX
  type I16 = x: int | I16_MIN <= x <= I16_MAX

  predicate IsDigit(c: char) {
    '0' <= c <= '9'
  }

  predicate AllDigits(s: string) {
    forall k :: 0 <= k < |s| ==> IsDigit(s[k])
  }

  function DigitValue(c: char): (d: nat)
    requires IsDigit(c)
    ensures d < 10
  {
    c as int - '0' as int
  }

  function DigitChar(d: nat): (c: char)
    requires d < 10
    ensures IsDigit(c) && DigitValue(c) == d
  {
    ('0' as int + d) as char
  }

  /** The value of a string of decimal digits, most significant first. */
  function DigitsValue(s: string): nat
    requires AllDigits(s)
    decreases |s|
  {
    if s == [] then 0 else DigitsValue(s[..|s| - 1]) * 10 + DigitValue(s[|s| - 1])
  }

  /** What `str::parse` accepts for a signed integer type, before the range
      check: an optional `+` or `-`, then one or more ASCII digits and
      nothing else (no spaces, no `_`, no other radix). */
  predicate IsDecimalLiteral(s: string) {
    var digits := if |s| > 0 && (s[0] == '+' || s[0] == '-') then s[1..] else s;
    |digits| > 0 && AllDigits(digits)
  }

  function LiteralValue(s: string): int
    requires IsDecimalLiteral(s)
  {
    if s[0] == '-' then -(DigitsValue(s[1..]) as int)
    else if s[0] == '+' then DigitsValue(s[1..])
    else DigitsValue(s)
  }

  /** `s.parse::<iN>().ok()` for the type whose range is `lo..=hi`: an empty
      string, a lone sign, a non-digit and a value out of range all give
      `None`. */
  function ParseInteger(s: string, lo: int, hi: int): (r: Option<int>)
    ensures r.Some? <==> IsDecimalLiteral(s) && lo <= LiteralValue(s) <= hi
    ensures r.Some? ==> r.value == LiteralValue(s) && lo <= r.value <= hi
  {
    if |s| == 0 then None
    else if |s| == 1 && (s[0] == '+' || s[0] == '-') then None
    else
      var negative := s[0] == '-';
      var digits := if s[0] == '+' || s[0] == '-' then s[1..] else s;
      if !AllDigits(digits) then None
      else
        var v: int := if negative then -(DigitsValue(digits) as int) else DigitsValue(digits);
        if v < lo || hi < v then None else Some(v)
  }

  /** `s.parse::<i32>().ok()`. */
  function ParseI32(s: string): (r: Option<I32>)
    ensures r.Some? <==> IsDecimalLiteral(s) && I32_MIN <= LiteralValue(s) <= I32_MAX
    ensures r.Some? ==> r.value == LiteralValue(s)
  {
    match ParseInteger(s, I32_MIN, I32_MAX)
    case None => None
    case Some(v) => Some(v)
  }

  /** `s.parse::<i16>().ok()`. */
  function ParseI16(s: string): (r: Option<I16>)
    ensures r.Some? <==> IsDecimalLiteral(s) && I16_MIN <= LiteralValue(s) <= I16_MAX
    ensures r.Some? ==> r.value == LiteralValue(s)
  {
    match ParseInteger(s, I16_MIN, I16_MAX)
    case None => None
    case Some(v) => Some(v)
  }

  /** The decimal digits of `n` without leading zeros. */
  function NatDigits(n: nat): (s: string)
    decreases n
    ensures |s| > 0 && AllDigits(s) && DigitsValue(s) == n
  {
    if n < 10 then [DigitChar(n)]
    else
      var front := NatDigits(n / 10);
      var s := front + [DigitChar(n % 10)];
      assert s[..|s| - 1] == front;
      s
  }

  /** `n.to_string()`. */
  function FormatInteger(n: int): string {
    if n < 0 then "-" + NatDigits(-n) else NatDigits(n)
  }

  /** Parsing what `to_string` wrote gives the number back. */
  lemma ParseFormatInteger(n: int, lo: int, hi: int)
    requires lo <= n <= hi
    ensures ParseInteger(FormatInteger(n), lo, hi) == Some(n)
  {
    var s := FormatInteger(n);
    if n < 0 {
      assert s[1..] == NatDigits(-n);
    } else {
      assert IsDigit(s[0]);
    }
  }

  function Pow10(k: nat): (p: nat)
    ensures p >= 1
  {
    if k == 0 then 1 else 10 * Pow10(k - 1)
  }

  /** The last `width` decimal digits of `n`, zero-padded: a `{:0w}` field. */
  function PadDigits(n: nat, width: nat): (s: string)
    ensures |s| == width && AllDigits(s)
  {
    if width == 0 then "" else PadDigits(n / 10, width - 1) + [DigitChar(n % 10)]
  }

  /** A number that fits in `width` digits is read back from its padding. */
  lemma {:induction false} PadDigitsValue(n: nat, width: nat)
    requires n < Pow10(width)
    ensures DigitsValue(PadDigits(n, width)) == n
  {
    if width > 0 {
      var s := PadDigits(n, width);
      assert n / 10 < Pow10(width - 1);
      PadDigitsValue(n / 10, width - 1);
      assert s[..width - 1] == PadDigits(n / 10, width - 1);
    }
  }

  lemma DivMod10(a: nat, b: nat)
    requires b < 10
    ensures (a * 10 + b) / 10 == a && (a * 10 + b) % 10 == b
  {
  }

  /** A string of digits is the padding of its own value. */
  lemma {:induction false} DigitsPadRoundTrip(s: string)
    requires AllDigits(s)
    decreases |s|
    ensures PadDigits(DigitsValue(s), |s|) == s
  {
    if s != [] {
      var front, last := s[..|s| - 1], s[|s| - 1];
      DigitsPadRoundTrip(front);
      var v := DigitsValue(s);
      assert v == DigitsValue(front) * 10 + DigitValue(last);
      DivMod10(DigitsValue(front), DigitValue(last));
      assert PadDigits(v, |s|) == PadDigits(DigitsValue(front), |s| - 1) + [DigitChar(DigitValue(last))];
      assert s == front + [last];
    }
  }
}
