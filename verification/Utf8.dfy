/** UTF-8 as RFC 3629 defines it. */
module Utf8 {
  predicate InRange(c: char, low: int, high: int) {
    low <= c as int <= high
  }

  predicate Utf8Tail(c: char) {
    InRange(c, 0x80, 0xBF)
  }

  /** Section 4 of the RFC: `u` is one UTF8-char, alternative by alternative. */
  predicate Utf8Char(u: string) {
    || (|u| == 1 && InRange(u[0], 0x00, 0x7F))
    || (|u| == 2 && InRange(u[0], 0xC2, 0xDF) && Utf8Tail(u[1]))
    || (|u| == 3 && Utf8Tail(u[2]) &&
        (|| (InRange(u[0], 0xE0, 0xE0) && InRange(u[1], 0xA0, 0xBF))
         || (InRange(u[0], 0xE1, 0xEC) && Utf8Tail(u[1]))
         || (InRange(u[0], 0xED, 0xED) && InRange(u[1], 0x80, 0x9F))
         || (InRange(u[0], 0xEE, 0xEF) && Utf8Tail(u[1]))))
    || (|u| == 4 && Utf8Tail(u[2]) && Utf8Tail(u[3]) &&
        (|| (InRange(u[0], 0xF0, 0xF0) && InRange(u[1], 0x90, 0xBF))
         || (InRange(u[0], 0xF1, 0xF3) && Utf8Tail(u[1]))
         || (InRange(u[0], 0xF4, 0xF4) && InRange(u[1], 0x80, 0x8F))))
  }

  /** The scalar values: code points that are not surrogates. */
  predicate IsScalar(codepoint: nat) {
    codepoint <= 0x10_FFFF && !(0xD800 <= codepoint <= 0xDFFF)
  }

  /** Section 3 of the RFC: the byte sequence of a scalar value. */
  function Utf8Encode(codepoint: nat): string
    requires IsScalar(codepoint)
  {
    if codepoint < 0x80 then [codepoint as char]
    else if codepoint < 0x800 then
      [(0xC0 + codepoint / 64) as char, (0x80 + codepoint % 64) as char]
    else if codepoint < 0x1_0000 then
      [(0xE0 + codepoint / 4096) as char, (0x80 + codepoint / 64 % 64) as char, (0x80 + codepoint % 64) as char]
    else
      [(0xF0 + codepoint / 0x4_0000) as char, (0x80 + codepoint / 4096 % 64) as char,
       (0x80 + codepoint / 64 % 64) as char, (0x80 + codepoint % 64) as char]
  }

  lemma SixBitDigits(a: nat, b: nat, c: nat, d: nat)
    requires b < 64 && c < 64 && d < 64
    ensures var n := a * 0x4_0000 + b * 4096 + c * 64 + d;
            n / 0x4_0000 == a && n / 4096 % 64 == b && n / 64 % 64 == c && n % 64 == d
  {
    var n := a * 0x4_0000 + b * 4096 + c * 64 + d;
    assert n / 64 == a * 4096 + b * 64 + c;
    assert n / 4096 == a * 64 + b;
  }

  lemma Reassembled(n: nat)
    ensures n == n / 0x4_0000 * 0x4_0000 + n / 4096 % 64 * 4096 + n / 64 % 64 * 64 + n % 64
    ensures n == n / 4096 * 4096 + n / 64 % 64 * 64 + n % 64
    ensures n == n / 64 * 64 + n % 64
  {
    assert n / 4096 == n / 0x4_0000 * 64 + n / 4096 % 64;
    assert n / 64 == n / 4096 * 64 + n / 64 % 64;
  }

  lemma EncodingIsInjective(a: nat, b: nat)
    requires IsScalar(a) && IsScalar(b)
    requires Utf8Encode(a) == Utf8Encode(b)
    ensures a == b
  {
    var u, v := Utf8Encode(a), Utf8Encode(b);
    Reassembled(a);
    Reassembled(b);
    assert |u| == |v|;
    assert u[0] == v[0];
    assert |u| > 1 ==> u[1] == v[1];
    assert |u| > 2 ==> u[2] == v[2];
    assert |u| > 3 ==> u[3] == v[3];
  }
}
