/**
 * UTF-8 as the JVM charset applies it: `String.toByteArray(UTF_8)` is Encode and
 * `String(bytes, UTF_8)` is Decode. Encoding follows Table 3-6 of the Unicode Standard;
 * decoding accepts exactly the well-formed sequences of Table 3-7 and replaces each
 * maximal ill-formed subpart by U+FFFD, so it never fails.
 */
module Utf8 {
  import opened Base

  const Replacement: char := '\U{FFFD}'

  /** The UTF-8 form of one Unicode scalar value. */
  function EncodeChar(c: char): (r: seq<byte>)
    ensures 1 <= |r| <= 4
    ensures (|r| == 1) == (c as int < 0x80)
  {
    var n := c as int;
    if n < 0x80 then [n as byte]
    else if n < 0x800 then [(0xC0 + n / 64) as byte, (0x80 + n % 64) as byte]
    else if n < 0x10000 then
      [(0xE0 + n / 4096) as byte, (0x80 + n / 64 % 64) as byte, (0x80 + n % 64) as byte]
    else
      [(0xF0 + n / 262144) as byte, (0x80 + n / 4096 % 64) as byte,
       (0x80 + n / 64 % 64) as byte, (0x80 + n % 64) as byte]
  }

  function Encode(s: string): (bytes: seq<byte>)
  {
    if s == [] then [] else EncodeChar(s[0]) + Encode(s[1..])
  }

  predicate InRange(b: byte, lo: int, hi: int)
  {
    lo <= b as int <= hi
  }

  /** The character at the front of `b` and the number of bytes it takes. */
  function DecodeFirst(b: seq<byte>): (r: (char, nat))
    requires |b| > 0
    ensures 1 <= r.1 <= |b|
    ensures r.1 == 1 && r.0 != Replacement ==> b[0] < 0x80
  {
    var b0 := b[0] as int;
    if b0 < 0x80 then (b0 as char, 1)
    else if 0xC2 <= b0 <= 0xDF then
      if 2 <= |b| && InRange(b[1], 0x80, 0xBF) then
        (((b0 - 0xC0) * 64 + (b[1] as int - 0x80)) as char, 2)
      else (Replacement, 1)
    else if 0xE0 <= b0 <= 0xEF then
      var lo := if b0 == 0xE0 then 0xA0 else 0x80;
      var hi := if b0 == 0xED then 0x9F else 0xBF;
      if 2 <= |b| && InRange(b[1], lo, hi) then
        if 3 <= |b| && InRange(b[2], 0x80, 0xBF) then
          (((b0 - 0xE0) * 4096 + (b[1] as int - 0x80) * 64 + (b[2] as int - 0x80)) as char, 3)
        else (Replacement, 2)
      else (Replacement, 1)
    else if 0xF0 <= b0 <= 0xF4 then
      var lo := if b0 == 0xF0 then 0x90 else 0x80;
      var hi := if b0 == 0xF4 then 0x8F else 0xBF;
      if 2 <= |b| && InRange(b[1], lo, hi) then
        if 3 <= |b| && InRange(b[2], 0x80, 0xBF) then
          if 4 <= |b| && InRange(b[3], 0x80, 0xBF) then
            (((b0 - 0xF0) * 262144 + (b[1] as int - 0x80) * 4096
              + (b[2] as int - 0x80) * 64 + (b[3] as int - 0x80)) as char, 4)
          else (Replacement, 3)
        else (Replacement, 2)
      else (Replacement, 1)
    else (Replacement, 1)
  }

  function Decode(b: seq<byte>): (s: string)
    decreases |b|
  {
    if b == [] then [] else var (c, n) := DecodeFirst(b); [c] + Decode(b[n..])
  }

  /** Decoding the UTF-8 form of `c` yields `c` and consumes exactly that form, whatever follows. */
  lemma DecodeFirstOfEncodeChar(c: char, rest: seq<byte>)
    ensures DecodeFirst(EncodeChar(c) + rest) == (c, |EncodeChar(c)|)
  {
    var n := c as int;
    if n < 0x80 {
    } else if n < 0x800 {
      DecodeTwo(c, rest);
    } else if n < 0x10000 {
      DecodeThree(c, rest);
    } else {
      DecodeFour(c, rest);
    }
  }

  lemma DecodeTwo(c: char, rest: seq<byte>)
    requires 0x80 <= c as int < 0x800
    ensures DecodeFirst(EncodeChar(c) + rest) == (c, 2)
  {
    var n := c as int;
    var e := EncodeChar(c) + rest;
    var hi, lo := n / 64, n % 64;
    assert n == hi * 64 + lo;
    assert e[0] as int == 0xC0 + hi && e[1] as int == 0x80 + lo;
  }

  lemma DecodeThree(c: char, rest: seq<byte>)
    requires 0x800 <= c as int < 0x10000
    ensures DecodeFirst(EncodeChar(c) + rest) == (c, 3)
  {
    var n := c as int;
    var e := EncodeChar(c) + rest;
    var d2, d1, d0 := n / 4096, n / 64 % 64, n % 64;
    assert n == d2 * 4096 + d1 * 64 + d0;
    assert e[0] as int == 0xE0 + d2 && e[1] as int == 0x80 + d1 && e[2] as int == 0x80 + d0;
    assert d2 == 0 ==> d1 >= 0x20;
    assert d2 == 0xD ==> d1 < 0x20;
  }

  lemma DecodeFour(c: char, rest: seq<byte>)
    requires 0x10000 <= c as int
    ensures DecodeFirst(EncodeChar(c) + rest) == (c, 4)
  {
    var n := c as int;
    var e := EncodeChar(c) + rest;
    var d3, d2, d1, d0 := n / 262144, n / 4096 % 64, n / 64 % 64, n % 64;
    FourDigits(n);
    assert e[0] as int == 0xF0 + d3 && e[1] as int == 0x80 + d2;
    assert e[2] as int == 0x80 + d1 && e[3] as int == 0x80 + d0;
  }

  /** The base-64 digits of a supplementary code point, and the ranges Table 3-7 demands of them. */
  lemma FourDigits(n: int)
    requires 0x10000 <= n < 0x110000
    ensures n == (n / 262144) * 262144 + (n / 4096 % 64) * 4096 + (n / 64 % 64) * 64 + n % 64
    ensures 0 <= n / 262144 <= 4
    ensures n / 262144 == 0 ==> n / 4096 % 64 >= 0x10
    ensures n / 262144 == 4 ==> n / 4096 % 64 < 0x10
  {
    var q1 := n / 64;
    var q2 := q1 / 64;
    var q3 := q2 / 64;
    assert n == q1 * 64 + n % 64;
    assert q1 == q2 * 64 + q1 % 64;
    assert q2 == q3 * 64 + q2 % 64;
    assert q2 == n / 4096;
    assert q3 == n / 262144;
  }

  /** Every string survives the trip to bytes and back. */
  lemma {:induction false} DecodeEncode(s: string)
    ensures Decode(Encode(s)) == s
  {
    if s != [] {
      var head := EncodeChar(s[0]);
      var tail := Encode(s[1..]);
      DecodeFirstOfEncodeChar(s[0], tail);
      assert (head + tail)[|head|..] == tail;
      DecodeEncode(s[1..]);
    }
  }

  /** Decoding emits at least one character for every non-empty input. */
  lemma DecodeNonEmpty(b: seq<byte>)
    requires b != []
    ensures Decode(b) != []
  {
  }
}
