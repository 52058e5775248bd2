/**
 * A reference decoder for hexadecimal text, two digits per byte, high nibble first.
 * Both hex encoders of the system are stated against it: their output decodes back to their input.
 */
module Hex {
  import opened Base

  /** The value of one hexadecimal digit of either case. */
  function DigitValue(c: char): (r: Option<int>)
    ensures r.Some? ==> 0 <= r.value < 16
    ensures r.Some? <==> ('0' <= c <= '9' || 'a' <= c <= 'f' || 'A' <= c <= 'F')
  {
    if '0' <= c <= '9' then Some(c as int - '0' as int)
    else if 'a' <= c <= 'f' then Some(c as int - 'a' as int + 10)
    else if 'A' <= c <= 'F' then Some(c as int - 'A' as int + 10)
    else None
  }

  /** The bytes that `s` spells, or None when its length is odd or it holds a non-digit. */
  function Decode(s: string): (r: Option<seq<byte>>)
  {
    if s == [] then Some([])
    else if |s| == 1 then None
    else
      match (DigitValue(s[0]), DigitValue(s[1]), Decode(s[2..]))
      case (Some(hi), Some(lo), Some(rest)) => Some([(hi * 16 + lo) as byte] + rest)
      case _ => None
  }

  /** Text whose digit pairs spell the bytes of `b` decodes to `b`. */
  lemma {:induction false} DecodePairs(s: string, b: seq<byte>)
    requires |s| == 2 * |b|
    requires forall i :: 0 <= i < |b| ==>
      DigitValue(s[2 * i]) == Some(b[i] as int / 16) && DigitValue(s[2 * i + 1]) == Some(b[i] as int % 16)
    ensures Decode(s) == Some(b)
  {
    if b != [] {
      forall i | 0 <= i < |b| - 1
        ensures DigitValue(s[2..][2 * i]) == Some(b[1..][i] as int / 16)
        ensures DigitValue(s[2..][2 * i + 1]) == Some(b[1..][i] as int % 16)
      {
        assert s[2..][2 * i] == s[2 * (i + 1)] && s[2..][2 * i + 1] == s[2 * (i + 1) + 1];
      }
      DecodePairs(s[2..], b[1..]);
      assert DigitValue(s[0]) == Some(b[0] as int / 16) && DigitValue(s[1]) == Some(b[0] as int % 16);
      assert [b[0]] + b[1..] == b;
    }
  }
}
