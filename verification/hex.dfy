/** The `%02x` rendering of a digest: two lower-case hex characters per byte. */
module HexFormat {
  import opened Results
  import opened FileSystem

  predicate IsLowerHex(c: char) {
    '0' <= c <= '9' || 'a' <= c <= 'f'
  }

  /** One hex digit for a nibble, lower case. */
  function Digit(d: int): (c: char)
    requires 0 <= d < 16
    ensures IsLowerHex(c)
  {
    if d < 10 then ('0' as int + d) as char else ('a' as int + d - 10) as char
  }

  /** The nibble a hex digit stands for, or `None` for any other character. */
  function DigitValue(c: char): (r: Option<int>)
    ensures r.Some? <==> IsLowerHex(c)
    ensures r.Some? ==> 0 <= r.value < 16
  {
    if '0' <= c <= '9' then Some(c as int - '0' as int)
    else if 'a' <= c <= 'f' then Some(c as int - 'a' as int + 10)
    else None
  }

  lemma DigitRoundTrip(d: int)
    requires 0 <= d < 16
    ensures DigitValue(Digit(d)) == Some(d)
  {
  }

  /** `String.format("%02x", b)`: high nibble first, always two characters. */
  function HexByte(b: byte): (s: string)
    ensures |s| == 2 && IsLowerHex(s[0]) && IsLowerHex(s[1])
  {
    [Digit(b / 16), Digit(b % 16)]
  }

  /** The digest rendered byte after byte, as the `Formatter` loop and `joinToString` do. */
  function Hex(bs: seq<byte>): (s: string)
    ensures |s| == 2 * |bs|
    ensures forall i :: 0 <= i < |s| ==> IsLowerHex(s[i])
  {
    if bs == [] then [] else HexByte(bs[0]) + Hex(bs[1..])
  }

  /** Reading two hex characters per byte back; `None` for odd length or a foreign character. */
  function Unhex(s: string): Option<seq<byte>>
    decreases |s|
  {
    if s == [] then Some([])
    else if |s| < 2 then None
    else match (DigitValue(s[0]), DigitValue(s[1]), Unhex(s[2..]))
      case (Some(hi), Some(lo), Some(rest)) => Some([hi * 16 + lo] + rest)
      case _ => None
  }

  /** Decoding the rendering gives the digest back, so distinct digests get distinct strings. */
  lemma {:induction false} UnhexHex(bs: seq<byte>)
    ensures Unhex(Hex(bs)) == Some(bs)
  {
    if bs != [] {
      var b := bs[0];
      var s := Hex(bs);
      assert s[..2] == HexByte(b) && s[2..] == Hex(bs[1..]);
      DigitRoundTrip(b / 16);
      DigitRoundTrip(b % 16);
      UnhexHex(bs[1..]);
      assert bs == [b] + bs[1..];
    }
  }

  lemma HexInjective(a: seq<byte>, b: seq<byte>)
    ensures Hex(a) == Hex(b) <==> a == b
  {
    if Hex(a) == Hex(b) {
      UnhexHex(a);
      UnhexHex(b);
    }
  }
}
