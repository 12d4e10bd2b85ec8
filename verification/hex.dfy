/** `byte.ToString("x2")` concatenated over a byte array, and its inverse. */
module Hex {
  import opened Types

  predicate IsLowerHexDigit(c: char) {
    '0' <= c <= '9' || 'a' <= c <= 'f'
  }

  /** The value of one lower-case hexadecimal digit. */
  function DigitValue(c: char): (v: nat)
    requires IsLowerHexDigit(c)
    ensures v < 16
  {
    if c <= '9' then c as int - '0' as int else c as int - 'a' as int + 10
  }

  /** The lower-case digit for a value below 16. */
  function HexDigit(v: nat): (c: char)
    requires v < 16
    ensures IsLowerHexDigit(c) && DigitValue(c) == v
  {
    if v < 10 then ('0' as int + v) as char else ('a' as int + v - 10) as char
  }

  lemma DigitRoundTrip(c: char)
    requires IsLowerHexDigit(c)
    ensures HexDigit(DigitValue(c)) == c
  {
  }

  /** `b.ToString("x2")`: two lower-case digits, high nibble first. */
  function ByteToHex(b: byte): (s: string)
    ensures |s| == 2 && IsLowerHexDigit(s[0]) && IsLowerHexDigit(s[1])
    ensures DigitValue(s[0]) * 16 + DigitValue(s[1]) == b as int
  {
    [HexDigit(b as int / 16), HexDigit(b as int % 16)]
  }

  /** The `StringBuilder` loop: each byte's two digits, in order. */
  function BytesToHex(bs: seq<byte>): (s: string)
    ensures |s| == 2 * |bs|
    ensures forall i :: 0 <= i < |s| ==> IsLowerHexDigit(s[i])
  {
    if |bs| == 0 then "" else ByteToHex(bs[0]) + BytesToHex(bs[1..])
  }

  /** Reads back a string of lower-case digit pairs; any other string is rejected. */
  function ParseHex(s: string): (r: Option<seq<byte>>)
    ensures r.Some? <==> |s| % 2 == 0 && forall i :: 0 <= i < |s| ==> IsLowerHexDigit(s[i])
    ensures r.Some? ==> 2 * |r.value| == |s|
  {
    if |s| == 0 then Some([])
    else if |s| == 1 || !IsLowerHexDigit(s[0]) || !IsLowerHexDigit(s[1]) then None
    else
      match ParseHex(s[2..])
      case None => None
      case Some(rest) => Some([(DigitValue(s[0]) * 16 + DigitValue(s[1])) as byte] + rest)
  }

  lemma {:induction false} ParseBytesToHex(bs: seq<byte>)
    ensures ParseHex(BytesToHex(bs)) == Some(bs)
  {
    if |bs| > 0 {
      var s := BytesToHex(bs);
      assert s[2..] == BytesToHex(bs[1..]);
      ParseBytesToHex(bs[1..]);
      assert bs == [bs[0]] + bs[1..];
    }
  }

  /** Two digits read as a byte print back as the same two digits. */
  lemma ByteOfDigits(c0: char, c1: char)
    requires IsLowerHexDigit(c0) && IsLowerHexDigit(c1)
    ensures ByteToHex((DigitValue(c0) * 16 + DigitValue(c1)) as byte) == [c0, c1]
  {
    var d0, d1 := DigitValue(c0), DigitValue(c1);
    var b := d0 * 16 + d1;
    assert b / 16 == d0 && b % 16 == d1;
    DigitRoundTrip(c0);
    DigitRoundTrip(c1);
  }

  lemma {:induction false} BytesToHexParse(s: string, bs: seq<byte>)
    requires ParseHex(s) == Some(bs)
    ensures BytesToHex(bs) == s
  {
    if |s| > 0 {
      var b := (DigitValue(s[0]) * 16 + DigitValue(s[1])) as byte;
      var rest := ParseHex(s[2..]).value;
      assert bs == [b] + rest;
      assert bs[1..] == rest;
      BytesToHexParse(s[2..], rest);
      ByteOfDigits(s[0], s[1]);
      assert s == [s[0], s[1]] + s[2..];
    }
  }

  lemma BytesToHexInjective(a: seq<byte>, b: seq<byte>)
    requires BytesToHex(a) == BytesToHex(b)
    ensures a == b
  {
    ParseBytesToHex(a);
    ParseBytesToHex(b);
  }
}
