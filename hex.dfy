/** Lower-case hexadecimal of a byte string, as `fmt.Sprintf("%x", bytes)`
    writes it: two digits per byte, high nibble first. */
module Hex {
  import opened Wrappers
  import opened Strings

  function HexDigit(d: nat): (c: char)
    requires d < 16
    ensures IsDigit(c) || 'a' <= c <= 'f'
  {
    if d < 10 then ('0' as int + d) as char else ('a' as int + d - 10) as char
  }

  function HexValue(c: char): (r: Option<nat>)
    ensures r.Some? ==> r.value < 16 && HexDigit(r.value) == c
  {
    if IsDigit(c) then Some(c as int - '0' as int)
    else if 'a' <= c <= 'f' then Some(c as int - 'a' as int + 10)
    else None
  }

  lemma HexValueOfDigit(d: nat)
    requires d < 16
    ensures HexValue(HexDigit(d)) == Some(d)
  {
  }

  function Encode(bs: seq<byte>): (s: string)
    ensures |s| == 2 * |bs|
    ensures forall i :: 0 <= i < |s| ==> IsDigit(s[i]) || 'a' <= s[i] <= 'f'
  {
    if bs == [] then ""
    else [HexDigit(bs[0] / 16), HexDigit(bs[0] % 16)] + Encode(bs[1..])
  }

  function Decode(s: string): Option<seq<byte>>
    decreases |s|
  {
    if |s| < 2 then (if s == "" then Some([]) else None)
    else match (HexValue(s[0]), HexValue(s[1]), Decode(s[2..]))
      case (Some(h), Some(l), Some(rest)) => Some([h * 16 + l] + rest)
      case _ => None
  }

  /** The digits give the bytes back. */
  lemma {:induction false} DecodeEncode(bs: seq<byte>)
    ensures Decode(Encode(bs)) == Some(bs)
    decreases |bs|
  {
    if bs != [] {
      DecodeEncode(bs[1..]);
      var s := Encode(bs);
      HexValueOfDigit(bs[0] / 16);
      HexValueOfDigit(bs[0] % 16);
      assert s[2..] == Encode(bs[1..]);
      assert bs == [bs[0]] + bs[1..];
    }
  }

  lemma EncodeInjective(a: seq<byte>, b: seq<byte>)
    requires Encode(a) == Encode(b)
    ensures a == b
  {
    DecodeEncode(a);
    DecodeEncode(b);
  }
}
