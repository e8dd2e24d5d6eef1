/** A radix-62 byte codec over the alphabet `0-9A-Za-z`. Each byte `b` becomes
    the two digits `b / 62` and `b % 62`, most significant first; decoding
    fails on an odd length, on a character outside the alphabet and on a
    digit pair worth 256 or more. */
module Base62 {
  import opened Wrappers
  import opened Strings

  /** The digit of value `d`: `0`-`9`, then `A`-`Z`, then `a`-`z`. */
  function Digit(d: nat): (c: char)
    requires d < 62
    ensures IsAlnum(c)
  {
    if d < 10 then (d + '0' as int) as char
    else if d < 36 then (d - 10 + 'A' as int) as char
    else (d - 36 + 'a' as int) as char
  }

  /** The value of a digit, or `None` outside the alphabet. */
  function DigitValue(c: char): (r: Option<nat>)
    ensures r.Some? <==> IsAlnum(c)
    ensures r.Some? ==> r.value < 62 && Digit(r.value) == c
  {
    if IsDigit(c) then Some(c as int - '0' as int)
    else if IsUpper(c) then Some(c as int - 'A' as int + 10)
    else if IsLower(c) then Some(c as int - 'a' as int + 36)
    else None
  }

  lemma DigitValueOfDigit(d: nat)
    requires d < 62
    ensures DigitValue(Digit(d)) == Some(d)
  {
  }

  /** Every character of `s` is a base-62 digit. */
  predicate IsAlphabet(s: string) {
    forall i :: 0 <= i < |s| ==> IsAlnum(s[i])
  }

  function Encode(bs: seq<byte>): (s: string)
    ensures |s| == 2 * |bs|
    ensures IsAlphabet(s)
  {
    if bs == [] then ""
    else [Digit(bs[0] / 62), Digit(bs[0] % 62)] + Encode(bs[1..])
  }

  function Decode(s: string): Option<seq<byte>>
    decreases |s|
  {
    if s == [] then Some([])
    else if |s| == 1 then None
    else match (DigitValue(s[0]), DigitValue(s[1]))
      case (Some(hi), Some(lo)) =>
        if hi * 62 + lo < 256 then
          match Decode(s[2..])
          case Some(rest) => Some([hi * 62 + lo] + rest)
          case None => None
        else None
      case _ => None
  }

  /** Decoding inverts encoding. */
  lemma {:induction false} DecodeEncode(bs: seq<byte>)
    ensures Decode(Encode(bs)) == Some(bs)
  {
    if bs != [] {
      var b := bs[0];
      DigitValueOfDigit(b / 62);
      DigitValueOfDigit(b % 62);
      var s := Encode(bs);
      assert s[2..] == Encode(bs[1..]);
      DecodeEncode(bs[1..]);
      assert bs == [b] + bs[1..];
    }
  }

  /** Encoding inverts decoding wherever decoding succeeds, so the codec is a
      bijection between byte strings and decodable strings. */
  lemma {:induction false} EncodeDecode(s: string)
    requires Decode(s).Some?
    ensures Encode(Decode(s).value) == s
    decreases |s|
  {
    if s != [] {
      var hi := DigitValue(s[0]).value;
      var lo := DigitValue(s[1]).value;
      EncodeDecode(s[2..]);
      var bs := Decode(s).value;
      assert bs[0] == hi * 62 + lo;
      assert bs[1..] == Decode(s[2..]).value;
      assert bs[0] / 62 == hi && bs[0] % 62 == lo;
      assert s == [s[0], s[1]] + s[2..];
    }
  }

  lemma EncodeInjective(a: seq<byte>, b: seq<byte>)
    requires Encode(a) == Encode(b)
    ensures a == b
  {
    DecodeEncode(a);
    DecodeEncode(b);
  }
}
