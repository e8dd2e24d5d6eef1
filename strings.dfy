/** The few pieces of Go's `strings` package and of its byte/string
    conversions that the registry relies on, over Dafny strings. */
module Strings {
  import opened Wrappers

  type byte = b: int | 0 <= b < 256

  predicate IsDigit(c: char) { '0' <= c <= '9' }
  predicate IsUpper(c: char) { 'A' <= c <= 'Z' }
  predicate IsLower(c: char) { 'a' <= c <= 'z' }
  predicate IsAlpha(c: char) { IsUpper(c) || IsLower(c) }
  predicate IsAlnum(c: char) { IsAlpha(c) || IsDigit(c) }

  /** `strings.HasPrefix(s, p)` */
  predicate HasPrefix(s: string, p: string) {
    |p| <= |s| && s[..|p|] == p
  }

  lemma PrefixOfPrefix(s: string, p: string, x: string)
    requires HasPrefix(s, p + x)
    ensures HasPrefix(s, p)
  {
    assert s[..|p|] == (p + x)[..|p|];
  }

  /** A prefix of `[c] + a` is `c` followed by a prefix of `a`. */
  lemma PrefixCons(c: char, a: string, p: string)
    requires p != []
    ensures HasPrefix([c] + a, p) <==> c == p[0] && HasPrefix(a, p[1..])
  {
    if HasPrefix([c] + a, p) {
      assert a[..|p| - 1] == ([c] + a)[..|p|][1..];
    }
    if c == p[0] && HasPrefix(a, p[1..]) {
      assert ([c] + a)[..|p|] == [c] + a[..|p| - 1];
    }
  }

  /** `strings.Contains(s, sub)`, written as a left-to-right scan. */
  predicate Contains(s: string, sub: string)
    decreases |s|
  {
    HasPrefix(s, sub) || (|s| > 0 && Contains(s[1..], sub))
  }

  lemma {:induction false} ContainsAt(s: string, sub: string, i: nat)
    requires i <= |s| && HasPrefix(s[i..], sub)
    ensures Contains(s, sub)
    decreases i
  {
    if i > 0 {
      assert s[1..][i - 1..] == s[i..];
      ContainsAt(s[1..], sub, i - 1);
    }
  }

  /** `strings.IndexByte(s, c)`, with `None` for Go's -1. */
  function IndexOf(s: string, c: char): (r: Option<nat>)
    ensures r.None? <==> c !in s
    ensures r.Some? ==> r.value < |s| && s[r.value] == c && c !in s[..r.value]
  {
    if s == [] then None
    else if s[0] == c then Some(0)
    else match IndexOf(s[1..], c)
      case None => None
      case Some(i) => assert s[..i + 1] == [s[0]] + s[1..][..i]; Some(i + 1)
  }

  lemma {:induction false} IndexOfJoined(a: string, c: char, b: string)
    requires c !in a
    ensures IndexOf(a + [c] + b, c) == Some(|a|)
  {
    var s := a + [c] + b;
    var r := IndexOf(s, c);
    assert s[|a|] == c;
    assert s[..|a|] == a;
  }

  /** `strings.Join(parts, string(sep))` for a non-empty slice. */
  function Join(parts: seq<string>, sep: char): string
    requires |parts| >= 1
  {
    if |parts| == 1 then parts[0] else parts[0] + [sep] + Join(parts[1..], sep)
  }

  /** `strings.Split(s, string(sep))`: the pieces between the separators, in
      order. Never empty: a string without `sep` splits into itself. */
  function Split(s: string, sep: char): (parts: seq<string>)
    ensures |parts| >= 1
    decreases |s|
  {
    if s == [] then [""]
    else
      var rest := Split(s[1..], sep);
      if s[0] == sep then [""] + rest else [[s[0]] + rest[0]] + rest[1..]
  }

  /** No piece of a split contains the separator. */
  lemma {:induction false} SplitSeparatorFree(s: string, sep: char)
    ensures SeparatorFree(Split(s, sep), sep)
    decreases |s|
  {
    if s != [] {
      SplitSeparatorFree(s[1..], sep);
      var rest := Split(s[1..], sep);
      if s[0] != sep {
        assert sep !in [s[0]] + rest[0];
        var parts := [[s[0]] + rest[0]] + rest[1..];
        forall k | 0 <= k < |parts| ensures sep !in parts[k] {
          if k > 0 { assert parts[k] == rest[k]; }
        }
      } else {
        var parts := [""] + rest;
        forall k | 0 <= k < |parts| ensures sep !in parts[k] {
          if k > 0 { assert parts[k] == rest[k - 1]; }
        }
      }
    }
  }

  /** Joining the pieces gives back the string that was split. */
  lemma {:induction false} JoinSplit(s: string, sep: char)
    ensures Join(Split(s, sep), sep) == s
    decreases |s|
  {
    if s != [] {
      var rest := Split(s[1..], sep);
      JoinSplit(s[1..], sep);
      if s[0] == sep {
        assert ([""] + rest)[1..] == rest;
      } else {
        var parts := [[s[0]] + rest[0]] + rest[1..];
        if |rest| > 1 {
          assert parts[1..] == rest[1..];
        }
      }
      assert s == [s[0]] + s[1..];
    }
  }

  /** The last piece of a join follows the last separator. */
  lemma {:induction false} JoinLast(parts: seq<string>, sep: char)
    requires |parts| > 1
    ensures Join(parts, sep) == Join(parts[..|parts| - 1], sep) + [sep] + parts[|parts| - 1]
    decreases |parts|
  {
    var n := |parts|;
    if n > 2 {
      var tail := parts[1..];
      JoinLast(tail, sep);
      assert parts[..n - 1][1..] == tail[..n - 2];
      assert parts[..n - 1][0] == parts[0];
      assert tail[n - 2] == parts[n - 1];
    }
  }

  /** Splitting a separator-free prefix onto a string extends its first piece. */
  lemma {:induction false} SplitPrefix(a: string, b: string, sep: char)
    requires sep !in a
    ensures Split(a + b, sep) == [a + Split(b, sep)[0]] + Split(b, sep)[1..]
    decreases |a|
  {
    var sb := Split(b, sep);
    if a != [] {
      assert (a + b)[1..] == a[1..] + b;
      SplitPrefix(a[1..], b, sep);
      var r := Split(a[1..] + b, sep);
      assert r[0] == a[1..] + sb[0];
      assert r[1..] == sb[1..];
      assert a == [a[0]] + a[1..];
      assert [a[0]] + r[0] == a + sb[0];
    } else {
      assert a + b == b;
      assert a + sb[0] == sb[0];
      assert sb == [sb[0]] + sb[1..];
    }
  }

  /** No piece may contain a separator itself. */
  predicate SeparatorFree(parts: seq<string>, sep: char) {
    forall k :: 0 <= k < |parts| ==> sep !in parts[k]
  }

  /** Splitting undoes joining of separator-free pieces. */
  lemma {:induction false} SplitJoin(parts: seq<string>, sep: char)
    requires |parts| >= 1 && SeparatorFree(parts, sep)
    ensures Split(Join(parts, sep), sep) == parts
  {
    if |parts| == 1 {
      SplitPrefix(parts[0], "", sep);
      assert Split("", sep) == [""];
      assert parts[0] + "" == parts[0];
    } else {
      var rest := Join(parts[1..], sep);
      SplitJoin(parts[1..], sep);
      SplitPrefix(parts[0], [sep] + rest, sep);
      assert ([sep] + rest)[1..] == rest;
      assert Split([sep] + rest, sep) == [""] + Split(rest, sep);
      assert parts[0] + "" == parts[0];
      assert parts[0] + [sep] + rest == parts[0] + ([sep] + rest);
      assert parts == [parts[0]] + parts[1..];
    }
  }

  /** A character other than the separator appears in the joined string only
      if it appears in some piece. */
  lemma {:induction false} NotInJoin(parts: seq<string>, sep: char, c: char)
    requires |parts| >= 1 && c != sep
    requires forall k :: 0 <= k < |parts| ==> c !in parts[k]
    ensures c !in Join(parts, sep)
  {
    if |parts| > 1 {
      NotInJoin(parts[1..], sep, c);
    }
  }

  /** A separator splits the string into the pieces before it and the pieces after it. */
  lemma {:induction false} SplitAround(x: string, sep: char, y: string)
    ensures Split(x + [sep] + y, sep) == Split(x, sep) + Split(y, sep)
    decreases |x|
  {
    if x == [] {
      SplitCons(sep, y, sep);
      assert x + [sep] + y == [sep] + y;
    } else {
      var t := x[1..];
      SplitAround(t, sep, y);
      SplitAroundCons(x[0], t, sep, t + [sep] + y, Split(y, sep));
      assert x == [x[0]] + t;
      assert x + [sep] + y == [x[0]] + (t + [sep] + y);
    }
  }

  /** Putting a character in front of both sides keeps a split equation. */
  lemma SplitAroundCons(c: char, t: string, sep: char, u: string, d: seq<string>)
    requires Split(u, sep) == Split(t, sep) + d
    ensures Split([c] + u, sep) == Split([c] + t, sep) + d
  {
    SplitCons(c, u, sep);
    SplitCons(c, t, sep);
    if c != sep {
      ExtendFirst([c], Split(t, sep), d);
    }
  }

  /** One step of the split. */
  lemma SplitCons(c: char, t: string, sep: char)
    ensures var r := Split(t, sep);
      Split([c] + t, sep) == if c == sep then [""] + r else [[c] + r[0]] + r[1..]
  {
    assert ([c] + t)[1..] == t;
  }

  lemma ExtendFirst(h: string, a: seq<string>, b: seq<string>)
    requires |a| >= 1
    ensures [h + (a + b)[0]] + (a + b)[1..] == ([h + a[0]] + a[1..]) + b
  {
    assert (a + b)[1..] == a[1..] + b;
  }

  /** A string without the separator splits into itself alone. */
  lemma {:induction false} SplitWithoutSeparator(s: string, sep: char)
    requires sep !in s
    ensures Split(s, sep) == [s]
    decreases |s|
  {
    if s != [] {
      assert sep !in s[1..];
      SplitWithoutSeparator(s[1..], sep);
      assert s == [s[0]] + s[1..];
    }
  }

  /** Go's `string(bytes)`: one character per byte. */
  function FromBytes(bs: seq<byte>): (s: string)
    ensures |s| == |bs| && forall i :: 0 <= i < |bs| ==> s[i] as int == bs[i]
  {
    seq(|bs|, i requires 0 <= i < |bs| => bs[i] as char)
  }

  predicate IsAscii(s: string) {
    forall i :: 0 <= i < |s| ==> s[i] as int < 128
  }

  /** Go's `[]byte(s)` for a string of ASCII characters. */
  function AsciiBytes(s: string): (bs: seq<byte>)
    requires IsAscii(s)
    ensures |bs| == |s| && forall i :: 0 <= i < |s| ==> bs[i] == s[i] as int
  {
    seq(|s|, i requires 0 <= i < |s| => s[i] as int)
  }

  lemma AsciiBytesRoundTrip(s: string)
    requires IsAscii(s)
    ensures FromBytes(AsciiBytes(s)) == s
  {
    var t := FromBytes(AsciiBytes(s));
    assert forall i :: 0 <= i < |s| ==> t[i] == s[i];
  }
}
