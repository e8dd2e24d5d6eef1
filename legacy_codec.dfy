/** The earlier package-name codec (parse/parse.go): a grammar check, then a
    `strings.Replacer` that spells each of `- . @ /` as a `_JFMT...` token.
    Decoding replaces the tokens back, so a name that already contains a token
    does not survive the round trip. */
module LegacyCodec {
  import opened Wrappers
  import opened Strings
  import opened Replacer

  const InvalidNameMessage: string := "package name contains invalid characters"

  /** The common prefix of every token. */
  const Marker: string := "_JFMT"

  const DashToken: string := "_JFMTdash_"
  const DotToken: string := "_JFMTdot_"
  const AtToken: string := "_JFMTat_"
  const SlashToken: string := "_JFMTslash_"

  /** The replacer built in `EncodeName`. */
  const EncodeRules: seq<Rule> :=
    [Rule("-", DashToken), Rule(".", DotToken), Rule("@", AtToken), Rule("/", SlashToken)]

  /** The replacer built in `OriginalName`. */
  const DecodeRules: seq<Rule> :=
    [Rule(DashToken, "-"), Rule(DotToken, "."), Rule(AtToken, "@"), Rule(SlashToken, "/")]

  /** `[a-zA-Z0-9\/_.-]` */
  predicate LegacyChar(c: char) {
    IsAlnum(c) || c == '/' || c == '_' || c == '.' || c == '-'
  }

  /** The whole of `n` matches `^[a-zA-Z0-9@][a-zA-Z0-9\/_.-]*$`. */
  predicate ValidLegacyName(n: string) {
    |n| > 0 && (IsAlnum(n[0]) || n[0] == '@') && forall i :: 1 <= i < |n| ==> LegacyChar(n[i])
  }

  function EncodeName(n: string): (r: Result<string, string>)
    ensures r.Failure? <==> !ValidLegacyName(n)
    ensures r.Failure? ==> r.error == InvalidNameMessage
  {
    if ValidLegacyName(n) then Success(Replace(n, EncodeRules)) else Failure(InvalidNameMessage)
  }

  function OriginalName(e: string): string {
    Replace(e, DecodeRules)
  }

  /** The characters the encoder rewrites. */
  predicate Special(c: char) {
    c == '-' || c == '.' || c == '@' || c == '/'
  }

  /** Reference definition: each character on its own. */
  function EscapeChar(c: char): string {
    if c == '-' then DashToken
    else if c == '.' then DotToken
    else if c == '@' then AtToken
    else if c == '/' then SlashToken
    else [c]
  }

  function Escape(s: string): string {
    if s == [] then "" else EscapeChar(s[0]) + Escape(s[1..])
  }

  /** The replacer handles every character independently: `Replace` with the
      encoding pairs is the character-by-character escape. */
  lemma {:induction false} ReplaceIsEscape(s: string)
    ensures Replace(s, EncodeRules) == Escape(s)
    decreases |s|
  {
    if s != [] {
      ReplaceIsEscape(s[1..]);
      var c := s[0];
      assert s[..1] == [c];
      if c == '-' {
        FirstRuleIs(s, EncodeRules, 0);
      } else if c == '.' {
        FirstRuleIs(s, EncodeRules, 1);
      } else if c == '@' {
        FirstRuleIs(s, EncodeRules, 2);
      } else if c == '/' {
        FirstRuleIs(s, EncodeRules, 3);
      } else {
        FirstRuleNone(s, EncodeRules);
      }
    }
  }

  /** On a valid name the encoder succeeds with the escape of each character. */
  lemma EncodeEscapes(n: string)
    requires ValidLegacyName(n)
    ensures EncodeName(n) == Success(Escape(n))
  {
    ReplaceIsEscape(n);
  }

  /** A character of an accepted name, or of a token: `[A-Za-z0-9_]`. */
  predicate EncodedChar(c: char) {
    IsAlnum(c) || c == '_'
  }

  lemma {:induction false} EscapeAlphabet(s: string)
    requires forall i :: 0 <= i < |s| ==> LegacyChar(s[i]) || s[i] == '@'
    ensures forall i :: 0 <= i < |Escape(s)| ==> EncodedChar(Escape(s)[i])
    decreases |s|
  {
    if s != [] {
      EscapeAlphabet(s[1..]);
      var head := EscapeChar(s[0]);
      assert forall i :: 0 <= i < |head| ==> EncodedChar(head[i]);
      var e := Escape(s);
      forall i | 0 <= i < |e| ensures EncodedChar(e[i]) {
        if i >= |head| {
          assert e[i] == Escape(s[1..])[i - |head|];
        }
      }
    }
  }

  /** Encoded output has only `[A-Za-z0-9_]`, so none of `- . @ /`. */
  lemma EncodedAlphabet(n: string)
    requires ValidLegacyName(n)
    ensures var e := EncodeName(n).value;
      forall i :: 0 <= i < |e| ==> EncodedChar(e[i]) && !Special(e[i])
  {
    EncodeEscapes(n);
    EscapeAlphabet(n);
  }

  /** Each `-` adds 9 characters, each `.` 8, each `@` 7 and each `/` 10. */
  lemma {:induction false} EscapeLength(s: string)
    ensures |Escape(s)| == |s| + 9 * multiset(s)['-'] + 8 * multiset(s)['.']
                             + 7 * multiset(s)['@'] + 10 * multiset(s)['/']
    decreases |s|
  {
    if s != [] {
      var c, t := s[0], s[1..];
      EscapeLength(t);
      assert s == [c] + t;
      var m, n := multiset(s), multiset(t);
      assert m == multiset{c} + n;
      assert |Escape(s)| == |EscapeChar(c)| + |Escape(t)|;
      if c == '-' {
        assert m['-'] == n['-'] + 1 && m['.'] == n['.'] && m['@'] == n['@'] && m['/'] == n['/'];
      } else if c == '.' {
        assert m['-'] == n['-'] && m['.'] == n['.'] + 1 && m['@'] == n['@'] && m['/'] == n['/'];
      } else if c == '@' {
        assert m['-'] == n['-'] && m['.'] == n['.'] && m['@'] == n['@'] + 1 && m['/'] == n['/'];
      } else if c == '/' {
        assert m['-'] == n['-'] && m['.'] == n['.'] && m['@'] == n['@'] && m['/'] == n['/'] + 1;
      } else {
        assert m['-'] == n['-'] && m['.'] == n['.'] && m['@'] == n['@'] && m['/'] == n['/'];
      }
    }
  }

  /** Text holding no token marker decodes to itself. */
  lemma OriginalNameIdentity(e: string)
    requires !Contains(e, Marker)
    ensures OriginalName(e) == e
  {
    forall i | 0 <= i < |e| ensures FirstRule(e[i..], DecodeRules).None? {
      if FirstRule(e[i..], DecodeRules).Some? {
        MarkerBeforeRule(e[i..]);
        ContainsAt(e, Marker, i);
        assert false;
      }
    }
    ReplaceNoMatch(e, DecodeRules);
  }

  /** An escape begins with a run of plain characters only when the original does. */
  lemma {:induction false} EscapePrefix(t: string, p: string)
    requires forall i :: 0 <= i < |p| ==> !Special(p[i]) && p[i] != '_'
    requires HasPrefix(Escape(t), p)
    ensures HasPrefix(t, p)
    decreases |p|
  {
    if p != [] {
      assert t != [];
      assert Escape(t)[0] == p[0];
      if Special(t[0]) {
        assert false;
      }
      assert Escape(t) == [t[0]] + Escape(t[1..]);
      assert Escape(t[1..])[..|p| - 1] == p[1..];
      EscapePrefix(t[1..], p[1..]);
      assert t[..|p|] == [t[0]] + t[1..][..|p| - 1];
    }
  }

  /** A token at the front of an escape is decoded back to its character. */
  lemma DecodeToken(c: char, rest: string)
    requires Special(c)
    ensures Replace(EscapeChar(c) + rest, DecodeRules) == [c] + Replace(rest, DecodeRules)
  {
    var e := EscapeChar(c) + rest;
    var tok := EscapeChar(c);
    assert e[..|tok|] == tok;
    assert e[|tok|..] == rest;
    if c == '-' {
      FirstRuleIs(e, DecodeRules, 0);
    } else if c == '.' {
      assert e[6] == 'o';
      FirstRuleIs(e, DecodeRules, 1);
    } else if c == '@' {
      assert e[5] == 'a';
      FirstRuleIs(e, DecodeRules, 2);
    } else {
      assert e[5] == 's';
      FirstRuleIs(e, DecodeRules, 3);
    }
  }

  /** No token starts at a plain character unless the original spells `_JFMT` there. */
  lemma PlainHead(c: char, t: string)
    requires !Special(c) && !HasPrefix([c] + t, Marker)
    ensures FirstRule([c] + Escape(t), DecodeRules).None?
  {
    var e := [c] + Escape(t);
    if FirstRule(e, DecodeRules).Some? {
      MarkerBeforeRule(e);
      assert Escape(t)[..4] == e[1..5] == "JFMT";
      EscapePrefix(t, "JFMT");
      assert false;
    }
  }

  /** Every decoding rule starts with the marker. */
  lemma MarkerBeforeRule(e: string)
    requires FirstRule(e, DecodeRules).Some?
    ensures HasPrefix(e, Marker)
  {
    var pat := DecodeRules[FirstRule(e, DecodeRules).value].pattern;
    assert HasPrefix(pat, Marker);
    assert e[..|Marker|] == pat[..|Marker|];
  }

  /** Decoding an escape gives back every string in which `_JFMT` does not occur. */
  lemma {:induction false} DecodeEscape(n: string)
    requires !Contains(n, Marker)
    ensures OriginalName(Escape(n)) == n
    decreases |n|
  {
    if n != [] {
      var c := n[0];
      var t := n[1..];
      assert n == [c] + t;
      DecodeEscape(t);
      if Special(c) {
        DecodeToken(c, Escape(t));
      } else {
        PlainHead(c, t);
        var e := [c] + Escape(t);
        assert e[1..] == Escape(t);
      }
    }
  }

  /** The round trip holds for valid names in which `_JFMT` does not occur. */
  lemma RoundTrip(n: string)
    requires ValidLegacyName(n) && !Contains(n, Marker)
    ensures EncodeName(n).Success? && OriginalName(EncodeName(n).value) == n
  {
    EncodeEscapes(n);
    DecodeEscape(n);
  }

  /** Text without the characters the encoder rewrites is its own escape. */
  lemma {:induction false} EscapePlain(s: string)
    requires forall i :: 0 <= i < |s| ==> !Special(s[i])
    ensures Escape(s) == s
    decreases |s|
  {
    if s != [] {
      EscapePlain(s[1..]);
      assert s == [s[0]] + s[1..];
    }
  }

  /** and fails in general: the valid name `a_JFMTdot_b` is left as it is by the
      encoder but decodes to `a.b`. */
  lemma RoundTripCounterexample()
    ensures ValidLegacyName("a_JFMTdot_b")
    ensures EncodeName("a_JFMTdot_b") == Success("a_JFMTdot_b")
    ensures OriginalName("a_JFMTdot_b") == "a.b"
  {
    CounterexampleEncodes();
    CounterexampleDecodes();
  }

  lemma CounterexampleEncodes()
    ensures ValidLegacyName("a_JFMTdot_b")
    ensures EncodeName("a_JFMTdot_b") == Success("a_JFMTdot_b")
  {
    PlainEncodes("a_JFMTdot_b");
  }

  /** A valid name without `- . @ /` is its own encoding. */
  lemma PlainEncodes(n: string)
    requires ValidLegacyName(n)
    requires forall i :: 0 <= i < |n| ==> !Special(n[i])
    ensures EncodeName(n) == Success(n)
  {
    EncodeEscapes(n);
    EscapePlain(n);
  }

  lemma CounterexampleDecodes()
    ensures OriginalName("a_JFMTdot_b") == "a.b"
  {
    assert Escape("b") == "b";
    assert Escape(".b") == DotToken + "b";
    assert Escape("a.b") == "a_JFMTdot_b";
    assert !Contains("a.b", Marker);
    DecodeEscape("a.b");
  }
}
