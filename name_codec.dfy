/** The package-name codec in use (pkg/parse/encode.go): a grammar check, then
    base-62 of the name's bytes, so that any accepted name becomes an
    alphanumeric collection name. The collection holding user accounts,
    `just_auth_system`, is passed through decoding unchanged. */
module NameCodec {
  import opened Wrappers
  import opened Strings
  import Base62

  /** The collection of user accounts; never a package. */
  const AuthCollection: string := "just_auth_system"

  const InvalidNameMessage: string := "package name contains invalid characters"

  /** `[a-zA-Z0-9:_.-]` */
  predicate NameChar(c: char) {
    IsAlnum(c) || c == ':' || c == '_' || c == '.' || c == '-'
  }

  /** The whole of `n` matches `^[a-zA-Z0-9@][a-zA-Z0-9:_.-]*$`. */
  predicate ValidName(n: string) {
    |n| > 0 && (IsAlnum(n[0]) || n[0] == '@') && forall i :: 1 <= i < |n| ==> NameChar(n[i])
  }

  lemma ValidNameIsAscii(n: string)
    requires ValidName(n)
    ensures IsAscii(n)
  {
  }

  /** `EncodeName`: the base-62 form of a valid name, or the grammar error. */
  function EncodeName(n: string): (r: Result<string, string>)
    ensures r.Failure? <==> !ValidName(n)
    ensures r.Failure? ==> r.error == InvalidNameMessage
    ensures r.Success? ==> |r.value| == 2 * |n| && Base62.IsAlphabet(r.value)
    ensures r.Success? ==> r.value != AuthCollection
  {
    if ValidName(n) then
      ValidNameIsAscii(n);
      var e := Base62.Encode(AsciiBytes(n));
      assert !IsAlnum(AuthCollection[4]);
      Success(e)
    else Failure(InvalidNameMessage)
  }

  /** `OriginalName`: the reserved collection name unchanged, otherwise the
      decoded bytes; Go ignores the decoder's error and converts the nil
      slice it returns, which gives the empty string. */
  function OriginalName(e: string): (r: string)
    ensures e == AuthCollection ==> r == AuthCollection
  {
    if e == AuthCollection then AuthCollection
    else match Base62.Decode(e)
      case Some(bs) => FromBytes(bs)
      case None => ""
  }

  /** The characters and positions the grammar refuses. */
  lemma RejectsMalformed(n: string)
    ensures n == "" ==> EncodeName(n) == Failure(InvalidNameMessage)
    ensures |n| > 0 && n[0] in {'.', '-', '_', ':'} ==> EncodeName(n).Failure?
    ensures '/' in n || ' ' in n ==> EncodeName(n).Failure?
    ensures forall i :: 1 <= i < |n| && n[i] == '@' ==> EncodeName(n).Failure?
  {
  }

  /** Decoding the encoding of any valid name gives the name back. */
  lemma RoundTrip(n: string)
    requires ValidName(n)
    ensures EncodeName(n).Success? && OriginalName(EncodeName(n).value) == n
  {
    ValidNameIsAscii(n);
    Base62.DecodeEncode(AsciiBytes(n));
    AsciiBytesRoundTrip(n);
  }

  /** Distinct valid names have distinct encoded names. */
  lemma EncodeInjective(a: string, b: string)
    requires ValidName(a) && ValidName(b)
    requires EncodeName(a) == EncodeName(b)
    ensures a == b
  {
    RoundTrip(a);
    RoundTrip(b);
  }
}
