/** Small helpers of the registry (pkg/helpers/helpers.go). */
module Helpers {
  import opened Strings

  /** The last element of a slice; indexing an empty slice panics, so the
      slice must be non-empty. */
  function SplitLast(xs: seq<string>): (r: string)
    requires |xs| > 0
    ensures r == xs[|xs| - 1] && r in xs
  {
    xs[|xs| - 1]
  }

  /** `s` ends with `r`. */
  predicate IsSuffix(r: string, s: string) {
    |r| <= |s| && s[|s| - |r|..] == r
  }

  /** The last piece of a split is the text after the last separator: a
      separator-free suffix of `s`, preceded by the separator unless it is
      all of `s`. */
  lemma LastPiece(s: string, sep: char)
    ensures var r := SplitLast(Split(s, sep));
      IsSuffix(r, s) && sep !in r &&
      (|r| < |s| ==> s[|s| - |r| - 1] == sep)
  {
    SplitSeparatorFree(s, sep);
    assert sep !in SplitLast(Split(s, sep));
    LastPieceSuffix(s, sep);
  }

  lemma LastPieceSuffix(s: string, sep: char)
    ensures var r := SplitLast(Split(s, sep));
      IsSuffix(r, s) && (|r| < |s| ==> s[|s| - |r| - 1] == sep)
  {
    var parts := Split(s, sep);
    var r := SplitLast(parts);
    JoinSplit(s, sep);
    if |parts| == 1 {
      assert s == r;
      assert s[0..] == s;
    } else {
      JoinLast(parts, sep);
      var init := Join(parts[..|parts| - 1], sep);
      assert s == init + [sep] + r;
      assert s[|s| - |r|..] == r;
      assert s[|s| - |r| - 1] == sep;
    }
  }

  /** A string without the separator is its own last piece. */
  lemma LastPieceWithoutSeparator(s: string, sep: char)
    requires sep !in s
    ensures SplitLast(Split(s, sep)) == s
  {
    SplitWithoutSeparator(s, sep);
  }

  /** Whatever precedes it, the last piece of `p + sep + v` is `v` when `v`
      has no separator. */
  lemma LastPieceAfter(p: string, sep: char, v: string)
    requires sep !in v
    ensures SplitLast(Split(p + [sep] + v, sep)) == v
  {
    SplitAround(p, sep, v);
    SplitWithoutSeparator(v, sep);
  }

  const LocalTarHost: string := "http://localhost:8090"
  const PublicTarHost: string := "https://r.justjs.dev"

  /** The base URL of archives. `withGoRun` is what `InspectRuntime` reports:
      the executable lies under the temporary directory, as under `go run`. */
  function TarPath(withGoRun: bool): (r: string)
    ensures r == LocalTarHost <==> withGoRun
    ensures r == PublicTarHost <==> !withGoRun
  {
    if withGoRun then LocalTarHost else PublicTarHost
  }
}
