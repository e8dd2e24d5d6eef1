/** Version specifiers (pkg/parse/version.go): the strict Semantic Versioning
    2.0.0 check behind `HasSemVersion`, and the loose first match returned by
    `GetSemVer`. Both regular expressions are written as recognisers for their
    fixed patterns. */
module Version {
  import opened Wrappers
  import opened Strings
  import opened Helpers

  predicate AllDigits(s: string) {
    forall i :: 0 <= i < |s| ==> IsDigit(s[i])
  }

  /** `[0-9a-zA-Z-]` */
  predicate IdChar(c: char) {
    IsAlnum(c) || c == '-'
  }

  predicate AllIdChars(s: string) {
    forall i :: 0 <= i < |s| ==> IdChar(s[i])
  }

  /** `0|[1-9][0-9]*`: a numeric identifier without leading zeros
      (section 2 of Semantic Versioning 2.0.0). */
  predicate IsNumericId(s: string) {
    s == "0" || (|s| >= 1 && '1' <= s[0] <= '9' && AllDigits(s[1..]))
  }

  /** `[0-9]*[a-zA-Z-][0-9a-zA-Z-]*`, read literally: a run of digits, one
      letter or hyphen, then identifier characters. */
  predicate IsAlphanumericId(s: string) {
    exists k :: 0 <= k < |s| && AllDigits(s[..k]) && !IsDigit(s[k]) && IdChar(s[k])
      && AllIdChars(s[k + 1..])
  }

  /** The literal reading is the usual one: a non-empty identifier that is
      not all digits. */
  lemma AlphanumericIdIff(s: string)
    ensures IsAlphanumericId(s) <==>
      |s| >= 1 && AllIdChars(s) && exists i :: 0 <= i < |s| && !IsDigit(s[i])
  {
    if |s| >= 1 && AllIdChars(s) && exists i :: 0 <= i < |s| && !IsDigit(s[i]) {
      var k := FirstNonDigit(s);
      assert AllDigits(s[..k]);
      var t := s[k + 1..];
      forall j | 0 <= j < |t| ensures IdChar(t[j]) {
        assert t[j] == s[k + 1 + j];
      }
    }
    if IsAlphanumericId(s) {
      var k :| 0 <= k < |s| && AllDigits(s[..k]) && !IsDigit(s[k]) && IdChar(s[k])
        && AllIdChars(s[k + 1..]);
      forall i | 0 <= i < |s| ensures IdChar(s[i]) {
        if i < k {
          assert s[..k][i] == s[i];
        } else if i > k {
          assert s[k + 1..][i - k - 1] == s[i];
        }
      }
    }
  }

  function FirstNonDigit(s: string): (k: nat)
    requires exists i :: 0 <= i < |s| && !IsDigit(s[i])
    ensures k < |s| && !IsDigit(s[k]) && forall i :: 0 <= i < k ==> IsDigit(s[i])
  {
    if !IsDigit(s[0]) then 0
    else
      assert exists i :: 0 <= i < |s[1..]| && !IsDigit(s[1..][i]) by {
        var i :| 0 <= i < |s| && !IsDigit(s[i]);
        assert i > 0 && s[1..][i - 1] == s[i];
      }
      1 + FirstNonDigit(s[1..])
  }

  /** A pre-release identifier (section 9). */
  predicate IsPrereleaseId(s: string) {
    IsNumericId(s) || IsAlphanumericId(s)
  }

  /** `[0-9a-zA-Z-]+`: a build identifier (section 10). */
  predicate IsBuildId(s: string) {
    |s| >= 1 && AllIdChars(s)
  }

  predicate AllPrereleaseIds(ids: seq<string>) {
    forall i :: 0 <= i < |ids| ==> IsPrereleaseId(ids[i])
  }

  predicate AllBuildIds(ids: seq<string>) {
    forall i :: 0 <= i < |ids| ==> IsBuildId(ids[i])
  }

  /** MAJOR.MINOR.PATCH */
  predicate IsCore(s: string) {
    var p := Split(s, '.');
    |p| == 3 && IsNumericId(p[0]) && IsNumericId(p[1]) && IsNumericId(p[2])
  }

  /** The version core, optionally followed by `-` and dot-separated
      pre-release identifiers. The core has no `-`, so the first `-` starts
      the pre-release. */
  predicate IsCoreAndPrerelease(s: string) {
    match IndexOf(s, '-')
    case None => IsCore(s)
    case Some(j) => IsCore(s[..j]) && AllPrereleaseIds(Split(s[j + 1..], '.'))
  }

  /** The whole of `v` matches the strict pattern of `HasSemVersion`. Neither
      core nor pre-release holds a `+`, so the first `+` starts the build
      metadata. */
  predicate IsSemVer(v: string) {
    match IndexOf(v, '+')
    case None => IsCoreAndPrerelease(v)
    case Some(j) => IsCoreAndPrerelease(v[..j]) && AllBuildIds(Split(v[j + 1..], '.'))
  }

  /** `HasSemVersion`: the text after the last `@` is a semantic version. */
  predicate HasSemVersion(packageName: string) {
    IsSemVer(SplitLast(Split(packageName, '@')))
  }

  // ---------------------------------------------------------------------
  // The grammar of Semantic Versioning 2.0.0 as a datatype.

  /** A version by its parts; an empty `pre` or `build` means the part is absent. */
  datatype SemVer = SemVer(major: string, minor: string, patch: string,
                           pre: seq<string>, build: seq<string>)
  {
    predicate WellFormed() {
      IsNumericId(major) && IsNumericId(minor) && IsNumericId(patch)
      && AllPrereleaseIds(pre) && AllBuildIds(build)
    }

    function Core(): string {
      major + "." + minor + "." + patch
    }

    function CoreAndPrerelease(): string {
      Core() + (if pre == [] then "" else "-" + Join(pre, '.'))
    }

    /** The version written out. */
    function Format(): string {
      CoreAndPrerelease() + (if build == [] then "" else "+" + Join(build, '.'))
    }
  }

  lemma NumericIdChars(s: string)
    requires IsNumericId(s)
    ensures AllDigits(s) && |s| >= 1
  {
    if s != "0" {
      forall i | 0 <= i < |s| ensures IsDigit(s[i]) {
        if i > 0 {
          assert s[1..][i - 1] == s[i];
        }
      }
    }
  }

  lemma PrereleaseIdChars(s: string)
    requires IsPrereleaseId(s)
    ensures AllIdChars(s) && |s| >= 1
  {
    if IsNumericId(s) {
      NumericIdChars(s);
    } else {
      AlphanumericIdIff(s);
    }
  }

  lemma AbsentFromIds(ids: seq<string>, c: char)
    requires forall i :: 0 <= i < |ids| ==> AllIdChars(ids[i])
    requires !IdChar(c)
    ensures forall i :: 0 <= i < |ids| ==> c !in ids[i]
  {
  }

  lemma PrereleaseIdsFree(ids: seq<string>, c: char)
    requires AllPrereleaseIds(ids) && !IdChar(c)
    ensures forall i :: 0 <= i < |ids| ==> c !in ids[i]
  {
    forall i | 0 <= i < |ids| ensures AllIdChars(ids[i]) {
      PrereleaseIdChars(ids[i]);
    }
    AbsentFromIds(ids, c);
  }

  lemma DigitsFree(s: string, c: char)
    requires AllDigits(s) && !IsDigit(c)
    ensures c !in s
  {
  }

  /** The core splits back into its three numbers. */
  lemma CoreSplits(v: SemVer)
    requires v.WellFormed()
    ensures Split(v.Core(), '.') == [v.major, v.minor, v.patch]
    ensures '-' !in v.Core() && '+' !in v.Core()
  {
    NumericIdChars(v.major);
    NumericIdChars(v.minor);
    NumericIdChars(v.patch);
    DigitCoreSplits(v);
  }

  lemma CoreAndPrereleaseIs(v: SemVer)
    requires v.WellFormed()
    ensures IsCoreAndPrerelease(v.CoreAndPrerelease())
    ensures '+' !in v.CoreAndPrerelease()
  {
    CoreSplits(v);
    var core := v.Core();
    assert IsCore(core);
    if v.pre == [] {
      assert v.CoreAndPrerelease() == core;
      assert IndexOf(core, '-').None?;
    } else {
      var p := Join(v.pre, '.');
      PrereleaseIdsFree(v.pre, '.');
      SplitJoin(v.pre, '.');
      PrereleaseIdsFree(v.pre, '+');
      NotInJoin(v.pre, '.', '+');
      var s := v.CoreAndPrerelease();
      assert s == core + ['-'] + p;
      IndexOfJoined(core, '-', p);
      assert s[..|core|] == core && s[|core| + 1..] == p;
    }
  }

  /** Every well-formed version, written out, passes the check. */
  lemma FormatIsSemVer(v: SemVer)
    requires v.WellFormed()
    ensures IsSemVer(v.Format())
  {
    CoreAndPrereleaseIs(v);
    var cp := v.CoreAndPrerelease();
    var f := v.Format();
    if v.build == [] {
      assert f == cp;
      WithoutBuild(cp);
    } else {
      assert f == cp + "+" + Join(v.build, '.');
      BuildAfterPlus(cp, v.build);
    }
  }

  /** A checked core and pre-release without `+` is a checked version. */
  lemma WithoutBuild(cp: string)
    requires IsCoreAndPrerelease(cp) && '+' !in cp
    ensures IsSemVer(cp)
  {
    assert IndexOf(cp, '+').None?;
  }

  /** Checked build identifiers after a `+` complete a checked version. */
  lemma BuildAfterPlus(cp: string, build: seq<string>)
    requires IsCoreAndPrerelease(cp) && '+' !in cp
    requires AllBuildIds(build) && build != []
    ensures IsSemVer(cp + "+" + Join(build, '.'))
  {
    var b := Join(build, '.');
    AbsentFromIds(build, '.');
    SplitJoin(build, '.');
    var s := cp + "+" + b;
    assert s == cp + ['+'] + b;
    IndexOfJoined(cp, '+', b);
    assert s[..|cp|] == cp && s[|cp| + 1..] == b;
  }

  /** The parts of a checked core. */
  lemma CoreJoins(s: string)
    requires IsCore(s)
    ensures var p := Split(s, '.'); s == p[0] + "." + p[1] + "." + p[2]
  {
    var p := Split(s, '.');
    JoinSplit(s, '.');
    assert p[1..][1..] == [p[2]];
    assert Join(p[1..][1..], '.') == p[2];
    assert Join(p[1..], '.') == p[1] + ['.'] + p[2];
    assert Join(p, '.') == p[0] + ['.'] + (p[1] + ['.'] + p[2]);
  }

  /** The three numbers of a checked core. */
  function CoreOf(s: string): (v: SemVer)
    requires IsCore(s)
    ensures v.WellFormed() && v.pre == [] && v.build == [] && v.Core() == s
  {
    var p := Split(s, '.');
    CoreJoins(s);
    SemVer(p[0], p[1], p[2], [], [])
  }

  /** The core and pre-release of a checked text. */
  function ParsePrefix(s: string): (v: SemVer)
    requires IsCoreAndPrerelease(s)
    ensures v.WellFormed() && v.build == [] && v.CoreAndPrerelease() == s
  {
    match IndexOf(s, '-')
    case None =>
      var v := CoreOf(s);
      assert v.CoreAndPrerelease() == v.Core() + "";
      v
    case Some(j) =>
      PrereleaseAt(s, j);
      CoreOf(s[..j]).(pre := Split(s[j + 1..], '.'))
  }

  /** A checked core, `-` and checked pre-release identifiers read back
      whole. */
  lemma PrereleaseAt(s: string, j: nat)
    requires j < |s| && s[j] == '-'
    requires IsCore(s[..j]) && AllPrereleaseIds(Split(s[j + 1..], '.'))
    ensures var w := CoreOf(s[..j]).(pre := Split(s[j + 1..], '.'));
      w.WellFormed() && w.build == [] && w.CoreAndPrerelease() == s
  {
    var core := CoreOf(s[..j]);
    WithPrerelease(core, s[..j], s[j + 1..]);
    SplitAt(s, j);
  }

  lemma WithPrerelease(v: SemVer, core: string, p: string)
    requires v.WellFormed() && v.pre == [] && v.build == [] && v.Core() == core
    requires AllPrereleaseIds(Split(p, '.'))
    ensures var w := v.(pre := Split(p, '.'));
      w.WellFormed() && w.build == [] && w.CoreAndPrerelease() == core + "-" + p
  {
    JoinSplit(p, '.');
    var w := v.(pre := Split(p, '.'));
    assert w.Core() == core;
  }

  /** Reads a checked version back into its parts. */
  function Parse(s: string): (v: SemVer)
    requires IsSemVer(s)
    ensures v.WellFormed() && v.Format() == s
  {
    match IndexOf(s, '+')
    case None =>
      ParsePrefix(s)
    case Some(j) =>
      BuildAt(s, j);
      ParsePrefix(s[..j]).(build := Split(s[j + 1..], '.'))
  }

  /** A checked prefix, `+` and checked build metadata read back whole. */
  lemma BuildAt(s: string, j: nat)
    requires j < |s| && s[j] == '+'
    requires IsCoreAndPrerelease(s[..j]) && AllBuildIds(Split(s[j + 1..], '.'))
    ensures var w := ParsePrefix(s[..j]).(build := Split(s[j + 1..], '.'));
      w.WellFormed() && w.Format() == s
  {
    var v := ParsePrefix(s[..j]);
    WithBuild(v, s[..j], s[j + 1..]);
    SplitAt(s, j);
    assert s[..j] + "+" + s[j + 1..] == s;
  }

  lemma SplitAt(s: string, j: nat)
    requires j < |s|
    ensures s == s[..j] + [s[j]] + s[j + 1..]
  {
  }

  lemma WithBuild(v: SemVer, prefix: string, b: string)
    requires v.WellFormed() && v.CoreAndPrerelease() == prefix
    requires AllBuildIds(Split(b, '.'))
    ensures var w := v.(build := Split(b, '.'));
      w.WellFormed() && w.Format() == prefix + "+" + b
  {
    JoinSplit(b, '.');
    var w := v.(build := Split(b, '.'));
    assert w.CoreAndPrerelease() == prefix;
  }

  /** The recogniser accepts exactly the written-out well-formed versions. */
  lemma SemVerIff(s: string)
    ensures IsSemVer(s) <==> exists v: SemVer :: v.WellFormed() && v.Format() == s
  {
    if IsSemVer(s) {
      var v := Parse(s);
      assert v.WellFormed() && v.Format() == s;
    }
    if exists v: SemVer :: v.WellFormed() && v.Format() == s {
      var v: SemVer :| v.WellFormed() && v.Format() == s;
      FormatIsSemVer(v);
    }
  }

  /** Only the text after the last `@` is inspected. */
  lemma HasSemVersionAfterAt(p: string, v: string)
    requires '@' !in v
    ensures HasSemVersion(p + "@" + v) == IsSemVer(v)
  {
    LastPieceAfter(p, '@', v);
  }

  /** A name without `@` is inspected whole. */
  lemma HasSemVersionWithoutAt(v: string)
    requires '@' !in v
    ensures HasSemVersion(v) == IsSemVer(v)
  {
    LastPieceWithoutSeparator(v, '@');
  }

  lemma NotCoreUnlessThreeParts(s: string)
    requires '+' !in s && '-' !in s && |Split(s, '.')| != 3
    ensures !IsSemVer(s)
  {
    assert IndexOf(s, '+').None? && IndexOf(s, '-').None?;
  }

  lemma ReleaseIsSemVer()
    ensures IsSemVer("1.2.3")
  {
    var plain := SemVer("1", "2", "3", [], []);
    assert plain.Format() == "1.2.3";
    FormatIsSemVer(plain);
  }

  lemma PrereleaseIsSemVer()
    ensures IsSemVer("1.0.0-beta.1")
  {
    var beta := SemVer("1", "0", "0", ["beta", "1"], []);
    assert IsAlphanumericId("beta") by {
      AlphanumericIdIff("beta");
      assert !IsDigit("beta"[0]);
    }
    assert Join(["beta", "1"], '.') == "beta.1";
    assert "1.0.0" + ("-" + "beta.1") == "1.0.0-beta.1";
    assert beta.Core() == "1.0.0";
    assert beta.CoreAndPrerelease() == "1.0.0" + ("-" + "beta.1");
    assert beta.Format() == beta.CoreAndPrerelease();
    FormatIsSemVer(beta);
  }

  lemma TwoPartsIsNot()
    ensures !IsSemVer("1.2")
  {
    SplitAround("1", '.', "2");
    SplitWithoutSeparator("1", '.');
    SplitWithoutSeparator("2", '.');
    assert "1.2" == "1" + ['.'] + "2";
    NotCoreUnlessThreeParts("1.2");
  }

  lemma LeadingZeroIsNot()
    ensures !IsSemVer("01.2.3")
  {
    var bad := SemVer("01", "2", "3", [], []);
    assert bad.Core() == "01.2.3";
    assert !IsNumericId("01");
    DigitCoreSplits(bad);
    assert forall i :: 0 <= i < |bad.Core()| ==> bad.Core()[i] != '+' && bad.Core()[i] != '-';
    PlainCore(bad.Core());
  }

  /** Without `-` and `+` only the core is checked. */
  lemma PlainCore(s: string)
    requires '+' !in s && '-' !in s
    ensures IsSemVer(s) <==> IsCore(s)
  {
    assert IndexOf(s, '+').None? && IndexOf(s, '-').None?;
  }

  lemma RejectsBareName()
    ensures !HasSemVersion("foo")
  {
    HasSemVersionWithoutAt("foo");
    SplitWithoutSeparator("foo", '.');
    NotCoreUnlessThreeParts("foo");
  }

  lemma RejectsEmptyVersion()
    ensures !HasSemVersion("foo@")
  {
    HasSemVersionAfterAt("foo", "");
    assert "foo" + "@" + "" == "foo@";
    NotCoreUnlessThreeParts("");
  }

  lemma RejectsTwoParts()
    ensures !HasSemVersion("foo@1.2")
  {
    assert "foo" + "@" + "1.2" == "foo@1.2";
    assert '@' !in "1.2";
    HasSemVersionAfterAt("foo", "1.2");
    TwoPartsIsNot();
  }

  lemma RejectsLeadingZero()
    ensures !HasSemVersion("foo@01.2.3")
  {
    assert "foo" + "@" + "01.2.3" == "foo@01.2.3";
    assert '@' !in "01.2.3";
    HasSemVersionAfterAt("foo", "01.2.3");
    LeadingZeroIsNot();
  }

  lemma AcceptsRelease()
    ensures HasSemVersion("foo@1.2.3")
  {
    assert "foo" + "@" + "1.2.3" == "foo@1.2.3";
    assert '@' !in "1.2.3";
    HasSemVersionAfterAt("foo", "1.2.3");
    ReleaseIsSemVer();
  }

  lemma AcceptsScopedPrerelease()
    ensures HasSemVersion("@scope/foo@1.0.0-beta.1")
  {
    assert "@scope/foo" + "@" + "1.0.0-beta.1" == "@scope/foo@1.0.0-beta.1";
    assert '@' !in "1.0.0-beta.1";
    HasSemVersionAfterAt("@scope/foo", "1.0.0-beta.1");
    PrereleaseIsSemVer();
  }

  /** A bare version, with no `@`, is accepted. */
  lemma AcceptsBareVersion()
    ensures HasSemVersion("1.2.3")
  {
    ReleaseIsSemVer();
    HasSemVersionWithoutAt("1.2.3");
  }

  /** The split of a core whose parts are digit strings, well formed or not. */
  lemma DigitCoreSplits(v: SemVer)
    requires AllDigits(v.major) && AllDigits(v.minor) && AllDigits(v.patch)
    ensures Split(v.Core(), '.') == [v.major, v.minor, v.patch]
  {
    SplitAround(v.major, '.', v.minor + "." + v.patch);
    SplitAround(v.minor, '.', v.patch);
    SplitWithoutSeparator(v.major, '.');
    SplitWithoutSeparator(v.minor, '.');
    SplitWithoutSeparator(v.patch, '.');
    assert v.Core() == v.major + ['.'] + (v.minor + ['.'] + v.patch);
  }

  // ---------------------------------------------------------------------
  // GetSemVer: the first match of `([0-9]+(\.[0-9]+)+).*[A-Za-z0-9]+`.

  /** The texts the loose pattern matches. The repeated group and the greedy
      digit and alphanumeric runs fold into `.*`, which matches anything but a
      newline, so a match is: digits, a dot, a digit, then any characters
      other than newline that end in a letter or digit. */
  predicate Loose(t: string) {
    exists k :: 0 <= k < |t| && LooseAt(t, k)
  }

  /** `t` matches with its first digit run ending at `k`. */
  predicate LooseAt(t: string, k: nat) {
    1 <= k && k + 3 <= |t| && AllDigits(t[..k]) && t[k] == '.'
    && IsDigit(t[k + 1]) && '\n' !in t[k + 2..|t| - 1] && IsAlnum(t[|t| - 1])
  }

  /** The end of the run of digits that starts at `i`. */
  function DigitRunEnd(s: string, i: nat): (r: nat)
    requires i <= |s|
    ensures i <= r <= |s| && (r == |s| || !IsDigit(s[r]))
    ensures forall k :: i <= k < r ==> IsDigit(s[k])
    decreases |s| - i
  {
    if i == |s| || !IsDigit(s[i]) then i else DigitRunEnd(s, i + 1)
  }

  /** The first newline at or after `i`, or the end of the text. */
  function LineEnd(s: string, i: nat): (r: nat)
    requires i <= |s|
    ensures i <= r <= |s| && (r == |s| || s[r] == '\n')
    ensures forall k :: i <= k < r ==> s[k] != '\n'
    decreases |s| - i
  {
    if i == |s| || s[i] == '\n' then i else LineEnd(s, i + 1)
  }

  /** A line that runs to the end of the text. */
  lemma {:induction false} LineEndAtEnd(s: string, i: nat)
    requires i <= |s| && forall k :: i <= k < |s| ==> s[k] != '\n'
    ensures LineEnd(s, i) == |s|
    decreases |s| - i
  {
    if i < |s| {
      LineEndAtEnd(s, i + 1);
    }
  }

  /** The last letter or digit in `s[lo..hi]`. */
  function LastAlnum(s: string, lo: nat, hi: nat): (r: Option<nat>)
    requires lo <= hi <= |s|
    ensures r.Some? ==>
      lo <= r.value < hi && IsAlnum(s[r.value]) && forall k :: r.value < k < hi ==> !IsAlnum(s[k])
    ensures r.None? ==> forall k :: lo <= k < hi ==> !IsAlnum(s[k])
    decreases hi - lo
  {
    if lo == hi then None
    else if IsAlnum(s[hi - 1]) then Some(hi - 1)
    else LastAlnum(s, lo, hi - 1)
  }

  /** Where the preferred match starting at `i` ends, if one starts there. The
      first digit run must be followed by a dot and a digit (giving back
      digits never puts a dot next); the greedy `.*` then runs to the end of
      the line and gives characters back until one is a letter or digit. */
  function MatchEnd(s: string, i: nat): Option<nat>
    requires i <= |s|
  {
    if i < |s| && IsDigit(s[i]) then
      var a := DigitRunEnd(s, i);
      if a + 1 < |s| && s[a] == '.' && IsDigit(s[a + 1]) then
        match LastAlnum(s, a + 2, LineEnd(s, i))
        case Some(k) => Some(k + 1)
        case None => None
      else None
    else None
  }

  /** The leftmost position at or after `i` where a match starts. */
  function FirstMatch(s: string, i: nat): (r: Option<nat>)
    requires i <= |s|
    ensures r.Some? ==> i <= r.value <= |s| && MatchEnd(s, r.value).Some?
    ensures forall j :: i <= j < (if r.Some? then r.value else |s| + 1) && j <= |s| ==>
      MatchEnd(s, j).None?
    decreases |s| - i
  {
    if MatchEnd(s, i).Some? then Some(i)
    else if i == |s| then None
    else FirstMatch(s, i + 1)
  }

  /** No match starts before the first digit at or after `i`. */
  lemma {:induction false} FirstMatchAfterNonDigits(s: string, i: nat, j: nat)
    requires i <= j <= |s| && MatchEnd(s, j).Some?
    requires forall k :: i <= k < j ==> !IsDigit(s[k])
    ensures FirstMatch(s, i) == Some(j)
    decreases j - i
  {
    if i < j {
      FirstMatchAfterNonDigits(s, i + 1, j);
    }
  }

  /** A preferred match is a match. */
  lemma MatchEndIsLoose(s: string, i: nat)
    requires i <= |s| && MatchEnd(s, i).Some?
    ensures i < MatchEnd(s, i).value <= |s| && Loose(s[i..MatchEnd(s, i).value])
  {
    var a := DigitRunEnd(s, i);
    var e := LineEnd(s, i);
    var la := LastAlnum(s, a + 2, e);
    assert la.Some?;
    var m := la.value + 1;
    assert MatchEnd(s, i) == Some(m);
    var t := s[i..m];
    var k := a - i;
    assert AllDigits(t[..k]) by {
      forall j | 0 <= j < k ensures IsDigit(t[..k][j]) {
        assert t[..k][j] == s[i + j];
      }
    }
    var mid := t[k + 2..|t| - 1];
    forall j | 0 <= j < |mid| ensures mid[j] != '\n' {
      assert mid[j] == s[a + 2 + j];
    }
    assert t[k] == s[a] && t[k + 1] == s[a + 1] && t[|t| - 1] == s[m - 1];
    assert LooseAt(t, k);
  }

  /** The parts of a match inside the text. */
  lemma LooseParts(s: string, i: nat, e: nat) returns (k: nat)
    requires i <= e <= |s| && Loose(s[i..e])
    ensures 1 <= k && i + k + 3 <= e
    ensures forall j :: i <= j < i + k ==> IsDigit(s[j])
    ensures s[i + k] == '.' && IsDigit(s[i + k + 1]) && IsAlnum(s[e - 1])
    ensures forall j :: i <= j < e ==> s[j] != '\n'
  {
    var t := s[i..e];
    k :| k < |t| && LooseAt(t, k);
    LooseShape(t);
    forall j | i <= j < i + k ensures IsDigit(s[j]) {
      assert t[..k][j - i] == s[j];
    }
    forall j | i <= j < e ensures s[j] != '\n' {
      assert t[j - i] == s[j];
    }
  }

  /** Every match starting at `i` ends no later than the preferred one. */
  lemma LooseWithinMatchEnd(s: string, i: nat, e: nat)
    requires i <= e <= |s| && Loose(s[i..e])
    ensures MatchEnd(s, i).Some? && e <= MatchEnd(s, i).value
  {
    var k := LooseParts(s, i, e);
    var a := DigitRunEnd(s, i);
    assert a == i + k;
    var le := LineEnd(s, i);
    assert e <= le;
    var la := LastAlnum(s, a + 2, le);
    assert la.Some? && e - 1 <= la.value;
  }

  /** Some substring of `s` matches. */
  predicate HasMatch(s: string) {
    exists i, e :: 0 <= i <= e <= |s| && Loose(s[i..e])
  }

  lemma HasMatchIff(s: string)
    ensures HasMatch(s) <==> FirstMatch(s, 0).Some?
  {
    if HasMatch(s) {
      var i, e :| 0 <= i <= e <= |s| && Loose(s[i..e]);
      LooseWithinMatchEnd(s, i, e);
    }
    if FirstMatch(s, 0).Some? {
      MatchEndIsLoose(s, FirstMatch(s, 0).value);
    }
  }

  /** `GetSemVer`: the first match. With no match Go indexes an empty slice
      and panics, so a match must exist. */
  function GetSemVer(s: string): (r: string)
    requires FirstMatch(s, 0).Some?
    ensures Loose(r) && |r| <= |s|
  {
    var i := FirstMatch(s, 0).value;
    MatchEndIsLoose(s, i);
    s[i..MatchEnd(s, i).value]
  }

  /** The result is the leftmost-longest match: a substring of `s` matching the
      pattern, with no match starting earlier and none from the same start
      reaching further. For this pattern, Go's leftmost-first preference with
      greedy repetition picks exactly that one. */
  lemma GetSemVerIsFirstMatch(s: string)
    requires HasMatch(s)
    ensures FirstMatch(s, 0).Some?
    ensures var i, r := FirstMatch(s, 0).value, GetSemVer(s);
      i + |r| <= |s| && s[i..i + |r|] == r && Loose(r)
      && (forall j, e :: 0 <= j < i && j <= e <= |s| ==> !Loose(s[j..e]))
      && (forall e :: i + |r| < e <= |s| ==> !Loose(s[i..e]))
  {
    HasMatchIff(s);
    var i := FirstMatch(s, 0).value;
    var m := MatchEnd(s, i).value;
    MatchEndIsLoose(s, i);
    forall j, e | 0 <= j < i && j <= e <= |s| ensures !Loose(s[j..e]) {
      if Loose(s[j..e]) {
        LooseWithinMatchEnd(s, j, e);
      }
    }
    forall e | m < e <= |s| ensures !Loose(s[i..e]) {
      if Loose(s[i..e]) {
        LooseWithinMatchEnd(s, i, e);
      }
    }
    assert s[i..i + |GetSemVer(s)|] == GetSemVer(s);
  }

  /** What a match looks like: it starts with a digit, holds a dot, ends
      with a letter or digit, spans no newline and has at least four
      characters. */
  lemma LooseShape(t: string)
    requires Loose(t)
    ensures |t| >= 4 && IsDigit(t[0]) && '.' in t && IsAlnum(t[|t| - 1]) && '\n' !in t
  {
    var k: nat :| k < |t| && LooseAt(t, k);
    assert t[..k][0] == t[0];
    forall j | 0 <= j < |t| ensures t[j] != '\n' {
      if j < k {
        assert t[..k][j] == t[j];
      } else if k + 2 <= j < |t| - 1 {
        assert t[k + 2..|t| - 1][j - k - 2] == t[j];
      }
    }
  }

  lemma GetSemVerOfRelease()
    ensures FirstMatch("pkg@2.10.4", 0).Some?
    ensures GetSemVer("pkg@2.10.4") == "2.10.4"
  {
    var s := "pkg@2.10.4";
    assert forall k :: 0 <= k < |s| ==> s[k] != '\n';
    LineEndAtEnd(s, 4);
    assert DigitRunEnd(s, 4) == 5;
    assert LineEnd(s, 4) == 10;
    assert LastAlnum(s, 7, 10) == Some(9);
    assert MatchEnd(s, 4) == Some(10);
    FirstMatchAfterNonDigits(s, 0, 4);
  }

  lemma GetSemVerOfPrerelease()
    ensures FirstMatch("pkg@1.0.0-beta.1", 0).Some?
    ensures GetSemVer("pkg@1.0.0-beta.1") == "1.0.0-beta.1"
  {
    var s := "pkg@1.0.0-beta.1";
    assert forall k :: 0 <= k < |s| ==> s[k] != '\n';
    LineEndAtEnd(s, 4);
    assert DigitRunEnd(s, 4) == 5;
    assert LineEnd(s, 4) == 16;
    assert LastAlnum(s, 7, 16) == Some(15);
    assert MatchEnd(s, 4) == Some(16);
    FirstMatchAfterNonDigits(s, 0, 4);
  }

  /** The match may start inside the name and runs to the last letter or
      digit of the line. */
  lemma GetSemVerStartsInName()
    ensures FirstMatch("a1.2b@3.4.5", 0).Some?
    ensures GetSemVer("a1.2b@3.4.5") == "1.2b@3.4.5"
  {
    var s := "a1.2b@3.4.5";
    assert forall k :: 0 <= k < |s| ==> s[k] != '\n';
    LineEndAtEnd(s, 1);
    assert DigitRunEnd(s, 1) == 2;
    assert LineEnd(s, 1) == 11;
    assert LastAlnum(s, 4, 11) == Some(10);
    assert MatchEnd(s, 1) == Some(11);
    FirstMatchAfterNonDigits(s, 0, 1);
  }

  /** Names without a match, where `GetSemVer` would panic. */
  lemma NoMatchInBareName()
    ensures !HasMatch("pkg")
  {
    HasMatchIff("pkg");
  }

  lemma NoMatchInTwoParts()
    ensures !HasMatch("pkg@1.0")
  {
    var s := "pkg@1.0";
    HasMatchIff(s);
    assert DigitRunEnd(s, 4) == 5 && DigitRunEnd(s, 6) == 7;
    assert MatchEnd(s, 4).None? && MatchEnd(s, 6).None?;
    assert FirstMatch(s, 4).None?;
  }
}
