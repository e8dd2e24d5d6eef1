/** Serving a file out of a package's archive (pkg/routes/handler/file.go):
    the rewrite of relative import specifiers, and the choice between the
    index entry, a redirect to it, and a named entry. */
module FileHandler {
  import opened Wrappers
  import opened Strings
  import opened Replacer
  import NameCodec
  import TarArchive
  import opened Store
  import opened Types

  const SingleQuoted: string := "from './"
  const DoubleQuoted: string := "from \"./"

  /** The pairs of `add_mod`. */
  function AddModRules(rawName: string): seq<Rule> {
    [Rule(SingleQuoted, SingleQuoted + rawName + "/"), Rule(DoubleQuoted, DoubleQuoted + rawName + "/")]
  }

  /** `add_mod.Replace`: places `rawName/` right after every relative import
      specifier `from './` or `from "./`. */
  function AddMod(rawName: string, s: string): string {
    Replace(s, AddModRules(rawName))
  }

  /** A specifier starts at `s[i..]`. */
  predicate SpecifierAt(s: string, i: nat)
    requires i <= |s|
  {
    HasPrefix(s[i..], SingleQuoted) || HasPrefix(s[i..], DoubleQuoted)
  }

  /** The replacer's choice at the front of `s`. */
  lemma AddModStep(rawName: string, s: string)
    ensures HasPrefix(s, SingleQuoted) ==>
      AddMod(rawName, s) == SingleQuoted + rawName + "/" + AddMod(rawName, s[|SingleQuoted|..])
    ensures !HasPrefix(s, SingleQuoted) && HasPrefix(s, DoubleQuoted) ==>
      AddMod(rawName, s) == DoubleQuoted + rawName + "/" + AddMod(rawName, s[|DoubleQuoted|..])
    ensures s != [] && !SpecifierAt(s, 0) ==> AddMod(rawName, s) == [s[0]] + AddMod(rawName, s[1..])
  {
    var rules := AddModRules(rawName);
    if HasPrefix(s, SingleQuoted) {
      FirstRuleIs(s, rules, 0);
    } else if HasPrefix(s, DoubleQuoted) {
      FirstRuleIs(s, rules, 1);
    } else if s != [] {
      assert s[0..] == s;
      FirstRuleNone(s, rules);
    }
  }

  // ---------------------------------------------------------------------
  // Undoing the rewrite.

  function StripRules(rawName: string): seq<Rule> {
    [Rule(SingleQuoted + rawName + "/", SingleQuoted), Rule(DoubleQuoted + rawName + "/", DoubleQuoted)]
  }

  /** Removes `rawName/` after each specifier. */
  function Strip(rawName: string, s: string): string {
    Replace(s, StripRules(rawName))
  }

  /** Text that holds no `f` reaches the output unchanged: no specifier can
      start inside it. */
  lemma {:induction false} AddModKeepsPlainPrefix(rawName: string, t: string, p: string)
    requires 'f' !in p && HasPrefix(AddMod(rawName, t), p)
    ensures HasPrefix(t, p)
    decreases |p|
  {
    if p != [] {
      var out := AddMod(rawName, t);
      assert out[0] == p[0];
      AddModStep(rawName, t);
      assert t != [] && !SpecifierAt(t, 0);
      var rest := AddMod(rawName, t[1..]);
      assert out == [t[0]] + rest;
      assert rest[..|p| - 1] == p[1..];
      AddModKeepsPlainPrefix(rawName, t[1..], p[1..]);
      assert t[..|p|] == [t[0]] + t[1..][..|p| - 1];
    }
  }

  /** Where the original has no specifier, the output does not start a
      specifier either. */
  lemma NoSpecifierAtPlain(rawName: string, s: string, p: string)
    requires s != [] && !SpecifierAt(s, 0)
    requires p == SingleQuoted || p == DoubleQuoted
    ensures !HasPrefix([s[0]] + AddMod(rawName, s[1..]), p)
  {
    assert s[0..] == s;
    PrefixCons(s[0], AddMod(rawName, s[1..]), p);
    if HasPrefix([s[0]] + AddMod(rawName, s[1..]), p) {
      assert 'f' !in p[1..];
      AddModKeepsPlainPrefix(rawName, s[1..], p[1..]);
      assert false;
    }
  }

  /** The rewrite loses nothing: stripping the inserted names gives the
      original text back, whatever the name. */
  lemma {:induction false} StripAddMod(rawName: string, s: string)
    ensures Strip(rawName, AddMod(rawName, s)) == s
    decreases |s|
  {
    if s == [] {
      AddModStep(rawName, s);
    } else if HasPrefix(s, SingleQuoted) {
      StripAddMod(rawName, s[8..]);
      StripSpecifier(rawName, s, SingleQuoted, 0);
    } else if HasPrefix(s, DoubleQuoted) {
      StripAddMod(rawName, s[8..]);
      StripSpecifier(rawName, s, DoubleQuoted, 1);
    } else {
      StripAddMod(rawName, s[1..]);
      StripPlain(rawName, s);
    }
  }

  lemma StripSpecifier(rawName: string, s: string, p: string, k: nat)
    requires (p == SingleQuoted && k == 0) || (p == DoubleQuoted && k == 1 && !HasPrefix(s, SingleQuoted))
    requires HasPrefix(s, p)
    requires Strip(rawName, AddMod(rawName, s[8..])) == s[8..]
    ensures Strip(rawName, AddMod(rawName, s)) == s
  {
    AddModStep(rawName, s);
    var q := p + rawName + "/";
    var rest := AddMod(rawName, s[8..]);
    var out := AddMod(rawName, s);
    assert out == q + rest;
    assert out[..|q|] == q && out[|q|..] == rest;
    if k == 1 {
      assert out[5] == '"';
    }
    FirstRuleIs(out, StripRules(rawName), k);
    assert s == p + s[8..];
  }

  lemma StripPlain(rawName: string, s: string)
    requires s != [] && !SpecifierAt(s, 0)
    requires Strip(rawName, AddMod(rawName, s[1..])) == s[1..]
    ensures Strip(rawName, AddMod(rawName, s)) == s
  {
    AddModStep(rawName, s);
    var out := AddMod(rawName, s);
    NoSpecifierAtPlain(rawName, s, SingleQuoted);
    NoSpecifierAtPlain(rawName, s, DoubleQuoted);
    if HasPrefix(out, SingleQuoted + rawName + "/") {
      PrefixOfPrefix(out, SingleQuoted, rawName + "/");
      assert false;
    }
    if HasPrefix(out, DoubleQuoted + rawName + "/") {
      PrefixOfPrefix(out, DoubleQuoted, rawName + "/");
      assert false;
    }
    FirstRuleNone(out, StripRules(rawName));
    assert out[1..] == AddMod(rawName, s[1..]);
    assert s == [s[0]] + s[1..];
  }

  /** The rewrite is injective: different sources are served differently. */
  lemma AddModInjective(rawName: string, a: string, b: string)
    requires AddMod(rawName, a) == AddMod(rawName, b)
    ensures a == b
  {
    StripAddMod(rawName, a);
    StripAddMod(rawName, b);
  }

  // ---------------------------------------------------------------------
  // How much text is added.

  /** The number of positions where a specifier starts. */
  function Occurrences(s: string): nat
    decreases |s|
  {
    if s == [] then 0 else (if SpecifierAt(s, 0) then 1 else 0) + Occurrences(s[1..])
  }

  /** A stretch without `f` starts no specifier. */
  lemma {:induction false} OccurrencesSkip(s: string, k: nat)
    requires k <= |s| && 'f' !in s[..k]
    ensures Occurrences(s) == Occurrences(s[k..])
    decreases k
  {
    if k > 0 {
      assert s[0] == s[..k][0];
      assert s[0..] == s;
      assert s[1..][..k - 1] == s[1..k];
      assert forall j :: 0 <= j < k - 1 ==> s[1..k][j] == s[..k][j + 1];
      OccurrencesSkip(s[1..], k - 1);
      assert s[1..][k - 1..] == s[k..];
    }
  }

  /** Each specifier adds the name and a slash, and nothing else grows. */
  lemma {:induction false} AddModLength(rawName: string, s: string)
    ensures |AddMod(rawName, s)| == |s| + Occurrences(s) * (|rawName| + 1)
    decreases |s|
  {
    AddModStep(rawName, s);
    var n := |rawName| + 1;
    if s == [] {
    } else if SpecifierAt(s, 0) {
      var t := s[8..];
      AddModLength(rawName, t);
      SpecifierOccurrences(s);
      var o := Occurrences(t);
      assert |AddMod(rawName, s)| == 8 + n + |t| + o * n;
      assert (1 + o) * n == n + o * n;
    } else {
      AddModLength(rawName, s[1..]);
    }
  }

  lemma SpecifierTail(s: string)
    requires s != [] && SpecifierAt(s, 0)
    ensures |s| >= 8 && 'f' !in s[1..][..7]
  {
    assert s[0..] == s;
    if HasPrefix(s, SingleQuoted) {
      assert s[1..][..7] == SingleQuoted[1..];
    } else {
      assert s[1..][..7] == DoubleQuoted[1..];
    }
  }

  /** A specifier at the front counts once; its other seven characters start
      none. */
  lemma SpecifierOccurrences(s: string)
    requires s != [] && SpecifierAt(s, 0)
    ensures |s| >= 8 && Occurrences(s) == 1 + Occurrences(s[8..])
  {
    SpecifierTail(s);
    OccurrencesSkip(s[1..], 7);
    assert s[1..][7..] == s[8..];
  }

  /** Text without a specifier is served as it is. */
  lemma {:induction false} AddModIdentity(rawName: string, s: string)
    requires Occurrences(s) == 0
    ensures AddMod(rawName, s) == s
    decreases |s|
  {
    AddModStep(rawName, s);
    if s != [] {
      AddModIdentity(rawName, s[1..]);
      assert s == [s[0]] + s[1..];
    }
  }

  /** A text whose only `f` is the first character, which starts no specifier. */
  lemma NoOccurrences(s: string)
    requires s != [] && !SpecifierAt(s, 0) && 'f' !in s[1..]
    ensures Occurrences(s) == 0
  {
    assert s[1..][..|s| - 1] == s[1..];
    OccurrencesSkip(s[1..], |s| - 1);
  }

  /** Specifiers written any other way are left alone: a parent directory, */
  lemma UntouchedParent(rawName: string)
    ensures AddMod(rawName, "from '../x'") == "from '../x'"
  {
    var s := "from '../x'";
    assert s[0..] == s && s[..8][7] != SingleQuoted[7] && s[..8][5] != DoubleQuoted[5];
    assert !SpecifierAt(s, 0);
    assert 'f' !in s[1..];
    NoOccurrences(s);
    AddModIdentity(rawName, s);
  }

  /** a bare module name, */
  lemma UntouchedBare(rawName: string)
    ensures AddMod(rawName, "from 'lodash'") == "from 'lodash'"
  {
    var s := "from 'lodash'";
    assert s[0..] == s && s[..8][7] != SingleQuoted[7] && s[..8][5] != DoubleQuoted[5];
    NoOccurrences(s);
    AddModIdentity(rawName, s);
  }

  /** and an import without `from`. */
  lemma UntouchedSideEffectImport(rawName: string)
    ensures AddMod(rawName, "import './x'") == "import './x'"
  {
    var s := "import './x'";
    assert s[0..] == s && s[..8][0] != SingleQuoted[0] && s[..8][0] != DoubleQuoted[0];
    NoOccurrences(s);
    AddModIdentity(rawName, s);
  }

  lemma RewritesRelativeImport()
    ensures AddMod("pkg", "from './a.js'") == "from './pkg/a.js'"
  {
    var s := "from './a.js'";
    assert HasPrefix(s, SingleQuoted);
    AddModStep("pkg", s);
    var t := s[8..];
    assert t == "a.js'";
    assert !SpecifierAt(t, 0);
    NoOccurrences(t);
    AddModIdentity("pkg", t);
  }

  // ---------------------------------------------------------------------
  // GetFile

  /** What `GetFile` sends. */
  datatype FileReply =
    | Served(status: int, text: string)
    | Redirect(status: int, location: string)
    | FileFailed(failure: ErrorResponse)

  const IndexFile: string := "index_file"

  /** The user agent contains `curl`. */
  predicate IsCurl(userAgent: string) {
    Contains(userAgent, "curl")
  }

  /** The lookup of each branch: public records without a version, or the
      records of the requested version. */
  function Query(split: seq<string>): HashExp
    requires |split| >= 1
  {
    if |split| == 1 then map["visibility" := "public"] else map["version" := split[1]]
  }

  /** The records a request selects; an invalid name encodes to "". */
  function Selected(store: Collections, split: seq<string>): Result<seq<Record>, string>
    requires |split| >= 1
  {
    FindRecords(store, NameCodec.EncodeName(split[0]).GetOr(""), Query(split))
  }

  /** The entry a request serves. */
  function EntryName(record: Record, fileName: string): string {
    if fileName == IndexFile then record.index else fileName
  }

  /** `GetFile` does not panic: the chosen query has a last record, and when
      its archive unpacks, the served entry is in it. */
  predicate GetFileDefined(store: Collections, split: seq<string>, fileName: string, userAgent: string) {
    |split| >= 1 &&
    var records := Selected(store, split);
    records.Success? && |records.value| > 0 &&
    var record := records.value[|records.value| - 1];
    var files := TarArchive.ReadTarSpec(record.archive);
    files.Success? && !(fileName == IndexFile && !IsCurl(userAgent)) ==>
      EntryName(record, fileName) in files.value
  }

  function GetFile(store: Collections, split: seq<string>, fileName: string, rawName: string,
                   userAgent: string): (r: FileReply)
    requires GetFileDefined(store, split, fileName, userAgent)
  {
    var records := Selected(store, split).value;
    var record := records[|records| - 1];
    match TarArchive.ReadTarSpec(record.archive)
    case Failure(err) => FileFailed(ErrorResponse(StatusInternalServerError, err))
    case Success(files) =>
      if fileName == IndexFile && !IsCurl(userAgent) then
        Redirect(StatusTemporaryRedirect,
                 (if |split| == 1 then split[0] else rawName) + "/" + record.index)
      else
        Served(StatusOK, AddMod(rawName, FromBytes(files[EntryName(record, fileName)])))
  }

  /** The three outcomes. An archive that does not unpack is an internal
      error; `index_file` for curl, and every other name, is the rewritten
      entry of the last selected record; `index_file` for any other agent is a
      temporary redirect to the index entry, under the bare name when no
      version is given and under the full name otherwise. */
  lemma GetFileOutcomes(store: Collections, split: seq<string>, fileName: string, rawName: string,
                        userAgent: string)
    requires GetFileDefined(store, split, fileName, userAgent)
    ensures var records := Selected(store, split).value;
      var record := records[|records| - 1];
      var files := TarArchive.ReadTarSpec(record.archive);
      var r := GetFile(store, split, fileName, rawName, userAgent);
      (files.Failure? ==> r == FileFailed(ErrorResponse(500, files.error)))
      && (files.Success? && fileName == IndexFile && !IsCurl(userAgent) ==>
            r.Redirect? && r.status == 307
            && r.location == (if |split| == 1 then split[0] else rawName) + "/" + record.index)
      && (files.Success? && (fileName != IndexFile || IsCurl(userAgent)) ==>
            r.Served? && r.status == 200
            && r.text == AddMod(rawName, FromBytes(files.value[EntryName(record, fileName)]))
            && Strip(rawName, r.text) == FromBytes(files.value[EntryName(record, fileName)]))
  {
    var records := Selected(store, split).value;
    var record := records[|records| - 1];
    var files := TarArchive.ReadTarSpec(record.archive);
    if files.Success? && (fileName != IndexFile || IsCurl(userAgent)) {
      StripAddMod(rawName, FromBytes(files.value[EntryName(record, fileName)]));
    }
  }

  /** The served record is the last one the branch's query selects, in store
      order: the last public record without a version, the last record of
      the version otherwise. */
  lemma GetFileUsesLastRecord(store: Collections, split: seq<string>)
    requires |split| >= 1
    requires Selected(store, split).Success? && |Selected(store, split).value| > 0
    ensures var name := NameCodec.EncodeName(split[0]).GetOr("");
      var records := Selected(store, split).value;
      name in store &&
      exists i :: 0 <= i < |store[name].records| && store[name].records[i] == records[|records| - 1]
        && Matches(store[name].records[i], Query(split))
        && forall j :: i < j < |store[name].records| ==> !Matches(store[name].records[j], Query(split))
  {
    var name := NameCodec.EncodeName(split[0]).GetOr("");
    var i := FilterLast(store[name].records, Query(split));
  }
}
