/** Unpacking a package archive into an in-memory file system (`ReadTar` in
    helpers/helpers.go). Opening the file, the gzip header and the tar stream
    are library code; they are given as an abstract `Archive`: the entries
    `tar.Reader.Next` yields, each with its header and what `io.ReadAll`
    returns for its body, and how the stream ends. */
module TarArchive {
  import opened Wrappers
  import opened Strings

  type Bytes = seq<byte>

  /** `tar.TypeReg` */
  const TypeReg: char := '0'

  datatype Header = Header(name: string, typeflag: char)

  /** An entry of the stream and the outcome of reading its body. */
  datatype Entry = Entry(header: Header, body: Result<Bytes, string>)

  /** The entries before the end of the stream, and the error `Next` reports in
      place of `io.EOF`, if it does not end cleanly. */
  datatype Stream = Stream(entries: seq<Entry>, failure: Option<string>)

  datatype Archive =
    | OpenFailed(openError: string)   // `os.Open` failed
    | GzipFailed(gzipError: string)   // `gzip.NewReader` failed
    | Gzipped(stream: Stream)

  /** The file system `fstest.MapFS`: path to file contents. */
  type Files = map<string, Bytes>

  predicate IsRegular(e: Entry) {
    e.header.typeflag == TypeReg
  }

  /** One turn of the loop: other entries are skipped, a regular one is read
      whole and stored under its exact name, and a read error aborts. */
  function Step(files: Files, e: Entry): Result<Files, string> {
    if !IsRegular(e) then Success(files)
    else match e.body
      case Failure(err) => Failure(err)
      case Success(data) => Success(files[e.header.name := data])
  }

  /** The entries taken in order, from an empty file system; the first error
      wins and leaves nothing behind. */
  function Collect(entries: seq<Entry>): Result<Files, string> {
    if entries == [] then Success(map[])
    else match Collect(entries[..|entries| - 1])
      case Failure(err) => Failure(err)
      case Success(files) => Step(files, entries[|entries| - 1])
  }

  /** What `ReadTar` returns. */
  function ReadTarSpec(a: Archive): Result<Files, string> {
    match a
    case OpenFailed(err) => Failure(err)
    case GzipFailed(err) => Failure(err)
    case Gzipped(Stream(entries, failure)) =>
      match Collect(entries)
      case Failure(err) => Failure(err)
      case Success(files) =>
        if failure.Some? then Failure(failure.value) else Success(files)
  }

  /** The loop over `tarRead.Next()`. */
  method ReadTar(a: Archive) returns (r: Result<Files, string>)
    ensures r == ReadTarSpec(a)
  {
    if a.OpenFailed? {
      return Failure(a.openError);
    }
    if a.GzipFailed? {
      return Failure(a.gzipError);
    }
    var entries := a.stream.entries;
    var files: Files := map[];
    var i := 0;
    while true
      invariant 0 <= i <= |entries|
      invariant Collect(entries[..i]) == Success(files)
      decreases |entries| - i
    {
      if i == |entries| {
        assert entries[..i] == entries;
        if a.stream.failure.Some? {
          return Failure(a.stream.failure.value);
        }
        break;
      }
      var cur := entries[i];
      assert entries[..i + 1][..i] == entries[..i];
      i := i + 1;
      if cur.header.typeflag != TypeReg {
        continue;
      }
      if cur.body.Failure? {
        FailureStops(entries, i);
        return Failure(cur.body.error);
      }
      files := files[cur.header.name := cur.body.value];
    }
    return Success(files);
  }

  /** Once the walk has failed, the later entries do not matter. */
  lemma {:induction false} FailureStops(entries: seq<Entry>, i: nat)
    requires i <= |entries| && Collect(entries[..i]).Failure?
    ensures Collect(entries) == Collect(entries[..i])
    decreases |entries| - i
  {
    if i < |entries| {
      assert entries[..i + 1][..i] == entries[..i];
      FailureStops(entries, i + 1);
    } else {
      assert entries[..i] == entries;
    }
  }

  // ---------------------------------------------------------------------
  // Properties of the result.

  /** The names of the regular entries. */
  function RegularNames(entries: seq<Entry>): set<string> {
    set i | 0 <= i < |entries| && IsRegular(entries[i]) :: entries[i].header.name
  }

  /** No regular entry fails to read. */
  predicate AllReadable(entries: seq<Entry>) {
    forall i :: 0 <= i < |entries| && IsRegular(entries[i]) ==> entries[i].body.Success?
  }

  /** The walk succeeds exactly when every regular body can be read, and then
      the keys are exactly the names of the regular entries. */
  lemma {:induction false} CollectKeys(entries: seq<Entry>)
    ensures Collect(entries).Success? <==> AllReadable(entries)
    ensures Collect(entries).Success? ==> Collect(entries).value.Keys == RegularNames(entries)
    decreases |entries|
  {
    if entries != [] {
      var init := entries[..|entries| - 1];
      var e := entries[|entries| - 1];
      CollectKeys(init);
      assert forall i :: 0 <= i < |init| ==> init[i] == entries[i];
      assert RegularNames(entries) ==
        RegularNames(init) + (if IsRegular(e) then {e.header.name} else {}) by {
        forall n | n in RegularNames(entries)
          ensures n in RegularNames(init) + (if IsRegular(e) then {e.header.name} else {})
        {
          var i :| 0 <= i < |entries| && IsRegular(entries[i]) && entries[i].header.name == n;
          if i < |init| {
            assert init[i] == entries[i];
          }
        }
        forall n | n in RegularNames(init) ensures n in RegularNames(entries) {
          var i :| 0 <= i < |init| && IsRegular(init[i]) && init[i].header.name == n;
          assert entries[i] == init[i];
        }
      }
    }
  }

  /** The index of the last regular entry named `name`. */
  predicate LastRegularNamed(entries: seq<Entry>, name: string, i: nat) {
    i < |entries| && IsRegular(entries[i]) && entries[i].header.name == name
    && forall j :: i < j < |entries| ==> !(IsRegular(entries[j]) && entries[j].header.name == name)
  }

  /** When regular entries share a name, the last one's contents are kept. */
  lemma {:induction false} LastEntryWins(entries: seq<Entry>, name: string, i: nat)
    requires Collect(entries).Success?
    requires LastRegularNamed(entries, name, i)
    ensures name in Collect(entries).value
    ensures entries[i].body.Success? && Collect(entries).value[name] == entries[i].body.value
    decreases |entries|
  {
    var init := entries[..|entries| - 1];
    var e := entries[|entries| - 1];
    assert Collect(init).Success?;
    if i == |entries| - 1 {
      assert e.body.Success?;
    } else {
      assert LastRegularNamed(init, name, i) by {
        forall j | i < j < |init| ensures !(IsRegular(init[j]) && init[j].header.name == name) {
          assert init[j] == entries[j];
        }
      }
      LastEntryWins(init, name, i);
      assert !(IsRegular(e) && e.header.name == name);
    }
  }

  /** A failed read discards everything: the first unreadable regular entry's
      error is the result. */
  lemma {:induction false} FirstReadErrorWins(entries: seq<Entry>, i: nat)
    requires i < |entries| && IsRegular(entries[i]) && entries[i].body.Failure?
    requires AllReadable(entries[..i])
    ensures Collect(entries) == Failure(entries[i].body.error)
    decreases |entries|
  {
    var init := entries[..|entries| - 1];
    if i == |entries| - 1 {
      assert init == entries[..i];
      CollectKeys(init);
    } else {
      assert init[..i] == entries[..i];
      FirstReadErrorWins(init, i);
    }
  }

  /** Open and gzip failures are returned before any entry is looked at. */
  lemma EarlyFailures(err: string)
    ensures ReadTarSpec(OpenFailed(err)) == Failure(err)
    ensures ReadTarSpec(GzipFailed(err)) == Failure(err)
  {
  }

  /** A stream that does not end cleanly yields no file system, whatever its
      entries. */
  lemma StreamFailureFails(entries: seq<Entry>, err: string)
    ensures ReadTarSpec(Gzipped(Stream(entries, Some(err)))).Failure?
  {
  }

  /** A clean stream of readable entries yields the file system of its
      regular entries. */
  lemma CleanStreamSucceeds(entries: seq<Entry>)
    requires AllReadable(entries)
    ensures ReadTarSpec(Gzipped(Stream(entries, None))).Success?
    ensures ReadTarSpec(Gzipped(Stream(entries, None))).value.Keys == RegularNames(entries)
  {
    CollectKeys(entries);
  }
}
