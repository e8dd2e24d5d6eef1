/** The package metadata endpoints (pkg/routes/handler/package.go): the
    index document of a package, listing every public version, and the
    document of one version. The records come from the store in store order;
    what the file system reports about each record's tarball is the record's
    `blob` field. */
module PackageHandler {
  import opened Wrappers
  import opened Strings
  import NameCodec
  import Hex
  import Helpers
  import opened Store
  import opened Types
  import opened PackageFields

  /** The collection a raw name is looked up under. The encoding error is
      discarded, so an invalid name looks up "". */
  function IndexName(rawName: string): string {
    NameCodec.EncodeName(rawName).GetOr("")
  }

  /** Valid names look up their own encoding, which decodes back to them;
      every invalid name looks up the same collection "". */
  lemma IndexNameOf(rawName: string)
    ensures !NameCodec.ValidName(rawName) ==> IndexName(rawName) == ""
    ensures NameCodec.ValidName(rawName) ==>
      IndexName(rawName) != "" && NameCodec.OriginalName(IndexName(rawName)) == rawName
  {
    if NameCodec.ValidName(rawName) {
      NameCodec.RoundTrip(rawName);
    }
  }

  /** The filter of one published version. */
  function VersionFilter(version: string): HashExp {
    map["visibility" := "public", "version" := version]
  }

  lemma VersionMatches(r: Record, version: string)
    ensures Matches(r, VersionFilter(version)) <==> r.visibility == "public" && r.version == version
  {
    assert Field(r, "visibility") == r.visibility;
    assert Field(r, "version") == r.version;
  }

  /** `fmt.Sprintf("MD5_%x", md5)`. */
  function Integrity(md5: seq<byte>): (s: string)
    ensures HasPrefix(s, "MD5_") && Hex.Decode(s[4..]) == Some(md5)
  {
    Hex.DecodeEncode(md5);
    assert ("MD5_" + Hex.Encode(md5))[4..] == Hex.Encode(md5);
    "MD5_" + Hex.Encode(md5)
  }

  /** The archive URL of one version. */
  function VersionTarball(rawName: string, version: string): string {
    Helpers.PublicTarHost + "/" + rawName + "/_/" + version + "/" + rawName + ".tgz"
  }

  /** The archive URL of the package. */
  function PackageTarball(rawName: string): string {
    Helpers.PublicTarHost + "/" + rawName + "/_/" + rawName + ".tgz"
  }

  /** The document of one record, its tarball reported as `attrs`. */
  function VersionInfoOf(rawName: string, r: Record, attrs: Attributes): VersionInfo {
    VersionInfo(r.id, r.access, r.version, r.created, r.description, r.author,
                PackageHasLicense(r), PackagePrivacyStatus(r), r.dependencies,
                DistInfo(r.version, Integrity(attrs.md5), VersionTarball(rawName, r.version), attrs.size))
  }

  // ---------------------------------------------------------------------
  // The two loops of `PackageIndex`, as functions of a prefix of the records.

  /** The `versions` map after the records in order: each record overwrites
      its version's entry, and the first tarball the file system cannot
      report on aborts. */
  function Versions(rawName: string, records: seq<Record>): Result<map<string, VersionInfo>, string> {
    if records == [] then Success(map[])
    else
      var r := records[|records| - 1];
      match Versions(rawName, records[..|records| - 1])
      case Failure(err) => Failure(err)
      case Success(pkgs) =>
        match r.blob
        case Failure(err) => Failure(err)
        case Success(attrs) => Success(pkgs[r.version := VersionInfoOf(rawName, r, attrs)])
  }

  /** The `times` map after the second loop: each version to its record's
      creation time, later records overwriting earlier ones. */
  function VersionTimes(records: seq<Record>): map<string, DateTime> {
    if records == [] then map[]
    else
      var r := records[|records| - 1];
      VersionTimes(records[..|records| - 1])[r.version := r.created]
  }

  /** `PackageIndex` does not panic: the public records are found and there is
      at least one, as the first and the last are indexed before the error
      check. */
  predicate PackageIndexDefined(store: Collections, rawName: string) {
    var records := FindRecords(store, IndexName(rawName), PublicFilter);
    records.Success? && |records.value| > 0
  }

  /** What `PackageIndex` answers. */
  function PackageIndexSpec(store: Collections, rawName: string): Reply<PackageInfo>
    requires PackageIndexDefined(store, rawName)
  {
    var name := IndexName(rawName);
    var records := FindRecords(store, name, PublicFilter).value;
    var latest := records[|records| - 1];
    var original := records[0];
    match Versions(rawName, records)
    case Failure(err) => Failed(ErrorResponse(StatusInternalServerError, err))
    case Success(pkgs) =>
      var times := VersionTimes(records)["created" := original.created]["updated" := latest.updated];
      match latest.blob
      case Failure(err) => Failed(ErrorResponse(StatusInternalServerError, err))
      case Success(attrs) =>
        Reply(StatusOK, PackageInfo(store[name].id, rawName, latest.license, latest.description, pkgs, times,
                                    DistInfo(latest.version, Integrity(attrs.md5), PackageTarball(rawName), attrs.size)))
  }

  /** The handler: two passes over the records filling the maps in place,
      then the document of the latest record. */
  method PackageIndex(store: Collections, rawName: string) returns (r: Reply<PackageInfo>)
    requires PackageIndexDefined(store, rawName)
    ensures r == PackageIndexSpec(store, rawName)
  {
    var name := IndexName(rawName);
    var collection := FindCollection(store, name).value;
    var records := FindRecords(store, name, PublicFilter).value;
    var latest := records[|records| - 1];
    var original := records[0];

    var versions := VersionsLoop(rawName, records);
    if versions.Failure? {
      return Failed(ErrorResponse(StatusInternalServerError, versions.error));
    }
    var pkgs := versions.value;

    var times := TimesLoop(records);
    times := times["created" := original.created];
    times := times["updated" := latest.updated];

    if latest.blob.Failure? {
      return Failed(ErrorResponse(StatusInternalServerError, latest.blob.error));
    }
    var attribute := latest.blob.value;
    return Reply(StatusOK, PackageInfo(collection.id, rawName, latest.license, latest.description, pkgs, times,
                                       DistInfo(latest.version, Integrity(attribute.md5), PackageTarball(rawName), attribute.size)));
  }

  /** The first loop of `PackageIndex`: fills `pkgs`, returning at the first
      tarball the file system cannot report on. */
  method VersionsLoop(rawName: string, records: seq<Record>) returns (r: Result<map<string, VersionInfo>, string>)
    ensures r == Versions(rawName, records)
  {
    var pkgs: map<string, VersionInfo> := map[];
    var i := 0;
    while i < |records|
      invariant 0 <= i <= |records|
      invariant Versions(rawName, records[..i]) == Success(pkgs)
    {
      var record := records[i];
      assert records[..i + 1][..i] == records[..i];
      if record.blob.Failure? {
        VersionsFailureStops(rawName, records, i + 1);
        return Failure(record.blob.error);
      }
      var attribute := record.blob.value;
      pkgs := pkgs[record.version := VersionInfoOf(rawName, record, attribute)];
      i := i + 1;
    }
    assert records[..i] == records;
    return Success(pkgs);
  }

  /** The second loop of `PackageIndex`: fills `times`. */
  method TimesLoop(records: seq<Record>) returns (times: map<string, DateTime>)
    ensures times == VersionTimes(records)
  {
    times := map[];
    var i := 0;
    while i < |records|
      invariant 0 <= i <= |records|
      invariant VersionTimes(records[..i]) == times
    {
      assert records[..i + 1][..i] == records[..i];
      times := times[records[i].version := records[i].created];
      i := i + 1;
    }
    assert records[..i] == records;
  }

  /** Once a prefix has failed, the later records do not matter. */
  lemma {:induction false} VersionsFailureStops(rawName: string, records: seq<Record>, i: nat)
    requires i <= |records| && Versions(rawName, records[..i]).Failure?
    ensures Versions(rawName, records) == Versions(rawName, records[..i])
    decreases |records| - i
  {
    if i < |records| {
      assert records[..i + 1][..i] == records[..i];
      VersionsFailureStops(rawName, records, i + 1);
    } else {
      assert records[..i] == records;
    }
  }

  // ---------------------------------------------------------------------
  // Properties of the two maps.

  /** Every tarball of the records can be reported on. */
  predicate AllReported(records: seq<Record>) {
    forall i :: 0 <= i < |records| ==> records[i].blob.Success?
  }

  /** The versions of the records. */
  function VersionSet(records: seq<Record>): set<string> {
    set i | 0 <= i < |records| :: records[i].version
  }

  lemma VersionSetInit(records: seq<Record>)
    requires records != []
    ensures VersionSet(records) ==
      VersionSet(records[..|records| - 1]) + {records[|records| - 1].version}
  {
    var init := records[..|records| - 1];
    forall v | v in VersionSet(records)
      ensures v in VersionSet(init) + {records[|records| - 1].version}
    {
      var i :| 0 <= i < |records| && records[i].version == v;
      if i < |init| {
        assert init[i] == records[i];
      }
    }
    forall v | v in VersionSet(init) ensures v in VersionSet(records) {
      var i :| 0 <= i < |init| && init[i].version == v;
      assert records[i] == init[i];
    }
  }

  /** The `versions` map is built exactly when every tarball can be
      reported on, */
  lemma {:induction false} VersionsSucceeds(rawName: string, records: seq<Record>)
    ensures Versions(rawName, records).Success? <==> AllReported(records)
    decreases |records|
  {
    if records != [] {
      var init := records[..|records| - 1];
      VersionsSucceeds(rawName, init);
      assert forall i :: 0 <= i < |init| ==> init[i] == records[i];
    }
  }

  /** and then it has one key per record version. */
  lemma {:induction false} VersionsKeys(rawName: string, records: seq<Record>)
    requires Versions(rawName, records).Success?
    ensures Versions(rawName, records).value.Keys == VersionSet(records)
    decreases |records|
  {
    if records != [] {
      VersionsKeys(rawName, records[..|records| - 1]);
      VersionSetInit(records);
    }
  }

  /** The `times` map has one key per record version. */
  lemma {:induction false} VersionTimesKeys(records: seq<Record>)
    ensures VersionTimes(records).Keys == VersionSet(records)
    decreases |records|
  {
    if records != [] {
      VersionTimesKeys(records[..|records| - 1]);
      VersionSetInit(records);
    }
  }

  /** `i` is the last record carrying version `v`. */
  predicate LastWithVersion(records: seq<Record>, v: string, i: nat) {
    i < |records| && records[i].version == v
    && forall j :: i < j < |records| ==> records[j].version != v
  }

  lemma LastWithVersionInit(records: seq<Record>, v: string, i: nat)
    requires LastWithVersion(records, v, i) && i < |records| - 1
    ensures LastWithVersion(records[..|records| - 1], v, i)
  {
    var init := records[..|records| - 1];
    forall j | i < j < |init| ensures init[j].version != v {
      assert init[j] == records[j];
    }
  }

  /** A later record with the same version overwrites an earlier one: the
      entry of a version is the document of its last record. */
  lemma {:induction false} VersionsLastWins(rawName: string, records: seq<Record>, v: string, i: nat)
    requires Versions(rawName, records).Success?
    requires LastWithVersion(records, v, i)
    ensures records[i].blob.Success? && v in Versions(rawName, records).value
    ensures Versions(rawName, records).value[v] == VersionInfoOf(rawName, records[i], records[i].blob.value)
    decreases |records|
  {
    var init := records[..|records| - 1];
    if i < |records| - 1 {
      LastWithVersionInit(records, v, i);
      VersionsLastWins(rawName, init, v, i);
    }
  }

  /** Likewise, the time of a version is its last record's creation time. */
  lemma {:induction false} VersionTimesLastWins(records: seq<Record>, v: string, i: nat)
    requires LastWithVersion(records, v, i)
    ensures v in VersionTimes(records) && VersionTimes(records)[v] == records[i].created
    decreases |records|
  {
    if i < |records| - 1 {
      LastWithVersionInit(records, v, i);
      VersionTimesLastWins(records[..|records| - 1], v, i);
    }
  }

  /** The first tarball that cannot be reported on is the error. */
  lemma {:induction false} VersionsFirstFailure(rawName: string, records: seq<Record>, i: nat)
    requires i < |records| && records[i].blob.Failure?
    requires AllReported(records[..i])
    ensures Versions(rawName, records) == Failure(records[i].blob.error)
  {
    assert records[..i + 1][..i] == records[..i];
    VersionsSucceeds(rawName, records[..i]);
    VersionsFailureStops(rawName, records, i + 1);
  }

  // ---------------------------------------------------------------------
  // Properties of the index document.

  /** The index is answered exactly when every public tarball can be
      reported on. Then: the package is named by the raw path and identified
      by its collection; "latest" is the last public record in store order
      and gives the description, the license as stored, and the version of
      the top-level distribution; the versions and the times have one entry
      per public version, and the times also have "created" (the first
      record's creation) and "updated" (the last record's update). */
  lemma PackageIndexReply(store: Collections, rawName: string)
    requires PackageIndexDefined(store, rawName)
    ensures var name := IndexName(rawName);
      var records := FindRecords(store, name, PublicFilter).value;
      var latest := records[|records| - 1];
      var r := PackageIndexSpec(store, rawName);
      (r.Reply? <==> AllReported(records))
      && (r.Reply? ==>
            r.status == StatusOK && r.body.name == rawName && r.body.id == store[name].id
            && r.body.description == latest.description && r.body.license == latest.license
            && r.body.dist.version == latest.version
            && r.body.dist.tarball == PackageTarball(rawName)
            && Hex.Decode(r.body.dist.integrity[4..]) == Some(latest.blob.value.md5)
            && r.body.versions.Keys == VersionSet(records)
            && r.body.times.Keys == VersionSet(records) + {"created", "updated"}
            && r.body.times["created"] == records[0].created
            && r.body.times["updated"] == latest.updated)
  {
    var name := IndexName(rawName);
    var records := FindRecords(store, name, PublicFilter).value;
    VersionsSucceeds(rawName, records);
    if Versions(rawName, records).Success? {
      VersionsKeys(rawName, records);
    }
    VersionTimesKeys(records);
  }

  /** An error answer is an internal error carrying the first tarball error
      in store order. */
  lemma PackageIndexFailure(store: Collections, rawName: string, i: nat)
    requires PackageIndexDefined(store, rawName)
    requires var records := FindRecords(store, IndexName(rawName), PublicFilter).value;
      i < |records| && records[i].blob.Failure? && AllReported(records[..i])
    ensures var records := FindRecords(store, IndexName(rawName), PublicFilter).value;
      PackageIndexSpec(store, rawName) == Failed(ErrorResponse(StatusInternalServerError, records[i].blob.error))
  {
    var records := FindRecords(store, IndexName(rawName), PublicFilter).value;
    VersionsFirstFailure(rawName, records, i);
  }

  /** The entry of a version other than "created" and "updated" is the
      document of its last public record, published at that record's
      creation time. */
  lemma PackageIndexVersion(store: Collections, rawName: string, v: string, i: nat)
    requires PackageIndexDefined(store, rawName)
    requires PackageIndexSpec(store, rawName).Reply?
    requires LastWithVersion(FindRecords(store, IndexName(rawName), PublicFilter).value, v, i)
    requires v != "created" && v != "updated"
    ensures var records := FindRecords(store, IndexName(rawName), PublicFilter).value;
      var body := PackageIndexSpec(store, rawName).body;
      records[i].blob.Success?
      && v in body.versions && body.versions[v] == VersionInfoOf(rawName, records[i], records[i].blob.value)
      && v in body.times && body.times[v] == records[i].created
  {
    var records := FindRecords(store, IndexName(rawName), PublicFilter).value;
    VersionsLastWins(rawName, records, v, i);
    VersionTimesLastWins(records, v, i);
  }

  /** The first and the last record of the index are the first and the last
      public record of the collection. */
  lemma PackageIndexEnds(store: Collections, rawName: string) returns (first: nat, last: nat)
    requires PackageIndexDefined(store, rawName)
    ensures var name := IndexName(rawName);
      var records := FindRecords(store, name, PublicFilter).value;
      var all := store[name].records;
      first <= last < |all| && all[first] == records[0] && all[last] == records[|records| - 1]
      && all[first].visibility == "public" && all[last].visibility == "public"
      && (forall j :: 0 <= j < first ==> all[j].visibility != "public")
      && (forall j :: last < j < |all| ==> all[j].visibility != "public")
  {
    var name := IndexName(rawName);
    var all := store[name].records;
    first := FilterFirst(all, PublicFilter);
    last := FilterLast(all, PublicFilter);
    forall j | 0 <= j < |all| ensures Matches(all[j], PublicFilter) <==> all[j].visibility == "public" {
      PublicMatches(all[j]);
    }
  }

  /** Every version reports a license, `none` for an empty one, while the
      top-level license is the latest record's as stored: when that one is
      empty, the index has license "" and its latest version has `none`. */
  lemma LicenseOfIndex(store: Collections, rawName: string)
    requires PackageIndexDefined(store, rawName)
    requires PackageIndexSpec(store, rawName).Reply?
    ensures var body := PackageIndexSpec(store, rawName).body;
      forall v :: v in body.versions ==> body.versions[v].license != ""
    ensures var records := FindRecords(store, IndexName(rawName), PublicFilter).value;
      var latest := records[|records| - 1];
      var body := PackageIndexSpec(store, rawName).body;
      latest.license == "" ==>
        body.license == "" && latest.version in body.versions
        && body.versions[latest.version].license == "none"
  {
    var records := FindRecords(store, IndexName(rawName), PublicFilter).value;
    var body := PackageIndexSpec(store, rawName).body;
    VersionsKeys(rawName, records);
    forall v | v in body.versions ensures body.versions[v].license != "" {
      var i := LastIndexOf(records, v);
      VersionsLastWins(rawName, records, v, i);
    }
    VersionsLastWins(rawName, records, records[|records| - 1].version, |records| - 1);
  }

  /** The last record carrying a version that some record carries. */
  lemma {:induction false} LastIndexOf(records: seq<Record>, v: string) returns (i: nat)
    requires v in VersionSet(records)
    ensures LastWithVersion(records, v, i)
    decreases |records|
  {
    var init := records[..|records| - 1];
    if records[|records| - 1].version == v {
      i := |records| - 1;
    } else {
      VersionSetInit(records);
      i := LastIndexOf(init, v);
      assert forall j :: i < j < |init| ==> init[j] == records[j];
    }
  }

  /** Different versions get different archive URLs. */
  lemma VersionTarballInjective(rawName: string, v: string, w: string)
    requires VersionTarball(rawName, v) == VersionTarball(rawName, w)
    ensures v == w
  {
    var p := Helpers.PublicTarHost + "/" + rawName + "/_/";
    var q := "/" + rawName + ".tgz";
    assert VersionTarball(rawName, v) == p + v + q;
    assert VersionTarball(rawName, w) == p + w + q;
    assert v == (p + v + q)[|p|..|p| + |v|];
    assert w == (p + w + q)[|p|..|p| + |w|];
  }

  // ---------------------------------------------------------------------
  // PackageVersion

  /** `PackageVersion` does not panic: the path has a version segment and
      some public record has that version. */
  predicate PackageVersionDefined(store: Collections, split: seq<string>) {
    |split| >= 2 &&
    var records := FindRecords(store, IndexName(split[0]), VersionFilter(split[1]));
    records.Success? && |records.value| > 0
  }

  function PackageVersion(store: Collections, split: seq<string>): Reply<VersionInfo>
    requires PackageVersionDefined(store, split)
  {
    var record := FindRecords(store, IndexName(split[0]), VersionFilter(split[1])).value[0];
    match record.blob
    case Failure(err) => Failed(ErrorResponse(StatusInternalServerError, err))
    case Success(attrs) => Reply(StatusOK, VersionInfoOf(split[0], record, attrs))
  }

  /** The answer is the document of the first public record of the requested
      version in store order, at index `i` of the collection, or the error of
      its tarball. The document is of that version, public, licensed, and
      points at the version's archive under the raw name. */
  lemma PackageVersionFirst(store: Collections, split: seq<string>) returns (i: nat)
    requires PackageVersionDefined(store, split)
    ensures var all := store[IndexName(split[0])].records;
      var r := PackageVersion(store, split);
      i < |all| && all[i].visibility == "public" && all[i].version == split[1]
      && (forall j :: 0 <= j < i ==> !(all[j].visibility == "public" && all[j].version == split[1]))
      && (all[i].blob.Failure? ==> r == Failed(ErrorResponse(StatusInternalServerError, all[i].blob.error)))
      && (all[i].blob.Success? ==>
            r == Reply(StatusOK, VersionInfoOf(split[0], all[i], all[i].blob.value))
            && r.body.version == split[1] && !r.body.isPrivate && r.body.license != ""
            && r.body.dist.tarball == VersionTarball(split[0], split[1]))
  {
    var all := store[IndexName(split[0])].records;
    var exp := VersionFilter(split[1]);
    i := FilterFirst(all, exp);
    VersionMatches(all[i], split[1]);
    forall j | 0 <= j < i ensures !(all[j].visibility == "public" && all[j].version == split[1]) {
      VersionMatches(all[j], split[1]);
    }
  }
}
