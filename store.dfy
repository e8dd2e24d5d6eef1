/** The record store the handlers query (PocketBase's `Dao`), as a value: a map
    from collection name to collection. A package is a collection named by its
    encoded name; each published version is one record in it, in store order.
    The tarball a record points to is given with the record: its contents as a
    tar stream and what the file system reports about the blob. */
module Store {
  import opened Wrappers
  import opened Strings
  import TarArchive

  type DateTime = string

  /** What `fs.Attributes` reports for a stored file. */
  datatype Attributes = Attributes(md5: seq<byte>, size: int)

  datatype Record = Record(
    id: string,
    version: string,
    visibility: string,
    license: string,
    access: seq<string>,
    index: string,
    description: string,
    author: string,
    dependencies: map<string, string>,  // the `dependencies` JSON field, decoded
    created: DateTime,
    updated: DateTime,
    blob: Result<Attributes, string>,    // `fs.Attributes` on the record's tarball
    archive: TarArchive.Archive)         // opening and unpacking the tarball

  /** `record.GetString(key)` for the text fields; any other key reads as "". */
  function Field(r: Record, key: string): string {
    if key == "id" then r.id
    else if key == "version" then r.version
    else if key == "visibility" then r.visibility
    else if key == "license" then r.license
    else if key == "index" then r.index
    else if key == "description" then r.description
    else if key == "author" then r.author
    else ""
  }

  /** A `dbx.HashExp`: every listed field equals its value. */
  type HashExp = map<string, string>

  predicate Matches(r: Record, exp: HashExp) {
    forall key :: key in exp ==> Field(r, key) == exp[key]
  }

  datatype FieldOptions =
    | NoOptions
    | RelationOptions(collectionId: string, cascadeDelete: bool)
    | SelectOptions(maxSelect: int, values: seq<string>)
    | TextOptions(pattern: string)
    | FileOptions(maxSelect: int, maxSize: int, mimeTypes: seq<string>)

  datatype FieldType = Relation | Select | Text | Json | File

  datatype SchemaField = SchemaField(name: string, fieldType: FieldType, required: bool,
                                     unique: bool, options: FieldOptions)

  datatype Collection = Collection(
    id: string,
    name: string,
    listRule: Option<string>,
    viewRule: Option<string>,
    createRule: Option<string>,
    updateRule: Option<string>,
    deleteRule: Option<string>,
    schema: seq<SchemaField>,
    records: seq<Record>)

  type Collections = map<string, Collection>

  /** The error a lookup of a missing collection reports. */
  const NotFound: string := "no rows in result set"

  /** `FindCollectionByNameOrId`. */
  function FindCollection(store: Collections, name: string): (r: Result<Collection, string>)
    ensures r.Success? <==> name in store
    ensures r.Success? ==> r.value == store[name]
  {
    if name in store then Success(store[name]) else Failure(NotFound)
  }

  /** The records matching `exp`, in store order. */
  function Filter(records: seq<Record>, exp: HashExp): seq<Record> {
    if records == [] then []
    else
      var rest := Filter(records[1..], exp);
      if Matches(records[0], exp) then [records[0]] + rest else rest
  }

  /** `FindRecordsByExpr`: fails exactly when the collection is missing. */
  function FindRecords(store: Collections, name: string, exp: HashExp): (r: Result<seq<Record>, string>)
    ensures r.Failure? <==> name !in store
    ensures r.Success? ==> r.value == Filter(store[name].records, exp)
  {
    if name in store then Success(Filter(store[name].records, exp)) else Failure(NotFound)
  }

  /** The filter of the published records, `visibility = 'public'`. */
  const PublicFilter: HashExp := map["visibility" := "public"]

  lemma PublicMatches(r: Record)
    ensures Matches(r, PublicFilter) <==> r.visibility == "public"
  {
    assert Field(r, "visibility") == r.visibility;
  }

  /** The filter keeps exactly the matching records. */
  lemma {:induction false} FilterMembers(records: seq<Record>, exp: HashExp, r: Record)
    ensures r in Filter(records, exp) <==> r in records && Matches(r, exp)
    decreases |records|
  {
    if records != [] {
      FilterMembers(records[1..], exp, r);
      assert records == [records[0]] + records[1..];
    }
  }

  /** The first result is the first matching record of the collection, at
      index `i`. */
  lemma {:induction false} FilterFirst(records: seq<Record>, exp: HashExp) returns (i: nat)
    requires |Filter(records, exp)| > 0
    ensures i < |records| && records[i] == Filter(records, exp)[0] && Matches(records[i], exp)
    ensures forall j :: 0 <= j < i ==> !Matches(records[j], exp)
    decreases |records|
  {
    if Matches(records[0], exp) {
      return 0;
    }
    var tail := records[1..];
    var k := FilterFirst(tail, exp);
    i := k + 1;
    assert records[i] == tail[k];
    forall j | 0 < j < i ensures !Matches(records[j], exp) {
      assert records[j] == tail[j - 1];
    }
  }

  /** The last result is the last matching record of the collection, at
      index `i`. */
  lemma {:induction false} FilterLast(records: seq<Record>, exp: HashExp) returns (i: nat)
    requires |Filter(records, exp)| > 0
    ensures var f := Filter(records, exp);
      i < |records| && records[i] == f[|f| - 1] && Matches(records[i], exp)
    ensures forall j :: i < j < |records| ==> !Matches(records[j], exp)
    decreases |records|
  {
    var f := Filter(records, exp);
    var tail := records[1..];
    var rest := Filter(tail, exp);
    if |rest| > 0 {
      var k := FilterLast(tail, exp);
      i := k + 1;
      assert f[|f| - 1] == rest[|rest| - 1];
      assert records[i] == tail[k];
      forall j | i < j < |records| ensures !Matches(records[j], exp) {
        assert records[j] == tail[j - 1];
      }
    } else {
      i := 0;
      assert f == [records[0]];
      forall j | 0 < j < |records| ensures !Matches(records[j], exp) {
        FilterMembers(tail, exp, records[j]);
        assert records[j] == tail[j - 1];
      }
    }
  }
}
