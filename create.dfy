/** Publishing (pkg/create/create.go): creating the collection of a new
    package, the permission check, and adding a version record. The store is
    the `collections` field of a `Registry`; what PocketBase's forms decide
    (the id of a new collection, the record a request uploads, the outcome of
    `Submit`) is given to the methods. */
module Create {
  import opened Wrappers
  import opened Strings
  import opened Store
  import NameCodec

  /** The request's authentication: whether an admin is signed in, and the id
      of the signed-in user record, if any. */
  datatype Session = Session(admin: bool, user: Option<string>)

  /** The list and view rule of a package collection. */
  const AccessRule: string := "@request.auth.id = access.id"

  /** The pattern the `version` field must match. */
  const VersionPattern: string :=
    "^(0|[1-9][0-9]*)\\.(0|[1-9][0-9]*)\\.(0|[1-9][0-9]*)(?:-((?:0|[1-9][0-9]*|[0-9]*[a-zA-Z-][0-9a-zA-Z-]*)(?:\\.(?:0|[1-9][0-9]*|[0-9]*[a-zA-Z-][0-9a-zA-Z-]*))*))?(?:\\+([0-9a-zA-Z-]+(?:\\.[0-9a-zA-Z-]+)*))?$"

  /** The largest tarball a version may upload, 10 MiB. */
  const MaxTarballSize: int := 10485760

  /** The fields of a package collection, in the order they are added. */
  function PackageSchema(authId: string): seq<SchemaField> {
    [ SchemaField("access", Relation, true, false, RelationOptions(authId, false)),
      SchemaField("visibility", Select, true, false, SelectOptions(1, ["public", "private"])),
      SchemaField("group", Select, true, false, SelectOptions(1, ["local", "net", "both"])),
      SchemaField("description", Text, false, false, NoOptions),
      SchemaField("index", Text, true, false, NoOptions),
      SchemaField("author", Text, true, false, NoOptions),
      SchemaField("url", Text, false, false, NoOptions),
      SchemaField("repository", Text, false, false, NoOptions),
      SchemaField("license", Text, false, false, NoOptions),
      SchemaField("dependencies", Json, false, false, NoOptions),
      SchemaField("version", Text, true, true, TextOptions(VersionPattern)),
      SchemaField("tarball", File, true, false, FileOptions(1, MaxTarballSize, ["application/gzip"])) ]
  }

  /** The names of a schema's fields. */
  function FieldNames(schema: seq<SchemaField>): set<string> {
    set i | 0 <= i < |schema| :: schema[i].name
  }

  /** The schema declares every field the handlers read. */
  lemma SchemaFields(authId: string)
    ensures {"access", "visibility", "index", "author", "description", "license",
             "dependencies", "version", "tarball"} <= FieldNames(PackageSchema(authId))
  {
    var s := PackageSchema(authId);
    assert s[0].name == "access" && s[1].name == "visibility" && s[4].name == "index";
    assert s[5].name == "author" && s[3].name == "description" && s[8].name == "license";
    assert s[9].name == "dependencies" && s[10].name == "version" && s[11].name == "tarball";
  }

  /** `version` is the only unique field, so a version is published once. */
  lemma SchemaUnique(authId: string)
    ensures var s := PackageSchema(authId);
      forall i :: 0 <= i < |s| ==> (s[i].unique <==> s[i].name == "version")
  {
    var s := PackageSchema(authId);
    assert forall i :: 0 <= i < 10 ==> !s[i].unique && s[i].name != "version";
    assert s[11].name != "version";
  }

  /** The maintainers relate to the authentication collection, and the
      visibility is either public or private. */
  lemma SchemaOptions(authId: string)
    ensures var s := PackageSchema(authId);
      (forall i :: 0 <= i < |s| && s[i].fieldType == Relation ==>
         s[i].options == RelationOptions(authId, false))
      && (forall i :: 0 <= i < |s| && s[i].name == "visibility" ==>
            s[i].options == SelectOptions(1, ["public", "private"]))
  {
    var s := PackageSchema(authId);
    assert forall i :: 1 <= i < |s| ==> s[i].fieldType != Relation;
    assert forall i :: 2 <= i < |s| ==> s[i].name != "visibility";
  }

  /** The collection `Package` submits. */
  function NewPackage(id: string, name: string, authId: string): Collection {
    Collection(id, name, Some(AccessRule), Some(AccessRule), None, None, None, PackageSchema(authId), [])
  }

  // ---------------------------------------------------------------------
  // CheckAuth

  /** `CheckAuth` does not dereference a missing user: a user is signed in
      whenever the decision reaches the maintainers of the last public
      record. */
  predicate CheckAuthDefined(found: bool, records: Result<seq<Record>, string>, s: Session) {
    found && records.Success? && !s.admin && |records.value| > 0 ==> s.user.Some?
  }

  /** The decision over what the store reports: whether the package's
      collection exists, and the query of its public records. */
  function CheckAuth(found: bool, records: Result<seq<Record>, string>, s: Session): bool
    requires CheckAuthDefined(found, records, s)
  {
    if !found then true
    else if records.Failure? then false
    else if s.admin then true
    else if |records.value| == 0 then true
    else s.user.value in records.value[|records.value| - 1].access
  }

  /** Publishing is allowed exactly when the package is new, or the query
      succeeds and the request is an admin's, the package has no public
      record, or the user maintains the last public record. In particular a
      failed query denies even an admin. */
  lemma CheckAuthCases(found: bool, records: Result<seq<Record>, string>, s: Session)
    requires CheckAuthDefined(found, records, s)
    ensures !found ==> CheckAuth(found, records, s)
    ensures found && records.Failure? ==> !CheckAuth(found, records, s)
    ensures found && records.Success? && (s.admin || records.value == []) ==> CheckAuth(found, records, s)
    ensures found && records.Success? && !s.admin && records.value != [] ==>
      (CheckAuth(found, records, s) <==> s.user.value in records.value[|records.value| - 1].access)
  {
  }

  /** What `CheckAuth` asks of the store for a package name. */
  function CheckAuthIn(store: Collections, name: string, s: Session): bool
    requires CheckAuthDefined(name in store, FindRecords(store, name, PublicFilter), s)
  {
    CheckAuth(name in store, FindRecords(store, name, PublicFilter), s)
  }

  /** On an existing package with public records, a user other than an
      admin may publish exactly when listed in the `access` of the last
      public record of the collection, in store order, found at `i`. */
  lemma CheckAuthLastPublic(store: Collections, name: string, s: Session) returns (i: nat)
    requires name in store && !s.admin && s.user.Some?
    requires Filter(store[name].records, PublicFilter) != []
    ensures var all := store[name].records;
      i < |all| && all[i].visibility == "public"
      && (forall j :: i < j < |all| ==> all[j].visibility != "public")
      && (CheckAuthIn(store, name, s) <==> s.user.value in all[i].access)
  {
    var all := store[name].records;
    i := FilterLast(all, PublicFilter);
    PublicMatches(all[i]);
    forall j | i < j < |all| ensures all[j].visibility != "public" {
      PublicMatches(all[j]);
    }
  }

  /** The error `Version` reports when publishing is not allowed. */
  function PermissionDenied(rawName: string): (m: string)
    ensures var p := "You do not have permission to publish '";
      |m| >= |p| + |rawName| && m[..|p|] == p && m[|p|..|p| + |rawName|] == rawName
  {
    "You do not have permission to publish '" + rawName + "'. Are you logged in as the correct user?"
  }

  /** The message names the package: different names, different messages. */
  lemma PermissionDeniedInjective(a: string, b: string)
    requires PermissionDenied(a) == PermissionDenied(b)
    ensures a == b
  {
    var p := "You do not have permission to publish '";
    var q := "'. Are you logged in as the correct user?";
    assert PermissionDenied(a) == p + a + q;
    assert PermissionDenied(b) == p + b + q;
    assert |a| == |b|;
    assert a == PermissionDenied(a)[|p|..|p| + |a|];
  }

  // ---------------------------------------------------------------------
  // The registry

  /** What `Version` needs to not panic: `CheckAuth`'s user is present. */
  predicate VersionDefined(store: Collections, rawName: string, s: Session) {
    var encoded := NameCodec.EncodeName(rawName);
    encoded.Success? ==>
      CheckAuthDefined(encoded.value in store, FindRecords(store, encoded.value, PublicFilter), s)
  }

  class Registry {
    var collections: Collections

    constructor (initial: Collections)
      ensures collections == initial
    {
      collections := initial;
    }

    /** `Package`: creates the collection of the package named by the
        request, unless the name is invalid, the authentication collection is
        missing (checked first, even for an existing package), the package
        exists already, or the submission fails. Only the last case changes
        the store, by adding the new collection under the encoded name. */
    method Package(rawName: string, newId: string, submitError: Option<string>) returns (err: Option<string>)
      modifies this
      ensures !NameCodec.ValidName(rawName) ==>
        err == Some(NameCodec.InvalidNameMessage) && collections == old(collections)
      ensures NameCodec.ValidName(rawName) && NameCodec.AuthCollection !in old(collections) ==>
        err == Some(NotFound) && collections == old(collections)
      ensures var name := NameCodec.EncodeName(rawName).GetOr("");
        NameCodec.ValidName(rawName) && NameCodec.AuthCollection in old(collections) ==>
          if name in old(collections) then
            err == None && collections == old(collections)
          else if submitError.Some? then
            err == submitError && collections == old(collections)
          else
            err == None && collections ==
              old(collections)[name := NewPackage(newId, name, old(collections)[NameCodec.AuthCollection].id)]
    {
      var encoded := NameCodec.EncodeName(rawName);
      if encoded.Failure? {
        return Some(encoded.error);
      }
      var name := encoded.value;
      var present := name in collections;
      var auth := FindCollection(collections, NameCodec.AuthCollection);
      if auth.Failure? {
        return Some(auth.error);
      }
      if present {
        return None;
      }
      if submitError.Some? {
        return submitError;
      }
      collections := collections[name := NewPackage(newId, name, auth.value.id)];
      return None;
    }

    /** `Version`: adds the uploaded record to the package's collection,
        unless the name is invalid, publishing is not allowed, the package
        does not exist, the upload cannot be read, or the submission fails,
        in that order. Only the last case changes the store, by appending the
        record to the collection's records. */
    method Version(rawName: string, s: Session, upload: Result<Record, string>, submitError: Option<string>)
      returns (err: Option<string>)
      requires VersionDefined(collections, rawName, s)
      modifies this
      ensures var name := NameCodec.EncodeName(rawName).GetOr("");
        if !NameCodec.ValidName(rawName) then
          err == Some(NameCodec.InvalidNameMessage) && collections == old(collections)
        else if !CheckAuthIn(old(collections), name, s) then
          err == Some(PermissionDenied(rawName)) && collections == old(collections)
        else if name !in old(collections) then
          err == Some(NotFound) && collections == old(collections)
        else if upload.Failure? then
          err == Some(upload.error) && collections == old(collections)
        else if submitError.Some? then
          err == submitError && collections == old(collections)
        else
          err == None && collections == old(collections)[name :=
            old(collections)[name].(records := old(collections)[name].records + [upload.value])]
    {
      var encoded := NameCodec.EncodeName(rawName);
      if encoded.Failure? {
        return Some(encoded.error);
      }
      var name := encoded.value;
      if !CheckAuth(name in collections, FindRecords(collections, name, PublicFilter), s) {
        return Some(PermissionDenied(rawName));
      }
      var collection := FindCollection(collections, name);
      if collection.Failure? {
        return Some(collection.error);
      }
      if upload.Failure? {
        return Some(upload.error);
      }
      if submitError.Some? {
        return submitError;
      }
      collections := collections[name := collection.value.(records := collection.value.records + [upload.value])];
      return None;
    }
  }

  /** A created package never replaces the authentication collection, since
      no encoded name is `just_auth_system`. */
  lemma NewPackageKeepsAuth(store: Collections, rawName: string, newId: string)
    requires NameCodec.ValidName(rawName) && NameCodec.AuthCollection in store
    ensures var name := NameCodec.EncodeName(rawName).value;
      var after := store[name := NewPackage(newId, name, store[NameCodec.AuthCollection].id)];
      NameCodec.AuthCollection in after && after[NameCodec.AuthCollection] == store[NameCodec.AuthCollection]
  {
  }

  /** Publishing to a package that does not exist is allowed by `CheckAuth`
      and then fails on the missing collection. */
  lemma MissingPackageIsAllowed(store: Collections, name: string, s: Session)
    requires name !in store
    ensures CheckAuthDefined(name in store, FindRecords(store, name, PublicFilter), s)
    ensures CheckAuthIn(store, name, s)
  {
  }
}
