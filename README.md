# A verified model of the package registry's core

The registry serves JavaScript packages stored in PocketBase collections. A
package is a collection. Its name is an encoding of the package name, and each
published version is one record in it. This project models, in Dafny, the logic
the registry's handlers run around that store:

- **Name codecs.** The live codec (`NameCodec.EncodeName`'s grammar check,
  then base-62 of the name's bytes) and the earlier token-substitution codec, each with its
  inverse.
- **Version recognition.** The Semantic Versioning 2.0.0 check on the text after
  the last `@` (its sections 2, 9 and 10), and the loose
  pattern whose first match `GetSemVer` returns.
- **Archive unpacking.** `ReadTar`: a loop over the entries of a tar stream
  that keeps regular files in a path-to-bytes map.
- **File serving.** The rewrite that puts `<name>/` after every relative import
  specifier, and the choice between serving the index entry, redirecting to it,
  and serving a named entry.
- **Metadata documents.** The package index, whose two loops fill `versions`
  and `times` over the public records in store order, and the document of one
  version.
- **Publishing.** `CheckAuth`'s decision, and the early-exit order of `Package`
  (creating a collection) and `Version` (adding a record), as methods of a
  `Registry` class whose `collections` field they update.
- **Helpers.** The record field helpers, the response constructors, `SplitLast`
  and `TarPath`.

The store is a value, `map<string, Collection>`. A record carries what the file
system would report about its tarball (`blob`) and what opening and unpacking
the tarball would yield (`archive`). A query of a missing collection fails with
the message `Store.NotFound`; every other query succeeds, in store order. A
panic in the Go code becomes a precondition: indexing an empty record list,
dereferencing a missing archive entry, or reading the id of a missing user.

One module per source file:

| module | source |
|---|---|
| `NameCodec`, `Base62` | pkg/parse/encode.go |
| `LegacyCodec`, `Replacer` | parse/parse.go |
| `Version` | pkg/parse/version.go |
| `Helpers` | pkg/helpers/helpers.go |
| `TarArchive` | helpers/helpers.go |
| `FileHandler` | pkg/routes/handler/file.go |
| `PackageHandler`, `Hex` | pkg/routes/handler/package.go |
| `Create` | pkg/create/create.go |
| `PackageFields` | pkg/helpers/package.go |
| `Responses` | pkg/response/errors.go |
| `Types` | types.go |
| `Store` | the PocketBase store the handlers query |

`Wrappers` holds `Option` and `Result`. `Strings` holds character classes,
`strings.Split`, `strings.Join` and `strings.Index` with their laws.

A name with no `@` at all, such as `1.2.3`, passes `HasSemVersion`. This is
because `strings.Split` then returns the whole name
(`Version.AcceptsBareVersion`).

`PackageIndex` calls `fs.Attributes` a second time, on the latest record. Its
failure branch is modelled, but it can never be taken. The model gives each
record one `blob` outcome, and a failed `blob` on the latest record has already
stopped the first loop.

## Model

| member | source | states |
|---|---|---|
| `Base62.Encode` | pkg/parse/encode.go:12 | the encoding of n bytes is 2n characters, all from `0-9A-Za-z` |
| `Base62.DecodeEncode` | pkg/parse/encode.go:22-23 | decoding an encoding gives the bytes back |
| `Base62.EncodeDecode` | pkg/parse/encode.go:22-23 | wherever decoding succeeds, encoding its result gives the text back |
| `Base62.EncodeInjective` | pkg/parse/encode.go:12 | different byte strings encode differently |
| `NameCodec.EncodeName` | pkg/parse/encode.go:9-16 | fails, with "package name contains invalid characters", exactly when the name does not match `^[a-zA-Z0-9@][a-zA-Z0-9:_.-]*$`; on success the text is twice the name's length, alphanumeric, and never `just_auth_system` |
| `NameCodec.OriginalName` | pkg/parse/encode.go:18-21 | `just_auth_system` decodes to itself |
| `NameCodec.RejectsMalformed` | pkg/parse/encode.go:10-15 | the empty name, a leading `.`, `-`, `_` or `:`, any `/` or space, and `@` after the first character are refused |
| `NameCodec.RoundTrip` | pkg/parse/encode.go:9-25 | every valid name decodes back from its encoding |
| `NameCodec.EncodeInjective` | pkg/parse/encode.go:9-16 | distinct valid names get distinct encoded names |
| `Replacer.Replace` | parse/parse.go:11-14 | `Replacer.Replace` scans left to right. At each position it substitutes the first pair, in argument order, whose old text begins there, then continues after that old text. Otherwise it copies one character. Inserted text is never scanned again. Its laws are `Replacer.FirstRule`, `Replacer.ReplaceNoMatch` and `LegacyCodec.ReplaceIsEscape` |
| `Replacer.FirstRule` | parse/parse.go:11 | the chosen pair is the first, in argument order, whose old text begins the input; none is chosen only when no old text begins it |
| `Replacer.ReplaceNoMatch` | parse/parse.go:22 | text in which no old text occurs is left unchanged |
| `LegacyCodec.EncodeName` | parse/parse.go:9-18 | fails, with the grammar message, exactly when the name does not match `^[a-zA-Z0-9@][a-zA-Z0-9\/_.-]*$` |
| `LegacyCodec.ReplaceIsEscape` | parse/parse.go:11 | the replacer rewrites each character on its own: `-`, `.`, `@` and `/` become `_JFMTdash_`, `_JFMTdot_`, `_JFMTat_` and `_JFMTslash_`; every other character stays |
| `LegacyCodec.EncodeEscapes` | parse/parse.go:13-14 | a valid name encodes to its character-by-character escape |
| `LegacyCodec.EncodedAlphabet` | parse/parse.go:11-14 | encoded text has only `[A-Za-z0-9_]`, so none of `- . @ /` |
| `LegacyCodec.EscapeLength` | parse/parse.go:11 | the length grows by 9 per `-`, 8 per `.`, 7 per `@` and 10 per `/` |
| `LegacyCodec.OriginalName` | parse/parse.go:20-23 | one pass of the reverse replacer, tokens back to `-`, `.`, `@` and `/`; its laws are `LegacyCodec.DecodeEscape`, `LegacyCodec.OriginalNameIdentity` and `LegacyCodec.RoundTripCounterexample` |
| `LegacyCodec.OriginalNameIdentity` | parse/parse.go:20-23 | text without `_JFMT` decodes to itself |
| `LegacyCodec.RoundTrip` | parse/parse.go:9-23 | a valid name without `_JFMT` decodes back from its encoding |
| `LegacyCodec.RoundTripCounterexample` | parse/parse.go:9-23 | the valid name `a_JFMTdot_b` encodes to itself but decodes to `a.b`, so the round trip fails in general |
| `Version.IsSemVer` | pkg/parse/version.go:12 | the anchored Semantic Versioning pattern, read as: a core of three numeric identifiers, an optional `-` pre-release, an optional `+` build; `Version.SemVerIff` proves it is exactly the written-out well-formed versions |
| `Version.HasSemVersion` | pkg/parse/version.go:11-15 | `IsSemVer` of the last piece of the `@`-split; `Version.HasSemVersionAfterAt` and the examples below state what that accepts |
| `Version.SemVerIff` | pkg/parse/version.go:12 | the recogniser accepts exactly the written-out versions whose core numbers are numeric identifiers, whose pre-release identifiers are numeric or alphanumeric, and whose build identifiers are non-empty `[0-9A-Za-z-]` |
| `Version.Parse` | pkg/parse/version.go:12 | an accepted text reads back into a well-formed version that writes out as the same text |
| `Version.FormatIsSemVer` | pkg/parse/version.go:12 | every well-formed version, written out, is accepted |
| `Version.HasSemVersionAfterAt` | pkg/parse/version.go:14 | for `v` without `@`, `HasSemVersion(p + "@" + v)` is the check of `v` alone |
| `Version.HasSemVersionWithoutAt` | pkg/parse/version.go:14 | a name without `@` is checked whole |
| `Version.RejectsBareName` | pkg/parse/version.go:11-15 | `foo` is refused |
| `Version.RejectsEmptyVersion` | pkg/parse/version.go:11-15 | `foo@` is refused |
| `Version.RejectsTwoParts` | pkg/parse/version.go:11-15 | `foo@1.2` is refused |
| `Version.RejectsLeadingZero` | pkg/parse/version.go:11-15 | `foo@01.2.3` is refused |
| `Version.AcceptsRelease` | pkg/parse/version.go:11-15 | `foo@1.2.3` is accepted |
| `Version.AcceptsScopedPrerelease` | pkg/parse/version.go:11-15 | `@scope/foo@1.0.0-beta.1` is accepted |
| `Version.AcceptsBareVersion` | pkg/parse/version.go:14 | `1.2.3`, with no `@`, is accepted |
| `Version.GetSemVer` | pkg/parse/version.go:17-21 | defined only where a match exists, since otherwise Go indexes an empty slice; the result lies in the loose language and is no longer than the input. `Version.GetSemVerIsFirstMatch` shows it is the leftmost-longest match |
| `Version.HasMatchIff` | pkg/parse/version.go:18-20 | some substring matches the loose pattern exactly when the leftmost-match search finds a start |
| `Version.GetSemVerIsFirstMatch` | pkg/parse/version.go:17-21 | the result is a substring of the input that matches; no match starts further left, and none from the same start reaches further |
| `Version.LooseShape` | pkg/parse/version.go:18 | a match starts with a digit, holds a `.`, ends with a letter or digit and spans no newline |
| `Version.GetSemVerOfRelease` | pkg/parse/version.go:17-21 | `pkg@2.10.4` gives `2.10.4` |
| `Version.GetSemVerOfPrerelease` | pkg/parse/version.go:17-21 | `pkg@1.0.0-beta.1` gives `1.0.0-beta.1` |
| `Version.GetSemVerStartsInName` | pkg/parse/version.go:17-21 | `a1.2b@3.4.5` gives `1.2b@3.4.5`: the match starts at a digit inside the name |
| `Version.NoMatchInBareName` | pkg/parse/version.go:20 | `pkg` has no match, so `GetSemVer` would index an empty slice |
| `Version.NoMatchInTwoParts` | pkg/parse/version.go:20 | `pkg@1.0` has no match either |
| `Helpers.SplitLast` | pkg/helpers/helpers.go:13-15 | the result is an element of the non-empty slice, its last |
| `Helpers.LastPiece` | pkg/helpers/helpers.go:13-15 | the last piece of a split is a separator-free suffix of the text, preceded by the separator unless it is the whole text |
| `Helpers.LastPieceWithoutSeparator` | pkg/helpers/helpers.go:13-15 | a text without the separator is its own last piece |
| `Helpers.LastPieceAfter` | pkg/helpers/helpers.go:13-15 | the last piece of `p + sep + v` is `v` when `v` has no separator |
| `Helpers.TarPath` | pkg/helpers/helpers.go:28-35 | `http://localhost:8090` exactly under `go run`, `https://r.justjs.dev` exactly otherwise |
| `TarArchive.ReadTarSpec` | helpers/helpers.go:24-57 | the reference definition of the loop: open and gzip failures, then the entries in order with the first read error winning, then the stream's own error, otherwise the map; its laws are the `TarArchive` lemmas below |
| `TarArchive.ReadTar` | helpers/helpers.go:24-57 | the loop returns what `ReadTarSpec` defines: open and gzip errors, the first read error, the stream's own error, or the map of regular entries |
| `TarArchive.CollectKeys` | helpers/helpers.go:46-56 | the walk succeeds exactly when every regular entry reads, and then the keys are exactly the names of the regular entries |
| `TarArchive.LastEntryWins` | helpers/helpers.go:49-53 | when regular entries share a name, the last one's whole data is kept under that exact name |
| `TarArchive.FirstReadErrorWins` | helpers/helpers.go:49-52 | the first unreadable regular entry's error is the result, with no partial map |
| `TarArchive.EarlyFailures` | helpers/helpers.go:25-34 | open and gzip failures are returned before any entry is read |
| `TarArchive.StreamFailureFails` | helpers/helpers.go:40-44 | a stream that does not end in `io.EOF` yields an error, whatever its entries |
| `TarArchive.CleanStreamSucceeds` | helpers/helpers.go:39-56 | a clean stream of readable entries yields the map of its regular entries |
| `FileHandler.AddMod` | pkg/routes/handler/file.go:19 | the `add_mod` replacer over the two relative-import prefixes; `FileHandler.AddModStep`, `FileHandler.StripAddMod` and `FileHandler.AddModLength` state what it does |
| `FileHandler.AddModStep` | pkg/routes/handler/file.go:19 | at `from './` or `from "./` the name and `/` are inserted and the scan resumes after the specifier; any other character is copied |
| `FileHandler.StripAddMod` | pkg/routes/handler/file.go:19 | removing the inserted `<name>/` after each specifier gives the original text back, whatever the name |
| `FileHandler.AddModInjective` | pkg/routes/handler/file.go:19 | different texts are served differently |
| `FileHandler.AddModLength` | pkg/routes/handler/file.go:19 | the output is longer by the name's length plus one for each specifier, and by nothing else |
| `FileHandler.AddModIdentity` | pkg/routes/handler/file.go:19 | text without a specifier is served unchanged |
| `FileHandler.UntouchedParent` | pkg/routes/handler/file.go:19 | `from '../x'` is left alone |
| `FileHandler.UntouchedBare` | pkg/routes/handler/file.go:19 | `from 'lodash'` is left alone |
| `FileHandler.UntouchedSideEffectImport` | pkg/routes/handler/file.go:19 | `import './x'` is left alone |
| `FileHandler.RewritesRelativeImport` | pkg/routes/handler/file.go:19 | `from './a.js'` becomes `from './pkg/a.js'` for the package `pkg` |
| `FileHandler.GetFile` | pkg/routes/handler/file.go:18-69 | the handler's answer from the last selected record; `FileHandler.GetFileOutcomes` and `FileHandler.GetFileUsesLastRecord` state its outcomes |
| `FileHandler.GetFileOutcomes` | pkg/routes/handler/file.go:22-68 | an archive that does not unpack gives a 500; `index_file` for a non-curl agent gives a 307 to `split[0]/<index>` without a version and to `<raw name>/<index>` with one; otherwise a 200 whose text is `AddMod` of the chosen entry's bytes, and which strips back to those bytes |
| `FileHandler.GetFileUsesLastRecord` | pkg/routes/handler/file.go:24-25 | the served record is the last one in store order that the branch's query selects: public without a version, of that version otherwise |
| `PackageFields.PackagePrivacyStatus` | pkg/helpers/package.go:5-11 | private exactly when visibility is `private` |
| `PackageFields.PackageHasLicense` | pkg/helpers/package.go:13-19 | `none` for an empty license, the license unchanged otherwise, never empty |
| `PackageFields.LicenseIdempotent` | pkg/helpers/package.go:13-19 | reporting a reported license changes nothing |
| `Responses.ErrorFromString` | pkg/response/errors.go:5-9 | the status is kept, and the message has the one key `error`, holding the text |
| `Responses.Error` | pkg/response/errors.go:11-13 | status and error are kept |
| `Responses.ErrorFromStringInjective` | pkg/response/errors.go:5-9 | equal responses came from equal inputs |
| `Responses.ErrorInjective` | pkg/response/errors.go:11-13 | equal error responses came from equal inputs |
| `Store.FindCollection` | pkg/routes/handler/package.go:20 | succeeds exactly when the collection exists, and then gives that collection |
| `Store.FindRecords` | pkg/routes/handler/package.go:21 | fails exactly when the collection is missing; otherwise the records matching the expression, in store order |
| `Store.PublicMatches` | pkg/routes/handler/package.go:21 | the `visibility = 'public'` expression selects exactly the public records |
| `Store.FilterMembers` | pkg/routes/handler/package.go:21 | a record is in the result exactly when it is in the collection and matches |
| `Store.FilterFirst` | pkg/routes/handler/package.go:112-113 | the first result is the earliest matching record of the collection |
| `Store.FilterLast` | pkg/routes/handler/file.go:24-25 | the last result is the latest matching record of the collection |
| `Hex.DecodeEncode` | pkg/routes/handler/package.go:63 | the lower-case hex of a digest decodes back to the digest |
| `Hex.EncodeInjective` | pkg/routes/handler/package.go:63 | different digests give different hex |
| `PackageHandler.IndexNameOf` | pkg/routes/handler/package.go:19-21 | the encoding error is discarded: an invalid name looks up `""`, and a valid one looks up a name that decodes back to it |
| `PackageHandler.Integrity` | pkg/routes/handler/package.go:63 | `MD5_` followed by lower-case hex that decodes back to the blob's MD5 |
| `PackageHandler.PackageIndexSpec` | pkg/routes/handler/package.go:18-105 | the reference definition of the index document that `PackageHandler.PackageIndex` is proved to compute. Its properties are `PackageHandler.PackageIndexReply`, `PackageIndexFailure`, `PackageIndexVersion`, `PackageIndexEnds` and `LicenseOfIndex` |
| `PackageHandler.PackageIndex` | pkg/routes/handler/package.go:18-105 | the handler, with its two loops, answers what `PackageIndexSpec` defines |
| `PackageHandler.VersionsLoop` | pkg/routes/handler/package.go:33-68 | the first loop, with its early return, builds `Versions` of the records |
| `PackageHandler.TimesLoop` | pkg/routes/handler/package.go:70-72 | the second loop builds `VersionTimes` of the records |
| `PackageHandler.VersionsSucceeds` | pkg/routes/handler/package.go:46-49 | the `versions` map is built exactly when every tarball can be reported on |
| `PackageHandler.VersionsKeys` | pkg/routes/handler/package.go:33-51 | a built `versions` map has one key per record version |
| `PackageHandler.VersionTimesKeys` | pkg/routes/handler/package.go:70-72 | `times` has one key per record version |
| `PackageHandler.VersionsLastWins` | pkg/routes/handler/package.go:33-51 | a version's entry is the document of its last record |
| `PackageHandler.VersionTimesLastWins` | pkg/routes/handler/package.go:70-72 | a version's time is its last record's creation time |
| `PackageHandler.VersionsFirstFailure` | pkg/routes/handler/package.go:46-49 | the first tarball that cannot be reported on gives the error |
| `PackageHandler.PackageIndexReply` | pkg/routes/handler/package.go:18-105 | answered exactly when every public tarball can be reported on; then it holds the raw name, the collection id, the latest record's description, raw license and version, the package archive URL, the latest blob's integrity, one version and one time per public version, `created` from the first record and `updated` from the latest |
| `PackageHandler.PackageIndexFailure` | pkg/routes/handler/package.go:46-49 | otherwise a 500 carrying the first tarball error in store order |
| `PackageHandler.PackageIndexVersion` | pkg/routes/handler/package.go:51-72 | a version's entry and time come from its last public record |
| `PackageHandler.PackageIndexEnds` | pkg/routes/handler/package.go:23-24 | `original` and `latest` are the first and the last public record of the collection in store order |
| `PackageHandler.LicenseOfIndex` | pkg/routes/handler/package.go:58 | every version reports a non-empty license, while the top-level license is the latest record's raw value: `""` alongside `none` for the latest version |
| `PackageHandler.VersionTarballInjective` | pkg/routes/handler/package.go:64 | different versions get different archive URLs |
| `PackageHandler.PackageVersion` | pkg/routes/handler/package.go:107-150 | the document of the first record of the version query, or its tarball error; `PackageHandler.PackageVersionFirst` states it |
| `PackageHandler.PackageVersionFirst` | pkg/routes/handler/package.go:107-150 | the answer is built from the first record in store order that is public and of the requested version, or is a 500 with its tarball error; the document is of that version, not private, licensed, and points at `https://r.justjs.dev/<name>/_/<version>/<name>.tgz` |
| `Create.SchemaFields` | pkg/create/create.go:45-147 | a new package collection declares every field the handlers read |
| `Create.SchemaUnique` | pkg/create/create.go:127-135 | `version` is the only unique field |
| `Create.SchemaOptions` | pkg/create/create.go:50-64 | `access` relates to the authentication collection, and visibility is `public` or `private` |
| `Create.CheckAuth` | pkg/create/create.go:157-180 | the decision over the collection lookup, the query of public records and the session; `Create.CheckAuthCases` and `Create.CheckAuthLastPublic` state it |
| `Create.CheckAuthCases` | pkg/create/create.go:157-180 | true for a new package; false on a failed query, even for an admin; true for an admin or when there is no public record; otherwise true exactly when the user is in the last public record's `access` |
| `Create.CheckAuthLastPublic` | pkg/create/create.go:163-179 | that last record is the last public record of the collection in store order |
| `Create.MissingPackageIsAllowed` | pkg/create/create.go:158-161 | publishing to a package that does not exist is allowed |
| `Create.PermissionDenied` | pkg/create/create.go:188-190 | the message starts with the permission text followed by the raw name |
| `Create.PermissionDeniedInjective` | pkg/create/create.go:188-190 | different names give different messages |
| `Create.Registry.constructor` | pkg/create/create.go:20 | a registry over the given collections |
| `Create.Registry.Package` | pkg/create/create.go:20-155 | an invalid name, then a missing authentication collection (even for an existing package), then an existing package, then a failed submission each leave the store unchanged, with the matching error or none for an existing package; otherwise the new collection with the access rules and the package schema is added under the encoded name |
| `Create.Registry.Version` | pkg/create/create.go:182-209 | in this order: an invalid name (whatever the session), a denied permission (naming the raw package), a missing collection, an unreadable upload and a failed submission each leave the store unchanged with that error; otherwise the upload is appended to the collection's records |
| `Create.NewPackageKeepsAuth` | pkg/create/create.go:26-37 | creating a package never replaces the authentication collection |

## Left out

- PocketBase routing and HTTP plumbing (pkg/routes/router.go, its user-agent test included), main.go, registry/main.go, registry.go, the template downloaders and the crates.io client: route registration, process start-up and I/O.
- The real base-62 library: `Base62` is a codec of the model's own, two digits per byte. Only its inversion and its alphanumeric output are relied on.
- NameCodec.EncodeName: the length `2 * |n|` it promises is a property of the model's codec, not of the library's.
- Go's regular-expression engine: the fixed patterns are written as recognisers. `Version.Loose` folds `([0-9]+(\.[0-9]+)+).*[A-Za-z0-9]+` into the language it denotes.
- The version pattern stored in the schema (`Create.VersionPattern`) is kept only as text. Enforcing it happens inside PocketBase's `Submit`, which is an input.
- gzip and tar decoding, and `ReadFromTar` in pkg/helpers/helpers.go: library calls. An archive is the sequence of entries its stream yields and how the stream ends.
- `InspectRuntime`: it reads `os.Args` and the temporary directory, so `TarPath` takes its flag as a parameter.
- `app.NewFilesystem` is taken to succeed. The file paths built from `BaseFilesPath` are not modelled: a record carries the outcome of `fs.Attributes` and of unpacking its tarball.
- `json.Unmarshal` of `dependencies`: the record holds whatever map `json.Unmarshal` leaves. That is empty on a syntax error, possibly partial on a type error, and nil for JSON `null`, which renders as `null`.
- `FindCollectionByNameOrId`'s lookup by id: collections are looked up by name only.
- Letter case in collection lookups: the store compares names exactly, while PocketBase's lookup may ignore case. `NameCodec.EncodeInjective` promises distinct encoded names, not distinct collections: case-insensitively, two such names can coincide (`H` encodes to `1A` and `b` to `1a` in the model's codec).
- The wording of the store's errors: a missing collection reports `Store.NotFound`.
- JSON rendering of error responses: `ErrorResponse` holds an error's message, but `c.JSON` writes a plain `errors.New` value as `{}`, so clients never see that message.
- Create.CheckAuthCases: the failed-query branch is stated for the decision itself. Through the model's store a query fails only on a missing collection, which CheckAuth handles first.
- `form.LoadRequest` and `form.Submit`: their outcomes, the uploaded record, and the new collection's id are parameters.
- `string(bytes)` is modelled for ASCII only, which covers every name the grammars accept. A served file's bytes become characters one by one.
- Integer widths: `int64` sizes and statuses are unbounded integers. Nothing in the core computes with them.
- `tar.TypeRegA`, which Go's reader reports as `TypeReg`: only the flag `'0'` counts as regular.
- Concurrency: the handlers share no in-process state.
