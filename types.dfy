/** The response payloads sent as JSON (types.go). */
module Types {
  import Store

  /** `Response`: a status and a message object. Every value the handlers put
      in a message is a string. */
  datatype Response = Response(status: int, message: map<string, string>)

  /** `ErrorResponse`; an `error` is represented by its message. */
  datatype ErrorResponse = ErrorResponse(status: int, error: string)

  datatype DistInfo = DistInfo(version: string, integrity: string, tarball: string, size: int)

  datatype VersionInfo = VersionInfo(
    id: string,
    access: seq<string>,
    version: string,
    published: Store.DateTime,
    description: string,
    author: string,
    license: string,
    isPrivate: bool,
    dependencies: map<string, string>,
    dist: DistInfo)

  datatype PackageInfo = PackageInfo(
    id: string,
    name: string,
    license: string,
    description: string,
    versions: map<string, VersionInfo>,
    times: map<string, Store.DateTime>,
    dist: DistInfo)

  /** What a JSON handler answers: a body with its status, or an error
      response. */
  datatype Reply<T> = Reply(status: int, body: T) | Failed(failure: ErrorResponse)

  const StatusOK: int := 200
  const StatusTemporaryRedirect: int := 307
  const StatusInternalServerError: int := 500
}
