/** Values shared by every stage of the snapshot download: bytes, paths and
    the errors an operation can throw. */
module Errors {
  import opened Wrappers

  /** A response body or file content. */
  type Bytes = seq<bv8>

  /** One component of a path. */
  type Name = string

  /** An absolute path, as its sequence of components; `[]` is the root. */
  type Path = seq<Name>

  const EmptyBranchMessage := "default_branch cannot be empty"
  const ExactlyOneMessage := "Expected exactly one directory inside archive"

  /** Everything the download can throw. */
  datatype Error =
      /** An error thrown by the HTTP client, with the status it carries, if any. */
    | RequestFailed(status: Option<int>)
      /** A failed `assert.ok`: such an error carries no HTTP status. */
    | AssertionFailed(message: string)
      /** A plain `Error` raised for an archive response whose status is not 200. */
    | UnexpectedResponse(code: int, data: Bytes)
      /** A file write aimed at a directory. */
    | IsADirectory(path: Path)
      /** A path that does not exist. */
    | NotFound(path: Path)
      /** A directory operation on something that is a file. */
    | NotADirectory(path: Path)

  /** The `status` property of a thrown error, as `err?.status` reads it. */
  function StatusOf(e: Error): (s: Option<int>)
    ensures s.Some? ==> e.RequestFailed?
  {
    if e.RequestFailed? then e.status else None
  }
}
