/** The closed error taxonomy of the upload tool. */
module Errors {
  import opened Results

  /** One constructor per exception class the tool raises on purpose, split where
      one Python class covers two situations (FileNotFoundError and PermissionError
      are both OSError), plus `Unclassified` for the exceptions the tool lets escape
      without translating them (a KeyError or a JSON decoding error while reading
      an existing release). */
  datatype ErrorKind =
    | MissingDependency
    | FileNotFound
    | PermissionDenied
    | FileCommandFailed(returnCode: int)
    | InvalidFileCommandOutput
    | NoTagsAvailable
    | Http
    | Json
    | InvalidUploadUrl
    | InvalidServerName
    | MissingProject
    | MissingTag
    | CredentialsRead
    | Unclassified

  /** The result of a step of the tool: a value, or the error it raised. */
  type Outcome<T> = Result<T, ErrorKind>
}
