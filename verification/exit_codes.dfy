/** How `main` turns the exception that ended a run into the process exit status. */
module ExitCodes {
  import opened Results
  import opened Errors

  /** The exception classes `main` expects, as Python classes. */
  datatype ExceptionClass =
    | MissingDependencyError
    | OSError
    | FileCommandError
    | InvalidFileCommandOutputError
    | NoTagsAvailableError
    | HTTPError
    | JSONError
    | InvalidUploadUrlError
    | InvalidServerNameError
    | MissingProjectError
    | MissingTagError
    | CredentialsReadError

  /** The tuple of expected exceptions, in the order `main` declares it. */
  const ExpectedExceptions: seq<ExceptionClass> := [
    MissingDependencyError, OSError, FileCommandError, InvalidFileCommandOutputError,
    NoTagsAvailableError, HTTPError, JSONError, InvalidUploadUrlError,
    InvalidServerNameError, MissingProjectError, MissingTagError, CredentialsReadError
  ]

  /** `isinstance(e, c)`: FileNotFoundError and PermissionError are OSErrors; an
      unclassified exception is an instance of none of the expected classes. */
  predicate IsInstance(e: ErrorKind, c: ExceptionClass)
  {
    match c
    case MissingDependencyError => e == MissingDependency
    case OSError => e == FileNotFound || e == PermissionDenied
    case FileCommandError => e.FileCommandFailed?
    case InvalidFileCommandOutputError => e == InvalidFileCommandOutput
    case NoTagsAvailableError => e == NoTagsAvailable
    case HTTPError => e == Http
    case JSONError => e == Json
    case InvalidUploadUrlError => e == InvalidUploadUrl
    case InvalidServerNameError => e == InvalidServerName
    case MissingProjectError => e == MissingProject
    case MissingTagError => e == MissingTag
    case CredentialsReadError => e == CredentialsRead
  }

  /** Index of the first class of `classes` that `e` is an instance of. */
  function FirstMatchingIndex(e: ErrorKind, classes: seq<ExceptionClass>): (r: Option<nat>)
    ensures r.Some? ==>
      && r.value < |classes|
      && IsInstance(e, classes[r.value])
      && forall j :: 0 <= j < r.value ==> !IsInstance(e, classes[j])
    ensures r.None? ==> forall j :: 0 <= j < |classes| ==> !IsInstance(e, classes[j])
  {
    if classes == [] then None
    else if IsInstance(e, classes[0]) then Some(0)
    else
      match FirstMatchingIndex(e, classes[1..])
      case None => None
      case Some(i) => Some(i + 1)
  }

  /** The exit status of a run that ended with `result`: 0 on success, 3 plus the
      position of the first expected class the error belongs to, and 1 for an
      error of no expected class (the interpreter's status for an uncaught
      exception, which is also what `main` falls back to). */
  function ExitCode(result: Outcome<()>): (code: int)
    ensures code == 0 <==> result.Success?
    ensures code == 1 <==> result == Failure(Unclassified)
    ensures code == 0 || code == 1 || 3 <= code < 3 + |ExpectedExceptions|
    ensures 3 <= code ==> result.Failure? && IsInstance(result.error, ExpectedExceptions[code - 3])
  {
    match result
    case Success(_) => 0
    case Failure(e) =>
      match FirstMatchingIndex(e, ExpectedExceptions)
      case Some(i) => 3 + i
      case None =>
        OnlyUnclassifiedMatchesNothing(e);
        1
  }

  /** Every error the tool raises on purpose belongs to an expected class. */
  lemma OnlyUnclassifiedMatchesNothing(e: ErrorKind)
    requires forall j :: 0 <= j < |ExpectedExceptions| ==> !IsInstance(e, ExpectedExceptions[j])
    ensures e == Unclassified
  {
    if e != Unclassified {
      var i := Position(ClassOf(e));
    }
  }

  /** The one expected class an error of the tool belongs to. */
  function ClassOf(e: ErrorKind): (c: ExceptionClass)
    requires e != Unclassified
    ensures IsInstance(e, c)
  {
    match e
    case MissingDependency => MissingDependencyError
    case FileNotFound => OSError
    case PermissionDenied => OSError
    case FileCommandFailed(_) => FileCommandError
    case InvalidFileCommandOutput => InvalidFileCommandOutputError
    case NoTagsAvailable => NoTagsAvailableError
    case Http => HTTPError
    case Json => JSONError
    case InvalidUploadUrl => InvalidUploadUrlError
    case InvalidServerName => InvalidServerNameError
    case MissingProject => MissingProjectError
    case MissingTag => MissingTagError
    case CredentialsRead => CredentialsReadError
  }

  /** Where a class sits in the tuple of expected exceptions. */
  function Position(c: ExceptionClass): (i: nat)
    ensures i < |ExpectedExceptions| && ExpectedExceptions[i] == c
  {
    match c
    case MissingDependencyError => 0
    case OSError => 1
    case FileCommandError => 2
    case InvalidFileCommandOutputError => 3
    case NoTagsAvailableError => 4
    case HTTPError => 5
    case JSONError => 6
    case InvalidUploadUrlError => 7
    case InvalidServerNameError => 8
    case MissingProjectError => 9
    case MissingTagError => 10
    case CredentialsReadError => 11
  }

  /** The expected classes are pairwise distinct, and no error of the tool belongs
      to two of them, so the first match is the only match. */
  lemma ClassesDisjoint(e: ErrorKind, c: ExceptionClass, d: ExceptionClass)
    requires IsInstance(e, c) && IsInstance(e, d)
    ensures c == d
  {
  }

  /** Every classified error exits with 3 plus the position of its class. */
  lemma ExitCodeOfClass(e: ErrorKind)
    requires e != Unclassified
    ensures ExitCode(Failure(e)) == 3 + Position(ClassOf(e))
  {
    var c := ClassOf(e);
    var i := FirstMatchingIndex(e, ExpectedExceptions);
    assert IsInstance(e, ExpectedExceptions[Position(c)]);
    ClassesDisjoint(e, ExpectedExceptions[i.value], c);
    PositionInverts(i.value);
  }

  /** No class appears twice in the tuple. */
  lemma PositionInverts(i: nat)
    requires i < |ExpectedExceptions|
    ensures Position(ExpectedExceptions[i]) == i
  {
  }

  /** Two errors share an exit status exactly when they belong to the same class. */
  lemma ExitCodesDistinguishClasses(e: ErrorKind, f: ErrorKind)
    requires e != Unclassified && f != Unclassified
    ensures ExitCode(Failure(e)) == ExitCode(Failure(f)) <==> ClassOf(e) == ClassOf(f)
  {
    ExitCodeOfClass(e);
    ExitCodeOfClass(f);
  }

  /** The exit statuses as documented for each outcome. */
  function DocumentedExitCode(result: Outcome<()>): int
  {
    match result
    case Success(_) => 0
    case Failure(MissingDependency) => 3
    case Failure(FileNotFound) => 4
    case Failure(PermissionDenied) => 4
    case Failure(FileCommandFailed(_)) => 5
    case Failure(InvalidFileCommandOutput) => 6
    case Failure(NoTagsAvailable) => 7
    case Failure(Http) => 8
    case Failure(Json) => 9
    case Failure(InvalidUploadUrl) => 10
    case Failure(InvalidServerName) => 11
    case Failure(MissingProject) => 12
    case Failure(MissingTag) => 13
    case Failure(CredentialsRead) => 14
    case Failure(Unclassified) => 1
  }

  lemma DocumentedPositions(e: ErrorKind)
    requires e != Unclassified
    ensures DocumentedExitCode(Failure(e)) == 3 + Position(ClassOf(e))
  {
  }

  /** The first-match mapping yields the documented table. */
  lemma ExitCodeTable(result: Outcome<()>)
    ensures ExitCode(result) == DocumentedExitCode(result)
  {
    if result.Failure? && result.error != Unclassified {
      ExitCodeOfClass(result.error);
      DocumentedPositions(result.error);
    }
  }
}
