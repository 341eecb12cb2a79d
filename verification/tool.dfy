/** `main`: check the arguments, publish, and map the outcome to an exit status. */
module Tool {
  import opened Results
  import opened Errors
  import opened Api
  import Mime
  import Arguments
  import Workflow
  import ExitCodes
  import PublishProperties

  /** What `main` hands to the publishing workflow. */
  function InvocationOf(settings: Arguments.Settings): Workflow.Invocation
  {
    Workflow.Invocation(settings.tag, settings.assets, settings.dryRun)
  }

  /** Which optional libraries import: `requests`, then `yacl`, in one `try`
      block, so `yacl` is imported only when `requests` is. */
  datatype Libraries = Libraries(requests: bool, yacl: bool)

  /** `setup_stderr_logging` runs without error: the coloured-logging function
      was imported, which needs both imports to have succeeded. */
  predicate LoggingReady(libs: Libraries)
  {
    libs.requests && libs.yacl
  }

  /** The `try` block of `main` and its handler: check the arguments, then print
      the version or publish, and map the outcome to an exit status. */
  function MainBody(cl: Arguments.CommandLine, enteredPassword: string, credentialsFile: Option<Arguments.Credentials>,
                    requestsInstalled: bool, server: Server, fs: Mime.FileSystem): (code: int)
    ensures code == 0 || code == 1 || 3 <= code <= 14
    ensures requestsInstalled ==> code != 3
  {
    match Arguments.ParseArguments(cl, enteredPassword, credentialsFile)
    case Failure(e) => ExitCodes.ExitCode(Failure(e))
    case Success(settings) =>
      if settings.printVersion then 0
      else ExitCodes.ExitCode(Workflow.Publish(requestsInstalled, InvocationOf(settings), server, fs).result)
  }

  /** The exit status of one invocation of the tool. The logging setup runs
      before the `try` block: when the coloured-logging function was not
      imported it raises a NameError that nothing catches, and the interpreter
      exits with 1 before the arguments are looked at. Whenever the arguments
      are looked at, `requests` is installed, so the missing-dependency status 3
      is never reached. */
  function ExitStatus(cl: Arguments.CommandLine, enteredPassword: string, credentialsFile: Option<Arguments.Credentials>,
                      libs: Libraries, server: Server, fs: Mime.FileSystem): (code: int)
    ensures !LoggingReady(libs) ==> code == 1
    ensures code == 0 || code == 1 || 4 <= code <= 14
  {
    if !LoggingReady(libs) then 1
    else MainBody(cl, enteredPassword, credentialsFile, true, server, fs)
  }

  /** `main` as its guards intend: the logging setup cannot fail, so `--version`
      works without the optional libraries and a missing `requests` is reported
      by `publish_release_from_tag`. */
  function ExitStatusCorrected(cl: Arguments.CommandLine, enteredPassword: string,
                               credentialsFile: Option<Arguments.Credentials>, libs: Libraries,
                               server: Server, fs: Mime.FileSystem): (code: int)
    ensures code == 0 || code == 1 || 3 <= code <= 14
    ensures LoggingReady(libs) ==> code == ExitStatus(cl, enteredPassword, credentialsFile, libs, server, fs)
  {
    MainBody(cl, enteredPassword, credentialsFile, libs.requests, server, fs)
  }

  /** `--version` exits 0 whatever else the command line holds, once the
      logging setup has run. */
  lemma VersionExitsZero(cl: Arguments.CommandLine, enteredPassword: string,
                         credentialsFile: Option<Arguments.Credentials>, libs: Libraries,
                         server: Server, fs: Mime.FileSystem)
    requires cl.printVersion && LoggingReady(libs)
    ensures ExitStatus(cl, enteredPassword, credentialsFile, libs, server, fs) == 0
  {
  }

  /** A command line rejected by the checks exits with 11 to 14, before any
      request is made, and the first failing check decides the status. */
  lemma ArgumentErrorStatus(cl: Arguments.CommandLine, enteredPassword: string,
                            credentialsFile: Option<Arguments.Credentials>, libs: Libraries,
                            server: Server, fs: Mime.FileSystem)
    requires Arguments.ParseArguments(cl, enteredPassword, credentialsFile).Failure?
    requires LoggingReady(libs)
    ensures var code := ExitStatus(cl, enteredPassword, credentialsFile, libs, server, fs);
      && 11 <= code <= 14
      && (Arguments.NormaliseServerName(cl.githubServer).Failure? ==> code == 11)
      && (Arguments.NormaliseServerName(cl.githubServer).Success? && cl.project.None? ==> code == 12)
      && (var passesProject := Arguments.NormaliseServerName(cl.githubServer).Success? && cl.project.Some?;
          passesProject && !cl.latestTag && cl.tag.None? ==> code == 13)
  {
    var e := Arguments.ParseArguments(cl, enteredPassword, credentialsFile).error;
    assert ExitStatus(cl, enteredPassword, credentialsFile, libs, server, fs) == ExitCodes.ExitCode(Failure(e));
    ExitCodes.ExitCodeTable(Failure(e));
    ArgumentErrorCodes(e);
  }

  lemma ArgumentErrorCodes(e: ErrorKind)
    requires e in {InvalidServerName, MissingProject, MissingTag, CredentialsRead}
    ensures 11 <= ExitCodes.DocumentedExitCode(Failure(e)) <= 14
    ensures e == InvalidServerName ==> ExitCodes.DocumentedExitCode(Failure(e)) == 11
    ensures e == MissingProject ==> ExitCodes.DocumentedExitCode(Failure(e)) == 12
    ensures e == MissingTag ==> ExitCodes.DocumentedExitCode(Failure(e)) == 13
  {
  }

  /** Without `requests` the tool exits with 1 whatever the command line: with
      `--version`, where 0 is meant, and with accepted arguments, where the
      missing-dependency status 3 is meant. */
  lemma MissingRequestsExitsOne(cl: Arguments.CommandLine, enteredPassword: string,
                                credentialsFile: Option<Arguments.Credentials>, libs: Libraries,
                                server: Server, fs: Mime.FileSystem)
    requires !libs.requests
    ensures ExitStatus(cl, enteredPassword, credentialsFile, libs, server, fs) == 1
    ensures cl.printVersion ==> ExitStatusCorrected(cl, enteredPassword, credentialsFile, libs, server, fs) == 0
    ensures Arguments.ParseArguments(cl, enteredPassword, credentialsFile).Success? && !cl.printVersion ==>
      ExitStatusCorrected(cl, enteredPassword, credentialsFile, libs, server, fs) == 3
  {
    if Arguments.ParseArguments(cl, enteredPassword, credentialsFile).Success? && !cl.printVersion {
      CorrectedMissingLibraryStatus(cl, enteredPassword, credentialsFile, libs, server, fs);
    }
  }

  /** As intended, without the HTTP library accepted arguments exit with 3. */
  lemma CorrectedMissingLibraryStatus(cl: Arguments.CommandLine, enteredPassword: string,
                                      credentialsFile: Option<Arguments.Credentials>, libs: Libraries,
                                      server: Server, fs: Mime.FileSystem)
    requires Arguments.ParseArguments(cl, enteredPassword, credentialsFile).Success? && !cl.printVersion
    requires !libs.requests
    ensures ExitStatusCorrected(cl, enteredPassword, credentialsFile, libs, server, fs) == 3
  {
    MissingDependencyExitsThree();
  }

  lemma MissingDependencyExitsThree()
    ensures ExitCodes.ExitCode(Failure(MissingDependency)) == 3
  {
    var documented := ExitCodes.DocumentedExitCode(Failure(MissingDependency));
    assert documented == 3;
    ExitCodes.ExitCodeTable(Failure(MissingDependency));
  }

  /** As intended, `--version` exits 0 whichever libraries are installed. */
  lemma CorrectedVersionExitsZero(cl: Arguments.CommandLine, enteredPassword: string,
                                  credentialsFile: Option<Arguments.Credentials>, libs: Libraries,
                                  server: Server, fs: Mime.FileSystem)
    requires cl.printVersion
    ensures ExitStatusCorrected(cl, enteredPassword, credentialsFile, libs, server, fs) == 0
  {
  }

  /** The status is 0 exactly when the logging setup runs, the arguments are
      accepted, and either the version is asked for or publishing succeeds. */
  lemma ZeroMeansSuccess(cl: Arguments.CommandLine, enteredPassword: string,
                         credentialsFile: Option<Arguments.Credentials>, libs: Libraries,
                         server: Server, fs: Mime.FileSystem)
    ensures var parsed := Arguments.ParseArguments(cl, enteredPassword, credentialsFile);
      ExitStatus(cl, enteredPassword, credentialsFile, libs, server, fs) == 0 <==>
        && LoggingReady(libs)
        && parsed.Success?
        && (cl.printVersion || Workflow.Publish(true, InvocationOf(parsed.value), server, fs).result.Success?)
  {
  }

  /** A real run for a given tag whose release lookup answers with an HTTP error
      other than 404 exits with 8, after exactly one request. */
  lemma FailedLookupStatus(cl: Arguments.CommandLine, enteredPassword: string,
                           credentialsFile: Option<Arguments.Credentials>, libs: Libraries,
                           server: Server, fs: Mime.FileSystem)
    requires LoggingReady(libs)
    requires Arguments.ParseArguments(cl, enteredPassword, credentialsFile).Success?
    requires !cl.printVersion && !cl.dryRun && !cl.latestTag && cl.tag.Some?
    requires server.release([GetRelease(cl.tag.value)]).HttpError?
    requires server.release([GetRelease(cl.tag.value)]).status != 404
    ensures ExitStatus(cl, enteredPassword, credentialsFile, libs, server, fs) == 8
    ensures var inv := InvocationOf(Arguments.ParseArguments(cl, enteredPassword, credentialsFile).value);
      Workflow.Publish(true, inv, server, fs).trace == [GetRelease(cl.tag.value)]
  {
    var settings := Arguments.ParseArguments(cl, enteredPassword, credentialsFile).value;
    var inv := InvocationOf(settings);
    TaggedSettings(cl, enteredPassword, credentialsFile);
    var run := Workflow.Publish(true, inv, server, fs);
    assert run == Workflow.Run(Failure(Http), [GetRelease(cl.tag.value)], []) by {
      FailedLookupRun(inv, server, fs);
    }
    assert ExitStatus(cl, enteredPassword, credentialsFile, libs, server, fs) == ExitCodes.ExitCode(run.result) by {
      StatusOfAcceptedArguments(cl, enteredPassword, credentialsFile, true, server, fs);
    }
    HttpErrorExitsEight();
  }

  lemma HttpErrorExitsEight()
    ensures ExitCodes.ExitCode(Failure(Http)) == 8
  {
    var documented := ExitCodes.DocumentedExitCode(Failure(Http));
    assert documented == 8;
    ExitCodes.ExitCodeTable(Failure(Http));
  }

  /** Accepted arguments for a given tag and without `--version` keep the tag
      and the dry-run switch. */
  lemma TaggedSettings(cl: Arguments.CommandLine, enteredPassword: string, credentialsFile: Option<Arguments.Credentials>)
    requires Arguments.ParseArguments(cl, enteredPassword, credentialsFile).Success?
    requires !cl.printVersion && !cl.latestTag
    ensures var settings := Arguments.ParseArguments(cl, enteredPassword, credentialsFile).value;
      && !settings.printVersion && settings.dryRun == cl.dryRun && settings.tag == cl.tag
  {
  }

  /** Accepted arguments without `--version`: the status is that of the run. */
  lemma StatusOfAcceptedArguments(cl: Arguments.CommandLine, enteredPassword: string,
                                  credentialsFile: Option<Arguments.Credentials>, requestsInstalled: bool,
                                  server: Server, fs: Mime.FileSystem)
    requires Arguments.ParseArguments(cl, enteredPassword, credentialsFile).Success? && !cl.printVersion
    ensures var inv := InvocationOf(Arguments.ParseArguments(cl, enteredPassword, credentialsFile).value);
      MainBody(cl, enteredPassword, credentialsFile, requestsInstalled, server, fs)
        == ExitCodes.ExitCode(Workflow.Publish(requestsInstalled, inv, server, fs).result)
  {
  }

  /** The run behind `FailedLookupStatus`: one lookup, then an HTTP error. */
  lemma FailedLookupRun(inv: Workflow.Invocation, server: Server, fs: Mime.FileSystem)
    requires !inv.dryRun && inv.tag.Some?
    requires server.release([GetRelease(inv.tag.value)]).HttpError?
    requires server.release([GetRelease(inv.tag.value)]).status != 404
    ensures Workflow.Publish(true, inv, server, fs) == Workflow.Run(Failure(Http), [GetRelease(inv.tag.value)], [])
  {
    var tag := inv.tag.value;
    assert Workflow.ResolveTag(server, inv.tag) == Call(Success(tag), []);
    assert [] + [GetRelease(tag)] == [GetRelease(tag)];
    PublishProperties.ReleaseCreatedOnlyOn404(true, inv, server, fs, tag);
  }
}
