/** The checks `parse_arguments` makes once the command line is parsed: server
    name normalisation, the required project and tag, the credentials source, and
    the `--latest` fix-up. */
module Arguments {
  import opened Results
  import opened Errors
  import Text

  predicate IsAsciiLetter(c: char)
  {
    'a' <= c <= 'z' || 'A' <= c <= 'Z'
  }

  /** Length of the leading run of ASCII letters of `s`. */
  function LeadingLetters(s: string): (k: nat)
    ensures k <= |s|
    ensures forall i :: 0 <= i < k ==> IsAsciiLetter(s[i])
    ensures k == |s| || !IsAsciiLetter(s[k])
  {
    if s == [] || !IsAsciiLetter(s[0]) then 0 else 1 + LeadingLetters(s[1..])
  }

  /** Length of the `letters://` prefix of `s`, or 0 when there is none. */
  function SchemeLength(s: string): nat
  {
    var k := LeadingLetters(s);
    if 0 < k && k + 3 <= |s| && s[k..k + 3] == "://" then k + 3 else 0
  }

  /** `s` up to its first newline. */
  function FirstLine(s: string): (line: string)
    ensures '\n' !in line
  {
    s[..Text.PrefixLengthWithout(s, '\n')]
  }

  /** `s` starts with one or more ASCII letters followed by `://`, as
      `(?:[a-zA-Z]+://)` requires. */
  ghost predicate HasScheme(s: string)
  {
    exists k :: SchemeEndsAt(s, k)
  }

  /** `s[..k]` is a non-empty run of ASCII letters and `://` follows it. */
  ghost predicate SchemeEndsAt(s: string, k: int)
  {
    0 < k && k + 3 <= |s| && (forall i :: 0 <= i < k ==> IsAsciiLetter(s[i])) && s[k..k + 3] == "://"
  }

  /** `re.match(r"(?:[a-zA-Z]+://)?(.+)/?", server).group(1)`. The scheme is
      skipped only when at least one character other than a newline follows it
      (otherwise the regular expression backtracks and matches without it);
      `.+` then takes the rest of the line, so a trailing `/` stays. */
  function NormaliseServerName(server: string): (r: Outcome<string>)
    ensures r.Failure? <==> server == [] || server[0] == '\n'
    ensures r.Failure? ==> r.error == InvalidServerName
    ensures r.Success? ==> r.value != [] && '\n' !in r.value
  {
    var n := SchemeLength(server);
    if 0 < n < |server| && server[n] != '\n' then Success(FirstLine(server[n..]))
    else if server != [] && server[0] != '\n' then Success(FirstLine(server))
    else Failure(InvalidServerName)
  }

  lemma FirstLineOfLine(s: string)
    requires '\n' !in s
    ensures FirstLine(s) == s
  {
    assert s[..|s|] == s;
  }

  /** A one-line name without a scheme is kept as it is, trailing `/` included. */
  lemma ServerNameWithoutScheme(server: string)
    requires server != [] && '\n' !in server && !HasScheme(server)
    ensures NormaliseServerName(server) == Success(server)
  {
    assert !SchemeEndsAt(server, LeadingLetters(server));
    FirstLineOfLine(server);
  }

  /** A scheme followed by a one-line host is dropped. */
  lemma ServerNameDropsScheme(scheme: string, host: string)
    requires scheme != [] && forall i :: 0 <= i < |scheme| ==> IsAsciiLetter(scheme[i])
    requires host != [] && '\n' !in host
    ensures NormaliseServerName(scheme + "://" + host) == Success(host)
  {
    var s := scheme + "://" + host;
    LeadingLettersOfPrefix(scheme, "://" + host);
    assert s == scheme + ("://" + host);
    assert s[|scheme|..|scheme| + 3] == "://";
    assert s[|scheme| + 3..] == host;
    assert s[|scheme| + 3] == host[0];
    assert host[0] in host;
    FirstLineOfLine(host);
  }

  /** A scheme with nothing after it is not a scheme: the name is kept. */
  lemma ServerNameKeepsBareScheme(scheme: string)
    requires scheme != [] && forall i :: 0 <= i < |scheme| ==> IsAsciiLetter(scheme[i])
    ensures NormaliseServerName(scheme + "://") == Success(scheme + "://")
  {
    var s := scheme + "://";
    assert '\n' !in s by {
      assert forall i :: 0 <= i < |scheme| ==> s[i] == scheme[i];
      assert s[|scheme|..] == "://";
    }
    FirstLineOfLine(s);
  }

  /** Only the first line of the argument counts: whatever follows a newline is
      ignored, as `re.match` without `re.MULTILINE` stops `.+` at the newline. */
  lemma FirstLineKept(s: string, t: string)
    requires s != [] && '\n' !in s
    ensures NormaliseServerName(s + "\n" + t) == NormaliseServerName(s)
  {
    var u := s + "\n" + t;
    var n := SchemeLength(s);
    SchemeLengthKept(s, t);
    assert u[|s|] == '\n';
    FirstLineOfLine(s);
    FirstLineBeforeNewline(s, t);
    if 0 < n < |s| {
      assert u[n] == s[n];
      assert u[n..] == s[n..] + "\n" + t;
      assert '\n' !in s[n..];
      FirstLineOfLine(s[n..]);
      FirstLineBeforeNewline(s[n..], t);
    }
  }

  /** The scheme of `s` does not change when a newline and more text follow. */
  lemma SchemeLengthKept(s: string, t: string)
    requires '\n' !in s
    ensures SchemeLength(s + "\n" + t) == SchemeLength(s) <= |s|
  {
    var u := s + "\n" + t;
    var k := LeadingLetters(s);
    LeadingLettersKept(s, t);
    if 0 < k && k + 3 <= |s| {
      assert u[k..k + 3] == s[k..k + 3];
    } else if 0 < k && k + 3 <= |u| {
      assert u[k..k + 3][|s| - k] == u[|s|] == '\n';
    }
  }

  /** The run of letters at the start of `s` ends at the newline at the latest. */
  lemma LeadingLettersKept(s: string, t: string)
    requires '\n' !in s
    ensures LeadingLetters(s + "\n" + t) == LeadingLetters(s)
  {
    var k := LeadingLetters(s);
    if k < |s| {
      var rest := s[k..] + "\n" + t;
      assert s[..k] + rest == s + "\n" + t by {
        assert s[..k] + s[k..] == s;
      }
      assert rest[0] == s[k];
      LeadingLettersOfPrefix(s[..k], rest);
    } else {
      assert s + "\n" + t == s + ("\n" + t);
      LeadingLettersOfPrefix(s, "\n" + t);
    }
  }

  lemma FirstLineBeforeNewline(x: string, t: string)
    requires '\n' !in x
    ensures FirstLine(x + "\n" + t) == x
  {
    var u := x + "\n" + t;
    assert u[|x|] == '\n';
    assert u[..|x|] == x;
  }

  lemma {:induction false} LeadingLettersOfPrefix(letters: string, rest: string)
    requires forall i :: 0 <= i < |letters| ==> IsAsciiLetter(letters[i])
    requires rest != [] && !IsAsciiLetter(rest[0])
    ensures LeadingLetters(letters + rest) == |letters|
    decreases |letters|
  {
    if letters == [] {
      assert letters + rest == rest;
    } else {
      assert (letters + rest)[1..] == letters[1..] + rest;
      LeadingLettersOfPrefix(letters[1..], rest);
    }
  }

  /** The parsed command line, before the checks. */
  datatype CommandLine = CommandLine(
    githubServer: string,
    latestTag: bool,
    dryRun: bool,
    username: Option<string>,
    printVersion: bool,
    project: Option<string>,
    tag: Option<string>,
    assets: seq<string>
  )

  datatype Credentials = Credentials(username: string, password: string)

  /** The checked arguments. */
  datatype Settings = Settings(
    githubServer: string,
    project: Option<string>,
    tag: Option<string>,
    assets: seq<string>,
    dryRun: bool,
    printVersion: bool,
    credentials: Option<Credentials>
  )

  /** `parse_arguments` after argparse. `enteredPassword` is the password typed at
      the prompt or read from standard input; `credentialsFile` holds the two
      stripped lines of the credentials file, or `None` when it cannot be read.
      With `--version` nothing is checked. */
  function ParseArguments(cl: CommandLine, enteredPassword: string, credentialsFile: Option<Credentials>): (r: Outcome<Settings>)
    ensures cl.printVersion ==> r.Success?
    ensures r.Success? ==> r.value.printVersion == cl.printVersion && r.value.dryRun == cl.dryRun
    ensures !cl.printVersion ==>
      && (NormaliseServerName(cl.githubServer).Failure? ==> r == Failure(InvalidServerName))
      && (NormaliseServerName(cl.githubServer).Success? && cl.project.None? ==> r == Failure(MissingProject))
      && (NormaliseServerName(cl.githubServer).Success? && cl.project.Some? && !cl.latestTag && cl.tag.None? ==>
            r == Failure(MissingTag))
      && (r.Failure? ==> r.error in {InvalidServerName, MissingProject, MissingTag, CredentialsRead})
      && (r.Failure? && r.error == CredentialsRead ==> cl.username.None? && credentialsFile.None?)
      && (r.Success? ==>
            && Success(r.value.githubServer) == NormaliseServerName(cl.githubServer)
            && r.value.project == cl.project && cl.project.Some?
            && (r.value.tag.Some? <==> !cl.latestTag)
            && (!cl.latestTag ==> r.value.tag == cl.tag && r.value.assets == cl.assets)
            && (cl.latestTag ==> r.value.assets == (if cl.tag.Some? then [cl.tag.value] else []) + cl.assets)
            && r.value.credentials.Some?
            && (cl.username.Some? ==> r.value.credentials == Some(Credentials(cl.username.value, enteredPassword))))
  {
    if cl.printVersion then
      Success(Settings(cl.githubServer, cl.project, cl.tag, cl.assets, cl.dryRun, true, None))
    else
      match NormaliseServerName(cl.githubServer)
      case Failure(e) => Failure(e)
      case Success(server) =>
        if cl.project.None? then Failure(MissingProject)
        else if !cl.latestTag && cl.tag.None? then Failure(MissingTag)
        else
          var credentials :=
            if cl.username.Some? then Success(Credentials(cl.username.value, enteredPassword))
            else if credentialsFile.None? then Failure(CredentialsRead)
            else Success(credentialsFile.value);
          match credentials
          case Failure(e) => Failure(e)
          case Success(c) =>
            var (tag, assets) :=
              if cl.latestTag && cl.tag.Some? then (None, [cl.tag.value] + cl.assets) else (cl.tag, cl.assets);
            Success(Settings(server, cl.project, tag, assets, cl.dryRun, false, Some(c)))
  }
}
