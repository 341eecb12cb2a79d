/** `get_mimetype` on POSIX systems: the file checks, then the output of
    `file --mime <path>`, which reads like `notes.txt: text/plain; charset=us-ascii`. */
module Mime {
  import opened Results
  import opened Errors
  import Text

  /** What running `file --mime <path>` produced. */
  datatype FileCommand =
    | Printed(output: string)        // exit status 0 and this standard output
    | Exited(returnCode: int)        // a non-zero exit status (CalledProcessError)
    | NotInstalled                   // no `file` program: FileNotFoundError from the process launch

  /** What the operating system answers about a local path. */
  datatype FileProbe = FileProbe(isRegularFile: bool, readable: bool, fileCommand: FileCommand)

  /** The local file system, as seen by the tool: a probe for every path. */
  type FileSystem = string -> FileProbe

  /** `output.split()[1][:-1]`: the second word with its last character (the `;`
      that `file` prints after the type) dropped; an IndexError when there is no
      second word. */
  function ParseFileCommandOutput(output: string): (r: Outcome<string>)
    ensures r.Failure? <==> |Text.Split(output)| < 2
    ensures r.Failure? ==> r.error == InvalidFileCommandOutput
    ensures r.Success? ==> var w := Text.Split(output)[1]; |w| == |r.value| + 1 && r.value == w[..|r.value|]
  {
    var words := Text.Split(output);
    if |words| < 2 then Failure(InvalidFileCommandOutput)
    else
      var w := words[1];
      Success(w[..|w| - 1])
  }

  /** `get_mimetype` reads the second whitespace-separated word of the output.
      When the path itself contains whitespace, that word is a piece of the path:
      for a readable file `my notes.txt` it answers `notes.txt`, not the type,
      while the reading after the echoed `<path>: ` answers the type. */
  lemma WhitespacePathMisparsed(first: string, last: string, mime: string, rest: string)
    requires Text.IsWord(first) && Text.NoSpace(last) && Text.NoSpace(mime)
    ensures var path := first + " " + last;
      var probe := FileProbe(true, true, Printed(path + ": " + mime + "; " + rest));
      && GetMimetype(path, probe) == Success(last)
      && GetMimetypeCorrected(path, probe) == Success(mime)
  {
    var path := first + " " + last;
    var output := path + ": " + mime + "; " + rest;
    var second := last + ":";
    assert output == first + " " + second + " " + (mime + "; " + rest);
    Text.SplitTwoWords(first, second, mime + "; " + rest);
    assert second[..|second| - 1] == last;
    MimeAfterPath(path, mime, rest);
  }

  /** `s` with `prefix` removed from its front, or `None` when `s` does not start
      with `prefix`. */
  function AfterPrefix(s: string, prefix: string): (r: Option<string>)
    ensures r.Some? ==> |r.value| + |prefix| == |s|
    decreases prefix
  {
    if prefix == [] then Some(s)
    else if s == [] || s[0] != prefix[0] then None
    else AfterPrefix(s[1..], prefix[1..])
  }

  lemma {:induction false} AfterPrefixMeansStartsWith(s: string, prefix: string)
    ensures AfterPrefix(s, prefix).Some? <==> |s| >= |prefix| && s[..|prefix|] == prefix
    ensures AfterPrefix(s, prefix).Some? ==> AfterPrefix(s, prefix).value == s[|prefix|..]
    decreases prefix
  {
    if prefix != [] && s != [] {
      AfterPrefixMeansStartsWith(s[1..], prefix[1..]);
      if |s| >= |prefix| {
        assert s[..|prefix|] == [s[0]] + s[1..][..|prefix| - 1];
        assert prefix == [prefix[0]] + prefix[1..];
      }
    }
  }

  lemma AfterPrefixOfJoin(prefix: string, tail: string)
    ensures AfterPrefix(prefix + tail, prefix) == Some(tail)
  {
    AfterPrefixMeansStartsWith(prefix + tail, prefix);
    assert (prefix + tail)[..|prefix|] == prefix;
    assert (prefix + tail)[|prefix|..] == tail;
  }

  /** The type `file --mime <path>` prints, read after the `<path>: ` prefix it
      echoes, so that whitespace in the path does not shift the words: the first
      word of the remainder with its last character dropped. */
  function ParseMimeAfterPath(path: string, output: string): (r: Outcome<string>)
    ensures r.Failure? ==> r.error == InvalidFileCommandOutput
    ensures
      var tail := AfterPrefix(output, path + ": ");
      && (tail.None? ==> r == Failure(InvalidFileCommandOutput))
      && (tail.Some? ==>
            var words := Text.Split(tail.value);
            && (r.Success? <==> |words| >= 1)
            && (r.Failure? ==> r.error == InvalidFileCommandOutput)
            && (r.Success? ==> |words[0]| == |r.value| + 1 && r.value == words[0][..|r.value|]))
  {
    match AfterPrefix(output, path + ": ")
    case None => Failure(InvalidFileCommandOutput)
    case Some(tail) =>
      var words := Text.Split(tail);
      if |words| == 0 then Failure(InvalidFileCommandOutput)
      else
        var w := words[0];
        Success(w[..|w| - 1])
  }

  /** Whatever the path, the type printed after it is what is detected. */
  lemma MimeAfterPath(path: string, mime: string, rest: string)
    requires Text.NoSpace(mime)
    ensures ParseMimeAfterPath(path, path + ": " + mime + "; " + rest) == Success(mime)
  {
    var word := mime + ";";
    var tail := word + (" " + rest);
    assert path + ": " + mime + "; " + rest == (path + ": ") + tail;
    AfterPrefixOfJoin(path + ": ", tail);
    FirstWordOfType(mime, rest);
    assert word[..|word| - 1] == mime;
  }

  lemma FirstWordOfType(mime: string, rest: string)
    requires Text.NoSpace(mime)
    ensures Text.Split(mime + ";" + (" " + rest)) == [mime + ";"] + Text.Split(" " + rest)
  {
    var word := mime + ";";
    assert Text.IsWord(word) by {
      assert forall i :: 0 <= i < |word| ==> word[i] == (if i < |mime| then mime[i] else ';');
    }
    Text.SplitAfterWord(word, " " + rest);
  }

  /** For a path without whitespace the corrected reading agrees with the source
      on every output that starts with the path. */
  lemma MimeAfterPathAgrees(path: string, tail: string)
    requires Text.NoSpace(path)
    ensures ParseMimeAfterPath(path, path + ": " + tail) == ParseFileCommandOutput(path + ": " + tail)
  {
    var output := path + ": " + tail;
    var word := path + ":";
    assert AfterPrefix(output, path + ": ") == Some(tail) by {
      assert output == (path + ": ") + tail;
      AfterPrefixOfJoin(path + ": ", tail);
    }
    assert Text.Split(output) == [word] + Text.Split(tail) by {
      assert output == word + ([' '] + tail);
      assert Text.IsWord(word) by {
        assert forall i :: 0 <= i < |word| ==> word[i] == (if i < |path| then path[i] else ':');
      }
      Text.SplitAfterWord(word, [' '] + tail);
      Text.SplitSkipsSpace(' ', tail);
    }
  }

  /** `get_mimetype` on POSIX: the file checks, then the second
      whitespace-separated word of the `file --mime` output with its last
      character dropped. `probe` is what the system answers about `path`. */
  function GetMimetype(path: string, probe: FileProbe): (r: Outcome<string>)
    ensures !probe.isRegularFile ==> r == Failure(FileNotFound)
    ensures probe.isRegularFile && !probe.readable ==> r == Failure(PermissionDenied)
    ensures probe.isRegularFile && probe.readable ==>
      && (probe.fileCommand.NotInstalled? ==> r == Failure(FileNotFound))
      && (probe.fileCommand.Exited? ==> r == Failure(FileCommandFailed(probe.fileCommand.returnCode)))
      && (probe.fileCommand.Printed? ==>
            var words := Text.Split(probe.fileCommand.output);
            && (r.Success? <==> |words| >= 2)
            && (r.Failure? ==> r.error == InvalidFileCommandOutput)
            && (r.Success? ==> |words[1]| == |r.value| + 1 && r.value == words[1][..|r.value|]))
    ensures r.Success? ==> probe.isRegularFile && probe.readable && probe.fileCommand.Printed?
    ensures r.Failure? ==> IsMimeError(r.error)
  {
    if !probe.isRegularFile then Failure(FileNotFound)
    else if !probe.readable then Failure(PermissionDenied)
    else
      match probe.fileCommand
      case NotInstalled => Failure(FileNotFound)
      case Exited(code) => Failure(FileCommandFailed(code))
      case Printed(output) => ParseFileCommandOutput(output)
  }

  /** `get_mimetype` with the type read after the `<path>: ` prefix that `file`
      echoes, so that whitespace in the path does not shift the words. */
  function GetMimetypeCorrected(path: string, probe: FileProbe): (r: Outcome<string>)
    ensures !probe.isRegularFile ==> r == Failure(FileNotFound)
    ensures probe.isRegularFile && !probe.readable ==> r == Failure(PermissionDenied)
    ensures probe.isRegularFile && probe.readable ==>
      && (probe.fileCommand.NotInstalled? ==> r == Failure(FileNotFound))
      && (probe.fileCommand.Exited? ==> r == Failure(FileCommandFailed(probe.fileCommand.returnCode)))
      && (probe.fileCommand.Printed? ==>
            var output := probe.fileCommand.output;
            var tail := AfterPrefix(output, path + ": ");
            && (tail.None? ==> r == Failure(InvalidFileCommandOutput))
            && (tail.Some? ==>
                  var words := Text.Split(tail.value);
                  && (r.Success? <==> |words| >= 1)
                  && (r.Failure? ==> r.error == InvalidFileCommandOutput)
                  && (r.Success? ==> |words[0]| == |r.value| + 1 && r.value == words[0][..|r.value|])))
    ensures r.Success? ==> probe.isRegularFile && probe.readable && probe.fileCommand.Printed?
    ensures r.Failure? ==> IsMimeError(r.error)
  {
    if !probe.isRegularFile then Failure(FileNotFound)
    else if !probe.readable then Failure(PermissionDenied)
    else
      match probe.fileCommand
      case NotInstalled => Failure(FileNotFound)
      case Exited(code) => Failure(FileCommandFailed(code))
      case Printed(output) => ParseMimeAfterPath(path, output)
  }

  /** The errors `get_mimetype` can raise. */
  predicate IsMimeError(e: ErrorKind)
  {
    e in {FileNotFound, PermissionDenied, InvalidFileCommandOutput} || e.FileCommandFailed?
  }

  /** For a path without whitespace, the type `file --mime` prints after the path
      is what the source's reading detects, whatever follows the `;`. */
  lemma MimeOfFileOutput(path: string, mime: string, rest: string)
    requires Text.NoSpace(path) && Text.NoSpace(mime)
    ensures ParseFileCommandOutput(path + ": " + mime + "; " + rest) == Success(mime)
  {
    var second := mime + ";";
    assert path + ": " + mime + "; " + rest == (path + ":") + " " + second + " " + rest;
    Text.SplitTwoWords(path + ":", second, rest);
    assert second[..|second| - 1] == mime;
  }

  /** A readable regular file whose path has no whitespace and whose
      `file --mime` line names a type yields that type. */
  lemma MimeOfReadableFile(probe: FileProbe, path: string, mime: string, rest: string)
    requires probe.isRegularFile && probe.readable
    requires probe.fileCommand == Printed(path + ": " + mime + "; " + rest)
    requires Text.NoSpace(path) && Text.NoSpace(mime)
    ensures GetMimetype(path, probe) == Success(mime)
  {
    MimeOfFileOutput(path, mime, rest);
  }

  /** With the corrected reading, the named type is detected whatever the path. */
  lemma CorrectedMimeOfReadableFile(probe: FileProbe, path: string, mime: string, rest: string)
    requires probe.isRegularFile && probe.readable
    requires probe.fileCommand == Printed(path + ": " + mime + "; " + rest)
    requires Text.NoSpace(mime)
    ensures GetMimetypeCorrected(path, probe) == Success(mime)
  {
    MimeAfterPath(path, mime, rest);
  }

  /** For a path without whitespace whose `file` output echoes the path, the
      corrected detection and the source's agree. */
  lemma CorrectedMimetypeAgrees(path: string, probe: FileProbe)
    requires Text.NoSpace(path)
    requires probe.fileCommand.Printed? ==> AfterPrefix(probe.fileCommand.output, path + ": ").Some?
    ensures GetMimetypeCorrected(path, probe) == GetMimetype(path, probe)
  {
    if probe.isRegularFile && probe.readable && probe.fileCommand.Printed? {
      var output := probe.fileCommand.output;
      AfterPrefixMeansStartsWith(output, path + ": ");
      var tail := AfterPrefix(output, path + ": ").value;
      assert output == path + ": " + tail by {
        assert output == output[..|path + ": "|] + output[|path + ": "|..];
      }
      MimeAfterPathAgrees(path, tail);
    }
  }
}
