# github-binary-upload: release and asset reconciliation

A Dafny model of the core of `github_binary_upload.py`. Given a project and a
tag, the tool makes sure a GitHub release exists for the tag. It then replaces
the release's assets with local files of the same basename and exits with a
status that names the kind of error that stopped it.

The model has these parts:

- **Server oracle** (`Api`). The remote API is a `Server` value of four
  functions: tags, release, asset list, and acknowledgement of a mutation.
  Each function receives the whole history of requests, ending with the one
  being answered. Replies are already decoded:
  - an `Ok` body whose records have `Option` fields, where `None` is a missing
    JSON key;
  - an `HttpError(status)`;
  - a body that is not JSON at all.

  Every step returns a `Call`: its outcome plus the requests it issued.
- **Errors** (`Errors`, `Results`). The closed error taxonomy is one
  constructor per exception class the tool raises, plus `Unclassified` for the
  exceptions it lets escape untranslated.
- **Text helpers**:
  - `Text`: Python's `str.split()` over the `str.isspace` code points;
  - `PosixPath`: `os.path.basename`;
  - `UploadUrl`: the upload-URL regular expression;
  - `Mime`: `get_mimetype` and the parsing of `file --mime` output.
- **Request functions** (`Client`). The nested functions of
  `publish_release_from_tag` that each issue one request: fetch the latest tag,
  fetch or create the release, list, delete and upload assets.
- **Workflow** (`Workflow`). `publish_release_from_tag` as a pure function
  `Publish` to a `Run`: the outcome, the trace of requests, and the notices of
  a dry run. `Planned` is a reference trace for the path loop: the requests it
  would issue if the server accepted every one.
- **Properties**:
  - `LoopProperties`, `PlanProperties`: the trace of the path loop against the
    plan, and the plan itself (replace by name, order, unrelated assets never
    touched);
  - `PublishProperties`: a whole run (dry runs never mutate; a release is
    created only on a 404; the latest-tag lookup).
- **Entry point**:
  - `Arguments`: the checks of `parse_arguments` after argparse;
  - `ExitCodes`: the exit status mapping of `main`;
  - `Tool`: `main` end to end.

The model follows the code where the code and its documented intent part ways:

- `fetch_existing_release` translates only HTTP errors. A release object
  without `upload_url` or `id` raises a `KeyError` that `main` does not catch.
  This is modelled as `Unclassified`, exit status 1, and not as an upload-URL
  error. A body that is not JSON is treated the same way. That is what the
  HTTP library of the code's time (`requests` before 2.27, without
  `simplejson` installed) does: its `json()` raises the standard library's
  `JSONDecodeError`, a `ValueError`.
- An `upload_url` that is present but empty, or that starts with `{`, is an
  upload-URL error (exit 10).
- The content type is detected before the file is opened. A failed detection
  ends the run before the upload request.
- `FileNotFoundError` and `PermissionError` are both `OSError`, so they share
  exit status 4. A missing `file` program also raises `FileNotFoundError`, so
  it exits with 4 as well.
- The content type is the second whitespace-separated word of the
  `file --mime` line, less its last character, as the code reads it
  (`Mime.GetMimetype`). For a path containing whitespace this is not the type
  (see "Findings"). The intended reading, after the `<path>: ` prefix that
  `file` echoes, is `Mime.GetMimetypeCorrected`. It agrees with the code's
  reading for every path without whitespace (`Mime.CorrectedMimetypeAgrees`).
- `main` sets up logging before its `try` block. The setup calls a function of
  the optional `yacl` library, so without `requests` or `yacl` every invocation
  ends with an uncaught `NameError`, exit status 1, `--version` included (see
  "Findings"). `Tool.ExitStatus` follows the code; `Tool.ExitStatusCorrected`
  sets up logging without failing, so that a missing `requests` reaches the
  missing-dependency check and `--version` exits 0.

## Model

| member | source | states |
|---|---|---|
| Text.Split | github_binary_upload.py:115 | every word of `str.split()` is non-empty and free of whitespace |
| Text.SplitSkipsSpace | github_binary_upload.py:115 | leading whitespace does not change the words |
| Text.SplitAfterWord | github_binary_upload.py:115 | a word followed by whitespace or the end of the text is the first word, and the rest is split on its own |
| Text.SplitJoin | github_binary_upload.py:115 | splitting words joined by single spaces gives the words back, so the `str.split()` model is a left inverse of joining |
| PosixPath.Basename | github_binary_upload.py:247 | the basename contains no `/` |
| PosixPath.BasenameIsLastComponent | github_binary_upload.py:247 | the basename is the `/`-free tail of the path that is all of it or follows a `/`, and no other string is |
| PosixPath.BasenameOfJoin | github_binary_upload.py:277 | a name appended to any directory with `/` is the basename of the result |
| PosixPath.BasenameIdempotent | github_binary_upload.py:247 | taking the basename of a basename changes nothing |
| UploadUrl.StripAssetUploadUrl | github_binary_upload.py:160-167 | fails with the upload-URL error exactly when the URL is empty or starts with `{`; otherwise the result is the longest `{`-free prefix of the URL |
| UploadUrl.StripKeepsPlainUrl | github_binary_upload.py:160-167 | a non-empty URL without `{` comes back unchanged |
| UploadUrl.StripIdempotent | github_binary_upload.py:160-167 | stripping a stripped URL gives the same result |
| UploadUrl.StripCutsTemplate | github_binary_upload.py:160-167 | the endpoint before the first `{` is kept, whatever the template after it |
| UploadUrl.StripExample | github_binary_upload.py:160-167 | a GitHub-style template `https://host/path{?name,label}` strips to `https://host/path` |
| Mime.ParseFileCommandOutput | github_binary_upload.py:115-121 | as written: fails with the invalid-output error exactly when the output has fewer than two words, otherwise returns the second word less its last character |
| Mime.WhitespacePathMisparsed | github_binary_upload.py:115 | for the path `first last`, the code's reading returns `last` instead of the type, while the corrected reading returns the type |
| Mime.MimeOfFileOutput | github_binary_upload.py:115 | for a path without whitespace, the code's reading yields the type printed after `<path>: ` |
| Mime.MimeAfterPath | github_binary_upload.py:115 | the corrected reading yields the type printed after `<path>: `, whatever the path |
| Mime.MimeAfterPathAgrees | github_binary_upload.py:115 | for a path without whitespace, the corrected reading and the code's reading agree on every output that starts with `<path>: ` |
| Mime.GetMimetype | github_binary_upload.py:97-122 | as written: a path that is not a regular file fails with FileNotFound and an unreadable one with PermissionDenied, both before `file` runs; a missing `file` program is FileNotFound and a non-zero exit the file-command error with its code; a printed line succeeds exactly when it has two words, and the type is the second word less its last character; every failure is one of the detector's errors |
| Mime.MimeOfReadableFile | github_binary_upload.py:97-122 | as written: a readable regular file whose path and type contain no whitespace, and whose `file --mime` line is `<path>: <type>; ...`, yields that type |
| Mime.GetMimetypeCorrected | github_binary_upload.py:97-122 | corrected: the same checks and errors before and around `file`; a printed line without the `<path>: ` prefix is the invalid-output error; after the prefix, success exactly when a word follows, and the type is that word less its last character |
| Mime.CorrectedMimeOfReadableFile | github_binary_upload.py:97-122 | corrected: a readable regular file yields the type named in its `file --mime` line, whatever characters the path holds |
| Mime.CorrectedMimetypeAgrees | github_binary_upload.py:97-122 | for a path without whitespace whose `file` line starts with `<path>: `, the corrected and the as-written detection give the same result |
| Client.FetchLatestTag | github_binary_upload.py:139-157 | one GET of the tag list; success exactly when the list is non-empty and its first entry has a name, which is the result; an empty list, a missing name, invalid JSON and an HTTP error each map to their error |
| Client.DecodeRelease | github_binary_upload.py:177-180 | a release object decodes exactly when it has both keys and a strippable `upload_url`, into the id and the stripped endpoint; a missing `upload_url` fails with the caller's missing-key error; a present `upload_url` that cannot be stripped fails with the upload-URL error; a strippable one without `id` fails with the caller's missing-key error |
| Client.FetchExistingRelease | github_binary_upload.py:169-185 | one GET of the release by tag; the result is "no release" exactly on a 404; another status is the HTTP error; a non-JSON body escapes unclassified; a JSON body succeeds exactly when it decodes, with the decoded release, and otherwise fails as the decoder does with missing keys unclassified |
| Client.CreateRelease | github_binary_upload.py:187-207 | one POST with the fixed metadata; an HTTP error maps to the HTTP error and a non-JSON body to the JSON error; a JSON body is decoded with missing keys as JSON errors; every failure is an HTTP, JSON or upload-URL error |
| Client.PublishRelease | github_binary_upload.py:209-212 | the lookup is the first request; a second one is issued exactly when the lookup answers 404 |
| Client.ReleaseResolution | github_binary_upload.py:169-212 | a found release is used as is after one GET; on lookup, a missing key or invalid JSON escapes unclassified and an unstrippable `upload_url` is the upload-URL error; a 404 leads to exactly one POST with tag_name = name = tag, empty body, not draft, not prerelease, whose reply maps an HTTP error to the HTTP error, invalid JSON or a missing key to the JSON error, an unstrippable `upload_url` to the upload-URL error, and otherwise gives the created release; any other status is an HTTP error after the lookup alone |
| Client.DecodeAssets | github_binary_upload.py:219 | the asset list decodes exactly when every entry has `id` and `name`, keeping length, order and fields |
| Client.ListAssets | github_binary_upload.py:214-226 | one GET of the release's assets; success exactly when the reply decodes; an HTTP error maps to the HTTP error and a bad body to the JSON error |
| Client.DeleteAsset | github_binary_upload.py:228-244 | one DELETE by asset id; success exactly when the server accepts it, otherwise an HTTP error |
| Client.UploadAsset | github_binary_upload.py:246-265 | a failed content-type detection is raised with no request; otherwise one POST to the release endpoint named by the path's basename and typed by the detected type, succeeding exactly when accepted |
| Workflow.Matching | github_binary_upload.py:277 | an asset is among the matches exactly when it is listed and carries the name |
| PlanProperties.MatchingAppend | github_binary_upload.py:277 | the matches keep the order of the listing: matching a listing in two parts matches each part in turn |
| Workflow.ResolveTag | github_binary_upload.py:267-269 | a given tag is used with no request; without one, exactly the tag-list GET is issued, and a tag is found exactly when the server's list is non-empty and its first entry has a name, which is the tag; an HTTP error, an empty list and any other failure are the HTTP, no-tags and JSON errors |
| Workflow.Prepare | github_binary_upload.py:273-275 | release resolution and listing never delete or upload, and on success end with the listing of the resolved release |
| Workflow.DeleteEach | github_binary_upload.py:292-294 | the deletions of one path issue only DELETEs, at most one per match and all of them on success, and fail only with the HTTP error |
| Workflow.HandlePath | github_binary_upload.py:276-295 | one path issues only deletions and uploads; it fails only with the HTTP error or a detector error; on success the type was detected and the last request is the upload of the path's basename with that type |
| Workflow.UploadAll | github_binary_upload.py:276-295 | the loop issues only deletions and uploads and fails only with the HTTP error or a detector error |
| Workflow.Publish | github_binary_upload.py:125-295 | without `requests` the run fails with the missing-dependency error before any request, and only then; only a successful dry run announces anything; a dry run issues at most one request; a real run for a given tag starts with the release lookup |
| Workflow.RealRun | github_binary_upload.py:272-295 | a real run once the tag is known announces nothing, keeps the tag requests as the start of its trace, issues the release lookup next, and never fails with the missing-dependency error |
| PublishProperties.RealRunShape | github_binary_upload.py:272-295 | a real run issues the tag requests, then those of release resolution and listing, then only deletions and uploads; a failed preparation ends it with that error |
| PublishProperties.RealRunCreatesOnlyOn404 | github_binary_upload.py:209-212 | after a creation-free prefix, a real run creates exactly one release, with the fixed metadata and right after the lookup, when the lookup answers 404, and none otherwise |
| Workflow.DryRunNotices | github_binary_upload.py:276-291 | a dry run announces at least one notice per path, only would-delete and would-upload notices, and for the first path one would-delete per matching asset followed by the would-upload of its basename |
| Workflow.DeleteRequests | github_binary_upload.py:293-294 | one DELETE per matching asset, by id, in listing order |
| LoopProperties.DeleteEachFollowsPlan | github_binary_upload.py:293-294 | the deletions of one path are a prefix of the planned ones, and all of them on success |
| LoopProperties.DeleteEachStopsAtRefusal | github_binary_upload.py:228-244 | a failed deletion series ends with an HTTP error on a DELETE the server refused |
| LoopProperties.HandlePathFollowsPlan | github_binary_upload.py:276-295 | one path issues a prefix of its plan; on success all of it; a non-HTTP error is the detector's error after all planned deletions |
| LoopProperties.HandlePathStopsAtRefusal | github_binary_upload.py:276-295 | an HTTP error on one path comes from its last request, a mutation the server refused |
| LoopProperties.LoopFollowsPlan | github_binary_upload.py:276-295 | the loop issues a prefix of the plan; success means all of it and every type detected; a non-HTTP failure means all of it and an undetectable type |
| LoopProperties.LoopStopsAtRefusal | github_binary_upload.py:276-295 | an HTTP error ends the loop right after the refused mutation: no partial continuation |
| LoopProperties.LoopSucceedsWhenAccepted | github_binary_upload.py:276-295 | when the server accepts every mutation and every type is detected, the loop succeeds |
| PlanProperties.PlannedTouchesOnlyMatching | github_binary_upload.py:276-295 | the plan only deletes and uploads, and deletes only listed assets whose name is the basename of some path |
| PlanProperties.PathPlanDeletesFirst | github_binary_upload.py:292-295 | within one path, the upload is the last request, carries the basename, and follows the deletion of every listed asset of that name |
| PlanProperties.StaleListDeletesAgain | github_binary_upload.py:275-277 | with two paths of the same basename, a listed asset of that name is deleted for the first path and again for the second, since the list is not refreshed |
| PlanProperties.PlannedDeletesBeforeUpload | github_binary_upload.py:292-295 | in the whole plan, every upload follows the deletion of every listed asset carrying its name |
| PlanProperties.PlannedUploadsFollowPaths | github_binary_upload.py:246-255 | when every type is detected, the plan uploads each path once, in input order, under its basename, with its detected type |
| PublishProperties.DryRunNeverMutates | github_binary_upload.py:267-291 | a dry run issues at most the tag-list GET, never a mutation or lookup, never announces a deletion, and on success announces the release then one upload per path in order |
| PublishProperties.LatestTagResolution | github_binary_upload.py:267-269 | without a tag, the first request is the tag list; an empty list, a nameless first entry and an HTTP error end the run there; otherwise the first name is the tag used next |
| PublishProperties.PrepareCreatesOnlyOn404 | github_binary_upload.py:273-275 | release resolution and listing issue one creation exactly when the lookup answers 404, right after the lookup |
| PublishProperties.RealRunAfterTag | github_binary_upload.py:267-295 | after the tag, a real run issues resolution and listing, then only deletions and uploads; a failed resolution or listing ends the run |
| PublishProperties.ReleaseCreatedOnlyOn404 | github_binary_upload.py:209-212 | in a whole real run the release lookup follows the tag; exactly one creation with the fixed metadata happens on 404 and none otherwise; another HTTP status ends the run after the lookup |
| PublishProperties.RealRunReplacesByName | github_binary_upload.py:270-295 | a real run deletes only listed assets named after some path, deletes them before the upload of that name, follows the plan, and on success uploads every path once in order under its basename with its type |
| Arguments.NormaliseServerName | github_binary_upload.py:353-357 | fails exactly on an empty name or one starting with a newline; otherwise the result is a non-empty single line |
| Arguments.FirstLineKept | github_binary_upload.py:353-357 | whatever follows the first newline of the argument is ignored |
| Arguments.ServerNameWithoutScheme | github_binary_upload.py:353-357 | a one-line name without a scheme is kept, trailing `/` included |
| Arguments.ServerNameDropsScheme | github_binary_upload.py:353-357 | a `letters://` scheme followed by a one-line host is dropped |
| Arguments.ServerNameKeepsBareScheme | github_binary_upload.py:353-357 | a scheme with nothing after it is kept as part of the name |
| Arguments.ParseArguments | github_binary_upload.py:349-383 | `--version` skips every check; otherwise failures come in order (server name, project, tag) and only as argument errors; a credentials failure needs no user and an unreadable file; on success the server is normalised, the project given, the tag present exactly without `--latest`, a tag parsed with `--latest` is prepended to the assets, and `--user` pairs with the entered password |
| ExitCodes.FirstMatchingIndex | github_binary_upload.py:410-414 | the index found is the first class the error is an instance of; none found means no class matches |
| ExitCodes.ExitCode | github_binary_upload.py:386-416 | 0 exactly on success, 1 exactly for an unclassified error, otherwise 3 plus the index of a class the error is an instance of |
| ExitCodes.ExitCodeOfClass | github_binary_upload.py:386-416 | every classified error exits with 3 plus the position of its class in the declared tuple |
| ExitCodes.ExitCodesDistinguishClasses | github_binary_upload.py:386-416 | two errors share an exit status exactly when they belong to the same class |
| ExitCodes.ExitCodeTable | github_binary_upload.py:386-416 | the first-match mapping is the documented table: 3 for the missing library, 4 for both OS errors, 5 to 14 in order, 1 for unclassified |
| Tool.ExitStatus | github_binary_upload.py:401-416 | as written: without `requests` or `yacl` the logging setup fails outside the `try`, so the status is 1; every invocation exits with 0, 1 or a status from 4 to 14, so the missing-dependency status 3 is never reached |
| Tool.MainBody | github_binary_upload.py:402-416 | the `try` block and its handler: 0, 1 or 3 to 14, and never 3 when `requests` is installed |
| Tool.MissingRequestsExitsOne | github_binary_upload.py:14-20 | as written, without `requests` every invocation exits 1, while the corrected `main` exits 0 for `--version` and 3 for accepted arguments |
| Tool.ExitStatusCorrected | github_binary_upload.py:401-416 | corrected: the same statuses, equal to the code's whenever both optional libraries are installed |
| Tool.CorrectedMissingLibraryStatus | github_binary_upload.py:134-135 | corrected: without `requests`, accepted arguments exit with 3 |
| Tool.CorrectedVersionExitsZero | github_binary_upload.py:403-405 | in the model's corrected reading, not a documented intent: `--version` exits 0 whichever libraries are installed |
| Tool.VersionExitsZero | github_binary_upload.py:403-405 | with both libraries installed, `--version` exits 0 whatever else is given |
| Tool.ArgumentErrorStatus | github_binary_upload.py:349-361 | with both libraries installed, a rejected command line exits with 11 to 14, and the first failing check picks the status |
| Tool.ZeroMeansSuccess | github_binary_upload.py:401-416 | the status is 0 exactly when both libraries are installed, the arguments are accepted, and either `--version` is given or publishing succeeds |
| Tool.FailedLookupStatus | github_binary_upload.py:182-185 | with both libraries installed, a real run for a given tag whose lookup fails with a status other than 404 exits with 8 after exactly one request |

## Left out

- HTTP transport, URLs, authentication headers and JSON decoding: replies are already decoded and the server is an oracle. Project, server name and credentials only shape request text, which is not modelled. The upload URL at line 252 puts the basename after `?name=` without percent-encoding, so a basename holding `&`, `#`, `+` or `%` reaches the server as a different name, and later runs never match that asset for replacement. `PostAsset.name` carries the raw basename, so the model does not show this.
- JSON bodies of the wrong shape (a list where an object is expected, and the like): only missing keys and non-JSON bodies are modelled.
- Network-level exceptions of the HTTP library (connection errors, timeouts): no reply models them. They derive from `IOError`, so `main` would catch them as `OSError` and exit with 4.
- Client.FetchExistingRelease: follows `requests` before 2.27 without `simplejson`. From 2.27 on, a non-JSON body on lookup raises `requests.JSONDecodeError`, which is also an `OSError`, so the run would exit with 4 rather than 1.
- Client.FetchLatestTag, Client.CreateRelease, Client.ListAssets: a non-JSON body is the JSON error (exit 9) only when `simplejson` is not installed. `requests` prefers `simplejson` when it is present, and its `JSONDecodeError` is not the standard library's, so the handlers at lines 154, 204 and 223 would miss it. The run would then exit with 1 (`requests` before 2.27) or 4 (from 2.27 on). The model does not cover an installed `simplejson`.
- The Windows branch of `get_mimetype` (lines 103-109): it depends on the `mimetypes` table of the platform.
- The file system and the `file` program: a `FileProbe` per path gives `isfile`, `access` and the result of `file --mime`. Running the program is not modelled.
- `open()` failing after the file checks passed (lines 250-256): the probe answers the checks only.
- Logging, log texts and the coloured stderr setup; the version line printed by `--version`.
- argparse, getpass, stdin and the credentials file: the command line arrives parsed, and the entered password and the two credential lines (or a read failure) are inputs. Defaults of the options are not modelled.
- Repeated runs: the server oracle keeps no state between runs, so idempotence across two invocations is not stated.
- setup.py: packaging metadata and build steps, with no logic of the tool.
- PosixPath.Basename: its contract states only that the result has no `/`; that it is the last component of the path, and the only one, is stated by PosixPath.BasenameIsLastComponent.
- Workflow.UploadAll: its contract states the kinds of requests and errors; which requests, in which order, is stated against the plan by LoopProperties.LoopFollowsPlan.

## Findings

| source | as written | input that shows it | evidently intended | confidence | as-written member | corrected member |
|---|---|---|---|---|---|---|
| github_binary_upload.py:115 | the content type is `output.split()[1][:-1]`, the second whitespace-separated word of the `file --mime` line | path `my notes.txt`, output `my notes.txt: text/plain; charset=us-ascii`: the type read is `notes.txt` | the type printed after the `<path>: ` prefix, here `text/plain` | not executed | Mime.WhitespacePathMisparsed | Mime.GetMimetypeCorrected, Mime.CorrectedMimeOfReadableFile |
| github_binary_upload.py:401 | `setup_stderr_logging()` runs before the `try`; it calls `setup_colored_stderr_logging`, whose import at lines 17-18 was skipped when `requests` or `yacl` is missing | `requests` not installed and valid arguments: `NameError`, exit status 1 instead of the missing-dependency status 3 | a missing `requests` exits with 3: `publish_release_from_tag` raises `MissingDependencyError` for it (lines 134-135), and `main` maps that class to 3 (lines 387-388, 412-414). That `--version` should also work without the libraries is the model's reading, not documented intent (`Tool.CorrectedVersionExitsZero`) | not executed | Tool.MissingRequestsExitsOne | Tool.ExitStatusCorrected, Tool.CorrectedMissingLibraryStatus |
