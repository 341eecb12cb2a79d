/** `publish_release_from_tag`: resolve the tag, resolve the release, list its
    assets, then for every local path delete the assets of the same name and
    upload the file. A dry run only reports what it would do. */
module Workflow {
  import opened Results
  import opened Errors
  import opened Api
  import Client
  import Mime
  import PosixPath

  /** The notices a dry run logs. */
  datatype Notice =
    | WouldCreateRelease(tag: string)
    | WouldDeleteAsset(name: string)
    | WouldUploadAsset(name: string)

  /** The arguments of one publication. Project, server and credentials only
      shape the requests' URLs and authentication. */
  datatype Invocation = Invocation(tag: Option<string>, assetPaths: seq<string>, dryRun: bool)

  /** What a publication did: how it ended, the requests it issued in order, and
      the dry-run notices it logged. */
  datatype Run = Run(result: Outcome<()>, trace: seq<Request>, notices: seq<Notice>)

  /** The assets named `name`, in listing order. */
  function Matching(assets: seq<Asset>, name: string): (m: seq<Asset>)
    ensures |m| <= |assets|
    ensures forall a :: a in m <==> a in assets && a.name == name
  {
    if assets == [] then []
    else (if assets[0].name == name then [assets[0]] else []) + Matching(assets[1..], name)
  }

  /** The tag to publish: the given one, or the latest one of the project. */
  function ResolveTag(server: Server, tag: Option<string>): (c: Call<string>)
    ensures tag.Some? ==> c.issued == [] && c.result == Success(tag.value)
    ensures tag.None? ==>
      var reply := server.tags([GetTags]);
      && c.issued == [GetTags]
      && (c.result.Success? <==> reply.Ok? && |reply.value| > 0 && reply.value[0].Some?)
      && (c.result.Success? ==> c.result.value == reply.value[0].value)
      && (reply.HttpError? ==> c.result == Failure(Http))
      && (reply.Ok? && |reply.value| == 0 ==> c.result == Failure(NoTagsAvailable))
      && (c.result.Failure? && !reply.HttpError? && reply != Ok([]) ==> c.result == Failure(Json))
  {
    match tag
    case Some(t) => Call(Success(t), [])
    case None =>
      assert [] + [GetTags] == [GetTags];
      Client.FetchLatestTag(server, [])
  }

  /** The release for `tag` and the assets it has, as a real run sees them before
      uploading anything. */
  function Prepare(server: Server, h: seq<Request>, tag: string): (c: Call<(Release, seq<Asset>)>)
    ensures forall r :: r in c.issued ==> !r.DeleteAsset? && !r.PostAsset?
    ensures c.result.Success? ==> |c.issued| > 0 && c.issued[|c.issued| - 1] == GetAssets(c.result.value.0.id)
    ensures c.result.Failure? ==> c.result.error in {Http, Json, InvalidUploadUrl, Unclassified}
  {
    var resolved := Client.PublishRelease(server, h, tag);
    match resolved.result
    case Failure(e) => Call(Failure(e), resolved.issued)
    case Success(release) =>
      var listed := Client.ListAssets(server, h + resolved.issued, release);
      match listed.result
      case Failure(e) => Call(Failure(e), resolved.issued + listed.issued)
      case Success(assets) => Call(Success((release, assets)), resolved.issued + listed.issued)
  }

  /** Deletes `matches` one by one, stopping at the first refusal. */
  function DeleteEach(server: Server, h: seq<Request>, matches: seq<Asset>): (c: Call<()>)
    ensures |c.issued| <= |matches|
    ensures forall i :: 0 <= i < |c.issued| ==> c.issued[i].DeleteAsset?
    ensures c.result.Success? ==> |c.issued| == |matches|
    ensures c.result.Failure? ==> c.result.error == Http
    decreases |matches|
  {
    if matches == [] then Call(Success(()), [])
    else
      var first := Client.DeleteAsset(server, h, matches[0]);
      if first.result.Failure? then first
      else
        var rest := DeleteEach(server, h + first.issued, matches[1..]);
        Call(rest.result, first.issued + rest.issued)
  }

  /** One iteration of the loop of a real run: delete the listed assets that
      carry the path's basename, then upload the file. */
  function HandlePath(server: Server, fs: Mime.FileSystem, h: seq<Request>, release: Release,
                      assets: seq<Asset>, path: string): (c: Call<()>)
    ensures forall i :: 0 <= i < |c.issued| ==> c.issued[i].DeleteAsset? || c.issued[i].PostAsset?
    ensures c.result.Failure? ==> c.result.error == Http || Mime.IsMimeError(c.result.error)
    ensures c.result.Success? ==>
      && Mime.GetMimetype(path, fs(path)).Success?
      && |c.issued| > 0
      && c.issued[|c.issued| - 1]
           == PostAsset(release.uploadEndpoint, PosixPath.Basename(path), Mime.GetMimetype(path, fs(path)).value)
  {
    var deleted := DeleteEach(server, h, Matching(assets, PosixPath.Basename(path)));
    if deleted.result.Failure? then deleted
    else
      var uploaded := Client.UploadAsset(server, fs, h + deleted.issued, release, path);
      Call(uploaded.result, deleted.issued + uploaded.issued)
  }

  /** The loop over the local paths of a real run, stopping at the first error.
      The asset list is the one read before the loop: it is not updated after
      deletions and uploads. */
  function UploadAll(server: Server, fs: Mime.FileSystem, h: seq<Request>, release: Release,
                     assets: seq<Asset>, paths: seq<string>): (c: Call<()>)
    ensures forall i :: 0 <= i < |c.issued| ==> c.issued[i].DeleteAsset? || c.issued[i].PostAsset?
    ensures c.result.Failure? ==> c.result.error == Http || Mime.IsMimeError(c.result.error)
    decreases |paths|
  {
    if paths == [] then Call(Success(()), [])
    else
      var first := HandlePath(server, fs, h, release, assets, paths[0]);
      if first.result.Failure? then first
      else
        var rest := UploadAll(server, fs, h + first.issued, release, assets, paths[1..]);
        Call(rest.result, first.issued + rest.issued)
  }

  /** The loop over the local paths of a dry run: the deletions and the upload it
      would make for every path. */
  function DryRunNotices(assets: seq<Asset>, paths: seq<string>): (notices: seq<Notice>)
    ensures |notices| >= |paths|
    ensures forall i :: 0 <= i < |notices| ==> notices[i].WouldDeleteAsset? || notices[i].WouldUploadAsset?
    ensures paths != [] ==>
      var name := PosixPath.Basename(paths[0]);
      var matches := Matching(assets, name);
      && |notices| > |matches|
      && (forall i :: 0 <= i < |matches| ==> notices[i] == WouldDeleteAsset(name))
      && notices[|matches|] == WouldUploadAsset(name)
  {
    if paths == [] then []
    else
      var name := PosixPath.Basename(paths[0]);
      var matches := Matching(assets, name);
      seq(|matches|, i requires 0 <= i < |matches| => WouldDeleteAsset(matches[i].name))
        + [WouldUploadAsset(name)]
        + DryRunNotices(assets, paths[1..])
  }

  /** `publish_release_from_tag`. `requestsInstalled` says whether the HTTP
      library could be imported. */
  function Publish(requestsInstalled: bool, inv: Invocation, server: Server, fs: Mime.FileSystem): (run: Run)
    ensures !requestsInstalled ==> run == Run(Failure(MissingDependency), [], [])
    ensures run.result == Failure(MissingDependency) ==> !requestsInstalled
    ensures run.notices != [] ==> inv.dryRun && run.result.Success?
    ensures inv.dryRun ==> |run.trace| <= 1
    ensures requestsInstalled && !inv.dryRun && inv.tag.Some? ==> |run.trace| > 0 && run.trace[0] == GetRelease(inv.tag.value)
  {
    if !requestsInstalled then Run(Failure(MissingDependency), [], [])
    else
      var resolved := ResolveTag(server, inv.tag);
      match resolved.result
      case Failure(e) => Run(Failure(e), resolved.issued, [])
      case Success(tag) =>
        if inv.dryRun then
          Run(Success(()), resolved.issued, [WouldCreateRelease(tag)] + DryRunNotices([], inv.assetPaths))
        else RealRun(server, fs, resolved.issued, tag, inv.assetPaths)
  }

  /** A real run once the tag is known: `pre` are the requests made to find it.
      The release is resolved and its assets listed, then every path is handled. */
  function RealRun(server: Server, fs: Mime.FileSystem, pre: seq<Request>, tag: string, paths: seq<string>): (run: Run)
    ensures run.notices == []
    ensures |run.trace| > |pre| && run.trace[..|pre|] == pre && run.trace[|pre|] == GetRelease(tag)
    ensures run.result.Failure? ==> run.result.error != MissingDependency
  {
    var prepared := Prepare(server, pre, tag);
    match prepared.result
    case Failure(e) => Run(Failure(e), pre + prepared.issued, [])
    case Success((release, assets)) =>
      var h := pre + prepared.issued;
      var uploaded := UploadAll(server, fs, h, release, assets, paths);
      Run(uploaded.result, h + uploaded.issued, [])
  }

  // ---------------------------------------------------------------------------
  // The plan: the requests the path loop issues when the server accepts them all.

  /** One DELETE per asset, in order. */
  function DeleteRequests(matches: seq<Asset>): (rs: seq<Request>)
    ensures |rs| == |matches|
    ensures forall i :: 0 <= i < |rs| ==> rs[i] == Request.DeleteAsset(matches[i].id)
  {
    if matches == [] then []
    else [Request.DeleteAsset(matches[0].id)] + DeleteRequests(matches[1..])
  }

  /** The requests for one path when every request is accepted: the deletions
      of the same-named assets, then the upload if the content type is known. */
  function PathPlan(fs: Mime.FileSystem, endpoint: string, assets: seq<Asset>, path: string): seq<Request>
  {
    var name := PosixPath.Basename(path);
    var deletes := DeleteRequests(Matching(assets, name));
    match Mime.GetMimetype(path, fs(path))
    case Failure(_) => deletes
    case Success(mime) => deletes + [PostAsset(endpoint, name, mime)]
  }

  /** The requests of the path loop when every request is accepted, path after
      path; it ends after the deletions of the first path whose content type
      cannot be detected. */
  function Planned(fs: Mime.FileSystem, endpoint: string, assets: seq<Asset>, paths: seq<string>): seq<Request>
  {
    if paths == [] then []
    else if Mime.GetMimetype(paths[0], fs(paths[0])).Failure? then PathPlan(fs, endpoint, assets, paths[0])
    else PathPlan(fs, endpoint, assets, paths[0]) + Planned(fs, endpoint, assets, paths[1..])
  }

  /** Every path's content type can be detected. */
  predicate AllMimesKnown(fs: Mime.FileSystem, paths: seq<string>)
  {
    forall i :: 0 <= i < |paths| ==> Mime.GetMimetype(paths[i], fs(paths[i])).Success?
  }

  /** The upload requests of a trace, in order. */
  function Uploads(trace: seq<Request>): (us: seq<Request>)
    ensures forall r :: r in us ==> r.PostAsset? && r in trace
  {
    if trace == [] then []
    else (if trace[0].PostAsset? then [trace[0]] else []) + Uploads(trace[1..])
  }

  /** The number of release creations in a trace. */
  function Creations(trace: seq<Request>): nat
  {
    if trace == [] then 0
    else (if trace[0].PostRelease? then 1 else 0) + Creations(trace[1..])
  }
}
