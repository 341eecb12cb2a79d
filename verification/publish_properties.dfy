/** Properties of a whole publication, stated over the trace of requests it issues. */
module PublishProperties {
  import opened Results
  import opened Errors
  import opened Api
  import Client
  import Mime
  import PosixPath
  import opened Workflow
  import opened PlanProperties
  import LoopProperties

  /** Without remote assets, a dry run announces one upload per path, in order. */
  lemma {:induction false} DryRunNoticesWithoutAssets(paths: seq<string>)
    ensures var notices := DryRunNotices([], paths);
      && |notices| == |paths|
      && forall i :: 0 <= i < |paths| ==> notices[i] == WouldUploadAsset(PosixPath.Basename(paths[i]))
    decreases |paths|
  {
    if paths != [] {
      DryRunNoticesWithoutAssets(paths[1..]);
      var name := PosixPath.Basename(paths[0]);
      assert Matching([], name) == [];
      var notices := DryRunNotices([], paths);
      assert notices == [WouldUploadAsset(name)] + DryRunNotices([], paths[1..]);
      forall i | 0 <= i < |paths|
        ensures notices[i] == WouldUploadAsset(PosixPath.Basename(paths[i]))
      {
        if i > 0 {
          assert paths[i] == paths[1..][i - 1];
        }
      }
    }
  }

  /** A dry run never changes remote state and never looks up the release or its
      assets: at most it reads the tag list. It announces the release, then one
      upload per path in input order, and never a deletion. */
  lemma DryRunNeverMutates(requestsInstalled: bool, inv: Invocation, server: Server, fs: Mime.FileSystem)
    requires inv.dryRun
    ensures var run := Publish(requestsInstalled, inv, server, fs);
      && |run.trace| <= 1
      && (forall r :: r in run.trace ==> r == GetTags && !r.IsMutation())
      && (forall n :: n in run.notices ==> !n.WouldDeleteAsset?)
      && (run.result.Success? ==>
            && |run.notices| == |inv.assetPaths| + 1
            && run.notices[0].WouldCreateRelease?
            && forall i :: 0 <= i < |inv.assetPaths| ==>
                 run.notices[i + 1] == WouldUploadAsset(PosixPath.Basename(inv.assetPaths[i])))
      && (requestsInstalled && inv.tag.Some? ==>
            && run.result.Success?
            && run.trace == []
            && run.notices[0] == WouldCreateRelease(inv.tag.value))
  {
    DryRunNoticesWithoutAssets(inv.assetPaths);
  }

  /** Without a tag argument, the tag is the first entry of the tag list; an empty
      list, a first entry without a name, and an HTTP error end the run after
      that one request. */
  lemma LatestTagResolution(requestsInstalled: bool, inv: Invocation, server: Server, fs: Mime.FileSystem)
    requires requestsInstalled && inv.tag.None?
    ensures var run := Publish(requestsInstalled, inv, server, fs);
      var reply := server.tags([GetTags]);
      && |run.trace| >= 1 && run.trace[0] == GetTags
      && (reply.Ok? && |reply.value| == 0 ==> run == Run(Failure(NoTagsAvailable), [GetTags], []))
      && (reply.Ok? && |reply.value| > 0 && reply.value[0].None? ==> run == Run(Failure(Json), [GetTags], []))
      && (reply.HttpError? ==> run == Run(Failure(Http), [GetTags], []))
      && (reply.Ok? && |reply.value| > 0 && reply.value[0].Some? ==>
            && (inv.dryRun ==> |run.notices| > 0 && run.notices[0] == WouldCreateRelease(reply.value[0].value))
            && (!inv.dryRun ==> |run.trace| >= 2 && run.trace[1] == GetRelease(reply.value[0].value)))
  {
    assert [] + [GetTags] == [GetTags];
    var resolved := ResolveTag(server, inv.tag);
    if resolved.result.Success? && !inv.dryRun {
      var tag := resolved.result.value;
      var prepared := Prepare(server, resolved.issued, tag);
      assert prepared.issued[0] == GetRelease(tag);
      var run := Publish(requestsInstalled, inv, server, fs);
      assert run.trace[..|resolved.issued + prepared.issued|] == resolved.issued + prepared.issued;
    }
  }

  lemma {:induction false} CreationsAppend(a: seq<Request>, b: seq<Request>)
    ensures Creations(a + b) == Creations(a) + Creations(b)
    decreases |a|
  {
    if a == [] {
      assert a + b == b;
    } else {
      assert (a + b)[0] == a[0];
      assert (a + b)[1..] == a[1..] + b;
      CreationsAppend(a[1..], b);
    }
  }

  lemma {:induction false} CreationsOfNone(t: seq<Request>)
    requires forall r :: r in t ==> !r.PostRelease?
    ensures Creations(t) == 0
    decreases |t|
  {
    if t != [] {
      assert t[0] in t;
      CreationsOfNone(t[1..]);
    }
  }

  /** The requests of the path loop are deletions and uploads only. */
  lemma LoopOnlyTouchesAssets(server: Server, fs: Mime.FileSystem, h: seq<Request>, release: Release,
                              assets: seq<Asset>, paths: seq<string>)
    ensures forall r :: r in UploadAll(server, fs, h, release, assets, paths).issued ==> r.DeleteAsset? || r.PostAsset?
  {
    LoopProperties.LoopFollowsPlan(server, fs, h, release, assets, paths);
    PlannedTouchesOnlyMatching(fs, release.uploadEndpoint, assets, paths);
  }

  /** The release resolution and asset listing of a real run create a release
      exactly when the lookup answers 404. */
  lemma PrepareCreatesOnlyOn404(server: Server, h: seq<Request>, tag: string)
    ensures var prepared := Prepare(server, h, tag);
      var lookup := server.release(h + [GetRelease(tag)]);
      && |prepared.issued| > 0
      && prepared.issued[0] == GetRelease(tag)
      && Creations(prepared.issued) == (if lookup == HttpError(404) then 1 else 0)
      && (lookup == HttpError(404) ==>
            |prepared.issued| > 1 && prepared.issued[1] == PostRelease(ReleaseDraft(tag, tag, "", false, false)))
      && (lookup.HttpError? && lookup.status != 404 ==> prepared == Call(Failure(Http), [GetRelease(tag)]))
  {
    var lookup := server.release(h + [GetRelease(tag)]);
    Client.ReleaseResolution(server, h, tag);
    var resolved := Client.PublishRelease(server, h, tag);
    var prepared := Prepare(server, h, tag);
    if lookup == HttpError(404) {
      assert resolved.issued == [GetRelease(tag)] + [PostRelease(ReleaseDraft(tag, tag, "", false, false))];
      CreationsAppend([GetRelease(tag)], [PostRelease(ReleaseDraft(tag, tag, "", false, false))]);
    }
    assert Creations(resolved.issued) == (if lookup == HttpError(404) then 1 else 0);
    var tail: seq<Request> := prepared.issued[|resolved.issued|..];
    assert prepared.issued == resolved.issued + tail;
    assert forall r :: r in tail ==> r.GetAssets?;
    CreationsOfNone(tail);
    CreationsAppend(resolved.issued, tail);
  }

  /** After the tag is known, a real run issues the requests of the release
      resolution and listing, then only deletions and uploads; a failure of the
      resolution or listing ends the run. */
  lemma RealRunAfterTag(requestsInstalled: bool, inv: Invocation, server: Server, fs: Mime.FileSystem, tag: string)
    requires requestsInstalled && !inv.dryRun
    requires ResolveTag(server, inv.tag).result == Success(tag)
    ensures var run := Publish(requestsInstalled, inv, server, fs);
      var pre := ResolveTag(server, inv.tag).issued;
      var prepared := Prepare(server, pre, tag);
      var n := |pre| + |prepared.issued|;
      && |run.trace| >= n
      && run.trace[..n] == pre + prepared.issued
      && (forall r :: r in run.trace[n..] ==> r.DeleteAsset? || r.PostAsset?)
      && (prepared.result.Failure? ==> run == Run(Failure(prepared.result.error), pre + prepared.issued, []))
  {
    var pre := ResolveTag(server, inv.tag).issued;
    var prepared := Prepare(server, pre, tag);
    var run := Publish(requestsInstalled, inv, server, fs);
    var n := |pre| + |prepared.issued|;
    if prepared.result.Success? {
      var release := prepared.result.value.0;
      var assets := prepared.result.value.1;
      RealRunTrace(requestsInstalled, inv, server, fs, tag, release, assets);
      var loop := UploadAll(server, fs, pre + prepared.issued, release, assets, inv.assetPaths);
      LoopOnlyTouchesAssets(server, fs, pre + prepared.issued, release, assets, inv.assetPaths);
      assert run.trace[n..] == loop.issued;
    }
    assert run.trace[..n] == pre + prepared.issued;
  }

  /** The release is looked up right after the tag is known. Exactly one creation
      request, with the fixed metadata, follows when the lookup answers 404, and
      none otherwise; any other HTTP error ends the run at the lookup. */
  lemma ReleaseCreatedOnlyOn404(requestsInstalled: bool, inv: Invocation, server: Server, fs: Mime.FileSystem,
                                tag: string)
    requires requestsInstalled && !inv.dryRun
    requires ResolveTag(server, inv.tag).result == Success(tag)
    ensures var run := Publish(requestsInstalled, inv, server, fs);
      var pre := ResolveTag(server, inv.tag).issued;
      var lookup := server.release(pre + [GetRelease(tag)]);
      && |run.trace| > |pre|
      && run.trace[|pre|] == GetRelease(tag)
      && Creations(run.trace) == (if lookup == HttpError(404) then 1 else 0)
      && (lookup == HttpError(404) ==>
            |run.trace| > |pre| + 1 && run.trace[|pre| + 1] == PostRelease(ReleaseDraft(tag, tag, "", false, false)))
      && (lookup.HttpError? && lookup.status != 404 ==> run == Run(Failure(Http), pre + [GetRelease(tag)], []))
  {
    var pre := ResolveTag(server, inv.tag).issued;
    CreationsOfNone(pre);
    RealRunCreatesOnlyOn404(server, fs, pre, tag, inv.assetPaths);
    assert Publish(requestsInstalled, inv, server, fs) == RealRun(server, fs, pre, tag, inv.assetPaths);
  }

  /** The same, for the real run after any creation-free prefix. */
  lemma RealRunCreatesOnlyOn404(server: Server, fs: Mime.FileSystem, pre: seq<Request>, tag: string, paths: seq<string>)
    requires Creations(pre) == 0
    ensures var run := RealRun(server, fs, pre, tag, paths);
      var lookup := server.release(pre + [GetRelease(tag)]);
      && Creations(run.trace) == (if lookup == HttpError(404) then 1 else 0)
      && (lookup == HttpError(404) ==>
            |run.trace| > |pre| + 1 && run.trace[|pre| + 1] == PostRelease(ReleaseDraft(tag, tag, "", false, false)))
      && (lookup.HttpError? && lookup.status != 404 ==> run == Run(Failure(Http), pre + [GetRelease(tag)], []))
  {
    var prepared := Prepare(server, pre, tag);
    var run := RealRun(server, fs, pre, tag, paths);
    PrepareCreatesOnlyOn404(server, pre, tag);
    RealRunShape(server, fs, pre, tag, paths);
    TraceCreations(run.trace, pre, prepared.issued);
    TraceAfterPrefix(run.trace, pre, prepared.issued);
  }

  /** A real run issues the tag requests, then those of the release resolution
      and listing, then only deletions and uploads; a failed preparation ends it. */
  lemma RealRunShape(server: Server, fs: Mime.FileSystem, pre: seq<Request>, tag: string, paths: seq<string>)
    ensures var run := RealRun(server, fs, pre, tag, paths);
      var prepared := Prepare(server, pre, tag);
      var n := |pre| + |prepared.issued|;
      && |run.trace| >= n
      && run.trace[..n] == pre + prepared.issued
      && (forall r :: r in run.trace[n..] ==> r.DeleteAsset? || r.PostAsset?)
      && (prepared.result.Failure? ==> run == Run(Failure(prepared.result.error), pre + prepared.issued, []))
  {
    var prepared := Prepare(server, pre, tag);
    var run := RealRun(server, fs, pre, tag, paths);
    var n := |pre| + |prepared.issued|;
    if prepared.result.Success? {
      var loop := UploadAll(server, fs, pre + prepared.issued, prepared.result.value.0, prepared.result.value.1, paths);
      LoopOnlyTouchesAssets(server, fs, pre + prepared.issued, prepared.result.value.0, prepared.result.value.1, paths);
      assert run.trace == (pre + prepared.issued) + loop.issued;
      assert run.trace[n..] == loop.issued;
    }
    assert run.trace[..n] == pre + prepared.issued;
  }

  /** A trace made of a creation-free prefix, the middle part, then only asset
      requests creates what the middle part creates. */
  lemma TraceCreations(trace: seq<Request>, pre: seq<Request>, mid: seq<Request>)
    requires |trace| >= |pre| + |mid| && trace[..|pre| + |mid|] == pre + mid
    requires forall r :: r in trace[|pre| + |mid|..] ==> r.DeleteAsset? || r.PostAsset?
    requires Creations(pre) == 0
    ensures Creations(trace) == Creations(mid)
  {
    var n := |pre| + |mid|;
    var rest := trace[n..];
    assert trace == (pre + mid) + rest by {
      assert trace == trace[..n] + trace[n..];
    }
    AssetRequestsCreateNothing(rest);
    CreationsOfJoin(pre, mid, rest);
  }

  lemma AssetRequestsCreateNothing(t: seq<Request>)
    requires forall r :: r in t ==> r.DeleteAsset? || r.PostAsset?
    ensures Creations(t) == 0
  {
    forall r | r in t
      ensures !r.PostRelease?
    {
      assert r.DeleteAsset? || r.PostAsset?;
    }
    CreationsOfNone(t);
  }

  lemma CreationsOfJoin(pre: seq<Request>, mid: seq<Request>, rest: seq<Request>)
    requires Creations(pre) == 0 && Creations(rest) == 0
    ensures Creations((pre + mid) + rest) == Creations(mid)
  {
    CreationsAppend(pre + mid, rest);
    CreationsAppend(pre, mid);
  }

  /** The middle part's first two requests sit right after the prefix. */
  lemma TraceAfterPrefix(trace: seq<Request>, pre: seq<Request>, mid: seq<Request>)
    requires |trace| >= |pre| + |mid| && trace[..|pre| + |mid|] == pre + mid
    ensures |mid| > 0 ==> trace[|pre|] == mid[0]
    ensures |mid| > 1 ==> trace[|pre| + 1] == mid[1]
  {
    if |mid| > 0 {
      assert trace[|pre|] == (pre + mid)[|pre|];
    }
    if |mid| > 1 {
      assert trace[|pre| + 1] == (pre + mid)[|pre| + 1];
    }
  }

  /** A real run that got as far as listing the assets issues the requests of the
      tag resolution, of the release resolution and of the listing, then those of
      the path loop, and ends as the loop does. */
  lemma RealRunTrace(requestsInstalled: bool, inv: Invocation, server: Server, fs: Mime.FileSystem,
                     tag: string, release: Release, assets: seq<Asset>)
    requires requestsInstalled && !inv.dryRun
    requires ResolveTag(server, inv.tag).result == Success(tag)
    requires Prepare(server, ResolveTag(server, inv.tag).issued, tag).result == Success((release, assets))
    ensures var run := Publish(requestsInstalled, inv, server, fs);
      var pre := ResolveTag(server, inv.tag).issued + Prepare(server, ResolveTag(server, inv.tag).issued, tag).issued;
      var loop := UploadAll(server, fs, pre, release, assets, inv.assetPaths);
      run == Run(loop.result, pre + loop.issued, [])
  {
  }

  /** Replace by name: a real run deletes only listed assets whose name is the
      basename of a given path, deletes every such asset before uploading the
      file of that name, issues a prefix of the plan after the listing, and on
      success uploads every path once, in input order, under its basename with
      its detected content type. */
  lemma RealRunReplacesByName(requestsInstalled: bool, inv: Invocation, server: Server, fs: Mime.FileSystem,
                              tag: string, release: Release, assets: seq<Asset>)
    requires requestsInstalled && !inv.dryRun
    requires ResolveTag(server, inv.tag).result == Success(tag)
    requires Prepare(server, ResolveTag(server, inv.tag).issued, tag).result == Success((release, assets))
    ensures var run := Publish(requestsInstalled, inv, server, fs);
      var pre := ResolveTag(server, inv.tag).issued + Prepare(server, ResolveTag(server, inv.tag).issued, tag).issued;
      var paths := inv.assetPaths;
      && |pre| <= |run.trace|
      && run.trace[..|pre|] == pre
      && run.trace[|pre|..] <= Planned(fs, release.uploadEndpoint, assets, paths)
      && (forall r :: r in run.trace && r.DeleteAsset? ==>
            exists a, k :: a in assets && 0 <= k < |paths| && a.name == PosixPath.Basename(paths[k]) && a.id == r.assetId)
      && DeletesPrecedeUploads(run.trace, assets)
      && (run.result.Success? ==>
            && AllMimesKnown(fs, paths)
            && UploadsMatchPaths(Uploads(run.trace), fs, release.uploadEndpoint, paths))
  {
    var pre := ResolveTag(server, inv.tag).issued + Prepare(server, ResolveTag(server, inv.tag).issued, tag).issued;
    var paths := inv.assetPaths;
    var loop := UploadAll(server, fs, pre, release, assets, paths);
    RealRunTrace(requestsInstalled, inv, server, fs, tag, release, assets);
    LoopReplacesByName(server, fs, pre, release, assets, paths);
  }

  /** The replace-by-name guarantees of a real run, for the trace `pre` before the
      loop followed by the loop's requests. */
  lemma LoopReplacesByName(server: Server, fs: Mime.FileSystem, pre: seq<Request>, release: Release,
                           assets: seq<Asset>, paths: seq<string>)
    requires forall r :: r in pre ==> !r.DeleteAsset? && !r.PostAsset?
    ensures var loop := UploadAll(server, fs, pre, release, assets, paths);
      var trace := pre + loop.issued;
      && trace[..|pre|] == pre
      && trace[|pre|..] <= Planned(fs, release.uploadEndpoint, assets, paths)
      && (forall r :: r in trace && r.DeleteAsset? ==>
            exists a, k :: a in assets && 0 <= k < |paths| && a.name == PosixPath.Basename(paths[k]) && a.id == r.assetId)
      && DeletesPrecedeUploads(trace, assets)
      && (loop.result.Success? ==>
            && AllMimesKnown(fs, paths)
            && UploadsMatchPaths(Uploads(trace), fs, release.uploadEndpoint, paths))
  {
    var plan := Planned(fs, release.uploadEndpoint, assets, paths);
    var loop := UploadAll(server, fs, pre, release, assets, paths);
    var trace := pre + loop.issued;
    assert trace[..|pre|] == pre;
    assert trace[|pre|..] == loop.issued;
    LoopProperties.LoopFollowsPlan(server, fs, pre, release, assets, paths);
    PlannedTouchesOnlyMatching(fs, release.uploadEndpoint, assets, paths);
    PlannedDeletesBeforeUpload(fs, release.uploadEndpoint, assets, paths);
    DeletesPrecedeUploadsPrefix(loop.issued, plan, assets);
    assert DeletesPrecedeUploads(pre, assets);
    DeletesPrecedeUploadsAppend(pre, loop.issued, assets);
    if loop.result.Success? {
      PlannedUploadsFollowPaths(fs, release.uploadEndpoint, assets, paths);
      UploadsOfNone(pre);
      UploadsAppend(pre, loop.issued);
    }
  }
}
