/** Properties of the path loop of a real run, stated against the plan: the
    requests the loop issues when the server accepts every request. */
module LoopProperties {
  import opened Results
  import opened Errors
  import opened Api
  import Client
  import Mime
  import PosixPath
  import opened Workflow

  /** The deletions of one path are the planned ones, cut short by the first
      refusal (`DeleteEachStopsAtRefusal`). */
  lemma {:induction false} DeleteEachFollowsPlan(server: Server, h: seq<Request>, matches: seq<Asset>)
    ensures var d := DeleteEach(server, h, matches);
      && d.issued <= DeleteRequests(matches)
      && (d.result.Success? ==> d.issued == DeleteRequests(matches))
    decreases |matches|
  {
    if matches != [] {
      var first := Client.DeleteAsset(server, h, matches[0]);
      assert DeleteRequests(matches) == first.issued + DeleteRequests(matches[1..]);
      if first.result.Success? {
        DeleteEachFollowsPlan(server, h + first.issued, matches[1..]);
        var rest := DeleteEach(server, h + first.issued, matches[1..]);
        assert DeleteEach(server, h, matches) == Call(rest.result, first.issued + rest.issued);
        PrefixExtends(first.issued, rest.issued, DeleteRequests(matches[1..]));
      }
    }
  }

  /** The deletions of one path fail only with an HTTP error, on a deletion the
      server refused, after which nothing more is requested. */
  lemma {:induction false} DeleteEachStopsAtRefusal(server: Server, h: seq<Request>, matches: seq<Asset>)
    ensures var d := DeleteEach(server, h, matches);
      d.result.Failure? ==>
        && d.result.error == Http
        && |d.issued| > 0
        && d.issued[|d.issued| - 1].DeleteAsset?
        && server.ack(h + d.issued).Rejected?
    decreases |matches|
  {
    if matches != [] {
      var first := Client.DeleteAsset(server, h, matches[0]);
      if first.result.Success? {
        DeleteEachStopsAtRefusal(server, h + first.issued, matches[1..]);
        var rest := DeleteEach(server, h + first.issued, matches[1..]);
        var all := first.issued + rest.issued;
        assert DeleteEach(server, h, matches) == Call(rest.result, all);
        assert h + first.issued + rest.issued == h + all;
        if rest.issued != [] {
          assert all[|all| - 1] == rest.issued[|rest.issued| - 1];
        }
      }
    }
  }

  lemma PrefixExtends<T>(a: seq<T>, b: seq<T>, c: seq<T>)
    requires b <= c
    ensures a + b <= a + c
  {
    assert (a + c)[..|a + b|] == a + b;
  }

  /** One path: a prefix of its plan, and all of it unless the server refused a
      request. */
  lemma HandlePathFollowsPlan(server: Server, fs: Mime.FileSystem, h: seq<Request>, release: Release,
                              assets: seq<Asset>, path: string)
    ensures var c := HandlePath(server, fs, h, release, assets, path);
      var plan := PathPlan(fs, release.uploadEndpoint, assets, path);
      var mime := Mime.GetMimetype(path, fs(path));
      && c.issued <= plan
      && (c.result.Success? ==> c.issued == plan && mime.Success?)
      && (c.result.Failure? && c.result.error != Http ==> c.issued == plan && mime.Failure? && c.result.error == mime.error)
  {
    var matches := Matching(assets, PosixPath.Basename(path));
    DeleteEachFollowsPlan(server, h, matches);
    DeleteEachStopsAtRefusal(server, h, matches);
  }

  /** One path: an HTTP error comes from the last request, which the server refused. */
  lemma HandlePathStopsAtRefusal(server: Server, fs: Mime.FileSystem, h: seq<Request>, release: Release,
                                 assets: seq<Asset>, path: string)
    ensures var c := HandlePath(server, fs, h, release, assets, path);
      c.result.Failure? && c.result.error == Http ==>
        && |c.issued| > 0
        && c.issued[|c.issued| - 1].IsMutation()
        && server.ack(h + c.issued).Rejected?
  {
    var matches := Matching(assets, PosixPath.Basename(path));
    var deleted := DeleteEach(server, h, matches);
    DeleteEachStopsAtRefusal(server, h, matches);
    if deleted.result.Success? {
      var uploaded := Client.UploadAsset(server, fs, h + deleted.issued, release, path);
      UploadStopsAtRefusal(server, fs, h + deleted.issued, release, path);
      RefusalAfterSuccess(server, h, deleted.issued, uploaded);
    }
  }

  lemma UploadStopsAtRefusal(server: Server, fs: Mime.FileSystem, h: seq<Request>, release: Release, path: string)
    ensures StopsAtRefusal(server, h, Client.UploadAsset(server, fs, h, release, path))
  {
  }

  /** The loop issues a prefix of the plan, and all of it exactly when it
      succeeds or stops at a path whose content type cannot be detected. */
  lemma {:induction false} LoopFollowsPlan(server: Server, fs: Mime.FileSystem, h: seq<Request>, release: Release,
                                           assets: seq<Asset>, paths: seq<string>)
    ensures var c := UploadAll(server, fs, h, release, assets, paths);
      var plan := Planned(fs, release.uploadEndpoint, assets, paths);
      && c.issued <= plan
      && (c.result.Success? ==> c.issued == plan && AllMimesKnown(fs, paths))
      && (c.result.Failure? && c.result.error != Http ==>
            && c.issued == plan
            && Mime.IsMimeError(c.result.error)
            && !AllMimesKnown(fs, paths))
    decreases |paths|
  {
    if paths != [] {
      var first := HandlePath(server, fs, h, release, assets, paths[0]);
      HandlePathFollowsPlan(server, fs, h, release, assets, paths[0]);
      var mime := Mime.GetMimetype(paths[0], fs(paths[0]));
      if mime.Failure? {
        assert !AllMimesKnown(fs, paths);
      }
      if first.result.Success? {
        LoopFollowsPlan(server, fs, h + first.issued, release, assets, paths[1..]);
        var rest := UploadAll(server, fs, h + first.issued, release, assets, paths[1..]);
        assert UploadAll(server, fs, h, release, assets, paths) == Call(rest.result, first.issued + rest.issued);
        assert Planned(fs, release.uploadEndpoint, assets, paths)
            == PathPlan(fs, release.uploadEndpoint, assets, paths[0]) + Planned(fs, release.uploadEndpoint, assets, paths[1..]);
        PrefixExtends(first.issued, rest.issued, Planned(fs, release.uploadEndpoint, assets, paths[1..]));
        if rest.result.Success? {
          AllMimesKnownCons(fs, paths);
        } else if rest.result.error != Http {
          SomeMimeUnknownCons(fs, paths);
        }
      }
    }
  }

  lemma AllMimesKnownCons(fs: Mime.FileSystem, paths: seq<string>)
    requires paths != [] && Mime.GetMimetype(paths[0], fs(paths[0])).Success? && AllMimesKnown(fs, paths[1..])
    ensures AllMimesKnown(fs, paths)
  {
    forall i | 0 <= i < |paths|
      ensures Mime.GetMimetype(paths[i], fs(paths[i])).Success?
    {
      if i > 0 {
        assert paths[i] == paths[1..][i - 1];
      }
    }
  }

  lemma SomeMimeUnknownCons(fs: Mime.FileSystem, paths: seq<string>)
    requires paths != [] && !AllMimesKnown(fs, paths[1..])
    ensures !AllMimesKnown(fs, paths)
  {
    var i :| 0 <= i < |paths[1..]| && Mime.GetMimetype(paths[1..][i], fs(paths[1..][i])).Failure?;
    assert paths[1..][i] == paths[i + 1];
  }

  /** An HTTP error ends the loop at the refused request: the last request issued
      is a deletion or an upload, and the server refused it (`StopsAtRefusal`). */
  lemma {:induction false} LoopStopsAtRefusal(server: Server, fs: Mime.FileSystem, h: seq<Request>, release: Release,
                                              assets: seq<Asset>, paths: seq<string>)
    ensures StopsAtRefusal(server, h, UploadAll(server, fs, h, release, assets, paths))
    decreases |paths|
  {
    if paths != [] {
      var first := HandlePath(server, fs, h, release, assets, paths[0]);
      HandlePathStopsAtRefusal(server, fs, h, release, assets, paths[0]);
      assert StopsAtRefusal(server, h, first);
      if first.result.Success? {
        var h' := h + first.issued;
        LoopStopsAtRefusal(server, fs, h', release, assets, paths[1..]);
        var rest := UploadAll(server, fs, h', release, assets, paths[1..]);
        RefusalAfterSuccess(server, h, first.issued, rest);
        assert UploadAll(server, fs, h, release, assets, paths) == Call(rest.result, first.issued + rest.issued);
      }
    }
  }

  /** A call that failed with an HTTP error did so on its last request, a
      mutation the server refused. */
  predicate StopsAtRefusal(server: Server, h: seq<Request>, c: Call<()>)
  {
    c.result.Failure? && c.result.error == Http ==>
      && |c.issued| > 0
      && c.issued[|c.issued| - 1].IsMutation()
      && server.ack(h + c.issued).Rejected?
  }

  lemma RefusalAfterSuccess(server: Server, h: seq<Request>, before: seq<Request>, rest: Call<()>)
    requires StopsAtRefusal(server, h + before, rest)
    ensures StopsAtRefusal(server, h, Call(rest.result, before + rest.issued))
  {
    var all := before + rest.issued;
    assert h + before + rest.issued == h + all;
    if rest.issued != [] {
      assert all[|all| - 1] == rest.issued[|rest.issued| - 1];
    }
  }

  lemma {:induction false} DeleteEachSucceedsWhenAccepted(server: Server, h: seq<Request>, matches: seq<Asset>)
    requires forall t :: server.ack(t).Accepted?
    ensures DeleteEach(server, h, matches).result.Success?
    decreases |matches|
  {
    if matches != [] {
      var first := Client.DeleteAsset(server, h, matches[0]);
      DeleteEachSucceedsWhenAccepted(server, h + first.issued, matches[1..]);
    }
  }

  lemma HandlePathSucceedsWhenAccepted(server: Server, fs: Mime.FileSystem, h: seq<Request>,
                                       release: Release, assets: seq<Asset>, path: string)
    requires forall t :: server.ack(t).Accepted?
    requires Mime.GetMimetype(path, fs(path)).Success?
    ensures HandlePath(server, fs, h, release, assets, path).result.Success?
  {
    DeleteEachSucceedsWhenAccepted(server, h, Matching(assets, PosixPath.Basename(path)));
  }

  /** When the server accepts every request and every content type is detected,
      the loop succeeds. */
  lemma {:induction false} LoopSucceedsWhenAccepted(server: Server, fs: Mime.FileSystem, h: seq<Request>,
                                                    release: Release, assets: seq<Asset>, paths: seq<string>)
    requires forall t :: server.ack(t).Accepted?
    requires AllMimesKnown(fs, paths)
    ensures UploadAll(server, fs, h, release, assets, paths).result.Success?
    decreases |paths|
  {
    if paths != [] {
      assert Mime.GetMimetype(paths[0], fs(paths[0])).Success?;
      HandlePathSucceedsWhenAccepted(server, fs, h, release, assets, paths[0]);
      var first := HandlePath(server, fs, h, release, assets, paths[0]);
      assert AllMimesKnown(fs, paths[1..]) by {
        forall i | 0 <= i < |paths[1..]|
          ensures Mime.GetMimetype(paths[1..][i], fs(paths[1..][i])).Success?
        {
          assert paths[1..][i] == paths[i + 1];
        }
      }
      LoopSucceedsWhenAccepted(server, fs, h + first.issued, release, assets, paths[1..]);
    }
  }
}
