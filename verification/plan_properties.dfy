/** Properties of the plan of the path loop: what it deletes, in which order, and
    what it uploads. */
module PlanProperties {
  import opened Api
  import Mime
  import PosixPath
  import opened Workflow

  /** Splitting a trace splits its uploads. */
  lemma {:induction false} UploadsAppend(a: seq<Request>, b: seq<Request>)
    ensures Uploads(a + b) == Uploads(a) + Uploads(b)
    decreases |a|
  {
    if a == [] {
      assert a + b == b;
    } else {
      var head := if a[0].PostAsset? then [a[0]] else [];
      assert (a + b)[0] == a[0];
      assert (a + b)[1..] == a[1..] + b;
      assert Uploads(a + b) == head + Uploads(a[1..] + b);
      assert Uploads(a) == head + Uploads(a[1..]);
      UploadsAppend(a[1..], b);
      assert head + (Uploads(a[1..]) + Uploads(b)) == (head + Uploads(a[1..])) + Uploads(b);
    }
  }

  /** The assets to delete keep the order of the listing: matching a listing in
      two parts matches each part in turn. */
  lemma {:induction false} MatchingAppend(a: seq<Asset>, b: seq<Asset>, name: string)
    ensures Matching(a + b, name) == Matching(a, name) + Matching(b, name)
    decreases |a|
  {
    if a == [] {
      assert a + b == b;
    } else {
      var head := if a[0].name == name then [a[0]] else [];
      assert (a + b)[1..] == a[1..] + b;
      assert Matching(a + b, name) == head + Matching(a[1..] + b, name);
      MatchingAppend(a[1..], b, name);
    }
  }

  /** A trace without uploads has none to report. */
  lemma {:induction false} UploadsOfNone(t: seq<Request>)
    requires forall r :: r in t ==> !r.PostAsset?
    ensures Uploads(t) == []
    decreases |t|
  {
    if t != [] {
      assert t[0] in t;
      UploadsOfNone(t[1..]);
    }
  }

  /** The plan only deletes and uploads, and it deletes only listed assets whose
      name is the basename of one of the paths: unrelated assets are never
      touched. */
  lemma {:induction false} PlannedTouchesOnlyMatching(fs: Mime.FileSystem, endpoint: string, assets: seq<Asset>,
                                                      paths: seq<string>)
    ensures forall r :: r in Planned(fs, endpoint, assets, paths) ==> r.DeleteAsset? || r.PostAsset?
    ensures forall r :: r in Planned(fs, endpoint, assets, paths) && r.DeleteAsset? ==>
      exists a, k :: a in assets && 0 <= k < |paths| && a.name == PosixPath.Basename(paths[k]) && a.id == r.assetId
    decreases |paths|
  {
    if paths != [] {
      var plan := Planned(fs, endpoint, assets, paths);
      var here := PathPlan(fs, endpoint, assets, paths[0]);
      var later := if Mime.GetMimetype(paths[0], fs(paths[0])).Failure? then [] else Planned(fs, endpoint, assets, paths[1..]);
      assert plan == here + later;
      PathPlanTouchesOnlyMatching(fs, endpoint, assets, paths[0]);
      PlannedTouchesOnlyMatching(fs, endpoint, assets, paths[1..]);
      forall r | r in plan && r.DeleteAsset?
        ensures exists a, k :: a in assets && 0 <= k < |paths| && a.name == PosixPath.Basename(paths[k]) && a.id == r.assetId
      {
        if r in here {
          var a :| a in assets && a.name == PosixPath.Basename(paths[0]) && a.id == r.assetId;
          assert 0 < |paths|;
        } else {
          assert r in later;
          var a, k :| a in assets && 0 <= k < |paths[1..]| && a.name == PosixPath.Basename(paths[1..][k]) && a.id == r.assetId;
          assert paths[1..][k] == paths[k + 1];
        }
      }
    }
  }

  /** One path's plan deletes only listed assets named after the path. */
  lemma PathPlanTouchesOnlyMatching(fs: Mime.FileSystem, endpoint: string, assets: seq<Asset>, path: string)
    ensures forall r :: r in PathPlan(fs, endpoint, assets, path) ==> r.DeleteAsset? || r.PostAsset?
    ensures forall r :: r in PathPlan(fs, endpoint, assets, path) && r.DeleteAsset? ==>
      exists a :: a in assets && a.name == PosixPath.Basename(path) && a.id == r.assetId
  {
    var name := PosixPath.Basename(path);
    var matches := Matching(assets, name);
    var deletes := DeleteRequests(matches);
    forall r | r in PathPlan(fs, endpoint, assets, path)
      ensures r.DeleteAsset? || r.PostAsset?
      ensures r.DeleteAsset? ==> exists a :: a in assets && a.name == name && a.id == r.assetId
    {
      if r in deletes {
        var i :| 0 <= i < |deletes| && deletes[i] == r;
        assert matches[i] in matches;
      }
    }
  }

  /** The asset list is read once, before the loop: when two paths share a
      basename, the plan deletes a listed asset of that name for the first path
      and again for the second, although the first deletion already removed it. */
  lemma StaleListDeletesAgain(fs: Mime.FileSystem, endpoint: string, assets: seq<Asset>, p: string, q: string, a: Asset)
    requires PosixPath.Basename(p) == PosixPath.Basename(q)
    requires Mime.GetMimetype(p, fs(p)).Success?
    requires a in assets && a.name == PosixPath.Basename(p)
    ensures var plan := Planned(fs, endpoint, assets, [p, q]);
      var n := |PathPlan(fs, endpoint, assets, p)|;
      && n <= |plan|
      && Request.DeleteAsset(a.id) in plan[..n]
      && Request.DeleteAsset(a.id) in plan[n..]
  {
    var first := PathPlan(fs, endpoint, assets, p);
    var second := PathPlan(fs, endpoint, assets, q);
    assert [p, q][1..] == [q];
    assert Planned(fs, endpoint, assets, [q]) == second by {
      assert [q][1..] == [];
      assert second + [] == second;
    }
    var plan := Planned(fs, endpoint, assets, [p, q]);
    assert plan == first + second;
    assert plan[..|first|] == first;
    assert plan[|first|..] == second;
    PathPlanDeletes(fs, endpoint, assets, p, a);
    PathPlanDeletes(fs, endpoint, assets, q, a);
  }

  /** One path's plan deletes every listed asset named after the path. */
  lemma PathPlanDeletes(fs: Mime.FileSystem, endpoint: string, assets: seq<Asset>, path: string, a: Asset)
    requires a in assets && a.name == PosixPath.Basename(path)
    ensures Request.DeleteAsset(a.id) in PathPlan(fs, endpoint, assets, path)
  {
    var matches := Matching(assets, PosixPath.Basename(path));
    assert a in matches;
    var i :| 0 <= i < |matches| && matches[i] == a;
    var deletes := DeleteRequests(matches);
    assert deletes[i] == Request.DeleteAsset(a.id);
    assert PathPlan(fs, endpoint, assets, path)[i] == deletes[i];
  }

  /** Within one path's plan, the upload comes after the deletion of every listed
      asset carrying the uploaded name. */
  lemma PathPlanDeletesFirst(fs: Mime.FileSystem, endpoint: string, assets: seq<Asset>, path: string)
    ensures var plan := PathPlan(fs, endpoint, assets, path);
      forall j :: 0 <= j < |plan| && plan[j].PostAsset? ==>
        && j == |plan| - 1
        && plan[j].name == PosixPath.Basename(path)
        && forall a :: a in assets && a.name == plan[j].name ==> Request.DeleteAsset(a.id) in plan[..j]
  {
    var name := PosixPath.Basename(path);
    var deletes := DeleteRequests(Matching(assets, name));
    var plan := PathPlan(fs, endpoint, assets, path);
    if Mime.GetMimetype(path, fs(path)).Success? {
      assert plan == deletes + [PostAsset(endpoint, name, Mime.GetMimetype(path, fs(path)).value)];
      assert plan[..|deletes|] == deletes;
      forall j | 0 <= j < |deletes|
        ensures !plan[j].PostAsset?
      {
        assert plan[j] == deletes[j];
        assert deletes[j] in deletes;
      }
    } else {
      assert plan == deletes;
      forall j | 0 <= j < |plan|
        ensures !plan[j].PostAsset?
      {
        assert plan[j] in deletes;
      }
    }
  }

  /** In `trace`, every upload comes after the deletion of every asset of
      `assets` that carries the uploaded name. */
  predicate DeletesPrecedeUploads(trace: seq<Request>, assets: seq<Asset>)
  {
    forall j :: 0 <= j < |trace| && trace[j].PostAsset? ==>
      forall a :: a in assets && a.name == trace[j].name ==> Request.DeleteAsset(a.id) in trace[..j]
  }

  lemma DeletesPrecedeUploadsAppend(x: seq<Request>, y: seq<Request>, assets: seq<Asset>)
    requires DeletesPrecedeUploads(x, assets) && DeletesPrecedeUploads(y, assets)
    ensures DeletesPrecedeUploads(x + y, assets)
  {
    var t := x + y;
    forall j | 0 <= j < |t| && t[j].PostAsset?
      ensures forall a :: a in assets && a.name == t[j].name ==> Request.DeleteAsset(a.id) in t[..j]
    {
      if j < |x| {
        assert t[j] == x[j];
        assert t[..j] == x[..j];
      } else {
        var j' := j - |x|;
        assert t[j] == y[j'];
        assert t[..j] == x + y[..j'];
      }
    }
  }

  /** A prefix of a trace keeps the order of its deletions and uploads. */
  lemma DeletesPrecedeUploadsPrefix(t: seq<Request>, plan: seq<Request>, assets: seq<Asset>)
    requires t <= plan && DeletesPrecedeUploads(plan, assets)
    ensures DeletesPrecedeUploads(t, assets)
  {
    forall j | 0 <= j < |t| && t[j].PostAsset?
      ensures forall a :: a in assets && a.name == t[j].name ==> Request.DeleteAsset(a.id) in t[..j]
    {
      assert t[j] == plan[j];
      assert t[..j] == plan[..j];
    }
  }

  /** Every upload of the plan comes after the deletion of every listed asset that
      carries the uploaded name. */
  lemma {:induction false} PlannedDeletesBeforeUpload(fs: Mime.FileSystem, endpoint: string, assets: seq<Asset>,
                                                      paths: seq<string>)
    ensures DeletesPrecedeUploads(Planned(fs, endpoint, assets, paths), assets)
    decreases |paths|
  {
    if paths != [] {
      var here := PathPlan(fs, endpoint, assets, paths[0]);
      PathPlanDeletesFirst(fs, endpoint, assets, paths[0]);
      assert DeletesPrecedeUploads(here, assets);
      if Mime.GetMimetype(paths[0], fs(paths[0])).Success? {
        PlannedDeletesBeforeUpload(fs, endpoint, assets, paths[1..]);
        DeletesPrecedeUploadsAppend(here, Planned(fs, endpoint, assets, paths[1..]), assets);
      }
    }
  }

  /** The uploads of the plan of a path whose content type is known: its upload,
      then those of the remaining paths. */
  lemma PlannedUploadsStep(fs: Mime.FileSystem, endpoint: string, assets: seq<Asset>, paths: seq<string>)
    requires paths != [] && Mime.GetMimetype(paths[0], fs(paths[0])).Success?
    ensures Uploads(Planned(fs, endpoint, assets, paths))
         == [PostAsset(endpoint, PosixPath.Basename(paths[0]), Mime.GetMimetype(paths[0], fs(paths[0])).value)]
            + Uploads(Planned(fs, endpoint, assets, paths[1..]))
  {
    var name := PosixPath.Basename(paths[0]);
    var deletes := DeleteRequests(Matching(assets, name));
    var upload := PostAsset(endpoint, name, Mime.GetMimetype(paths[0], fs(paths[0])).value);
    var later := Planned(fs, endpoint, assets, paths[1..]);
    assert Planned(fs, endpoint, assets, paths) == (deletes + [upload]) + later;
    UploadsAfterDeletes(deletes, upload, later);
  }

  lemma UploadsAfterDeletes(deletes: seq<Request>, upload: Request, later: seq<Request>)
    requires forall i :: 0 <= i < |deletes| ==> deletes[i].DeleteAsset?
    requires upload.PostAsset?
    ensures Uploads((deletes + [upload]) + later) == [upload] + Uploads(later)
  {
    UploadsOfDeletes(deletes);
    UploadsOfOne(upload);
    UploadsAppend(deletes, [upload]);
    UploadsAppend(deletes + [upload], later);
  }

  lemma {:induction false} UploadsOfDeletes(deletes: seq<Request>)
    requires forall i :: 0 <= i < |deletes| ==> deletes[i].DeleteAsset?
    ensures Uploads(deletes) == []
    decreases |deletes|
  {
    if deletes != [] {
      assert deletes[0].DeleteAsset?;
      UploadsOfDeletes(deletes[1..]);
    }
  }

  lemma UploadsOfOne(upload: Request)
    requires upload.PostAsset?
    ensures Uploads([upload]) == [upload]
  {
    assert [upload][1..] == [];
  }

  /** `ups` are, in order, one upload per path, named after its basename and
      carrying its detected content type. */
  predicate UploadsMatchPaths(ups: seq<Request>, fs: Mime.FileSystem, endpoint: string, paths: seq<string>)
    requires AllMimesKnown(fs, paths)
  {
    && |ups| == |paths|
    && forall i :: 0 <= i < |paths| ==>
         ups[i] == PostAsset(endpoint, PosixPath.Basename(paths[i]), Mime.GetMimetype(paths[i], fs(paths[i])).value)
  }

  lemma AllMimesKnownTail(fs: Mime.FileSystem, paths: seq<string>)
    requires paths != [] && AllMimesKnown(fs, paths)
    ensures AllMimesKnown(fs, paths[1..])
  {
    forall i | 0 <= i < |paths[1..]|
      ensures Mime.GetMimetype(paths[1..][i], fs(paths[1..][i])).Success?
    {
      assert paths[1..][i] == paths[i + 1];
    }
  }

  lemma UploadsMatchPathsCons(up: Request, later: seq<Request>, fs: Mime.FileSystem, endpoint: string, paths: seq<string>)
    requires paths != [] && AllMimesKnown(fs, paths)
    requires up == PostAsset(endpoint, PosixPath.Basename(paths[0]), Mime.GetMimetype(paths[0], fs(paths[0])).value)
    requires AllMimesKnown(fs, paths[1..]) && UploadsMatchPaths(later, fs, endpoint, paths[1..])
    ensures UploadsMatchPaths([up] + later, fs, endpoint, paths)
  {
    var ups := [up] + later;
    forall i | 0 <= i < |paths|
      ensures ups[i] == PostAsset(endpoint, PosixPath.Basename(paths[i]), Mime.GetMimetype(paths[i], fs(paths[i])).value)
    {
      if i > 0 {
        assert ups[i] == later[i - 1];
        assert paths[i] == paths[1..][i - 1];
      }
    }
  }

  /** When every content type is detected, the plan uploads every path once, in
      input order, under its basename and with its detected content type. */
  lemma {:induction false} PlannedUploadsFollowPaths(fs: Mime.FileSystem, endpoint: string, assets: seq<Asset>,
                                                     paths: seq<string>)
    requires AllMimesKnown(fs, paths)
    ensures UploadsMatchPaths(Uploads(Planned(fs, endpoint, assets, paths)), fs, endpoint, paths)
    decreases |paths|
  {
    if paths != [] {
      assert Mime.GetMimetype(paths[0], fs(paths[0])).Success?;
      AllMimesKnownTail(fs, paths);
      PlannedUploadsFollowPaths(fs, endpoint, assets, paths[1..]);
      PlannedUploadsStep(fs, endpoint, assets, paths);
      UploadsMatchPathsCons(PostAsset(endpoint, PosixPath.Basename(paths[0]), Mime.GetMimetype(paths[0], fs(paths[0])).value),
                            Uploads(Planned(fs, endpoint, assets, paths[1..])), fs, endpoint, paths);
    }
  }
}
