/** The remote release client: the functions nested in `publish_release_from_tag`
    that each issue one request and translate its failures into the error
    taxonomy. Every function takes the history `h` of requests issued before it. */
module Client {
  import opened Results
  import opened Errors
  import opened Api
  import Mime
  import PosixPath
  import UploadUrl

  /** `fetch_latest_tag`: the name of the first entry of the tag list, which the
      server orders newest first. */
  function FetchLatestTag(server: Server, h: seq<Request>): (c: Call<string>)
    ensures c.issued == [GetTags]
    ensures var reply := server.tags(h + [GetTags]);
      && (c.result.Success? <==> reply.Ok? && |reply.value| > 0 && reply.value[0].Some?)
      && (c.result.Success? ==> c.result.value == reply.value[0].value)
      && (reply.HttpError? ==> c.result == Failure(Http))
      && (reply.Ok? && |reply.value| == 0 ==> c.result == Failure(NoTagsAvailable))
      && (reply.Ok? && |reply.value| > 0 && reply.value[0].None? ==> c.result == Failure(Json))
      && (reply.InvalidJson? ==> c.result == Failure(Json))
  {
    var request := GetTags;
    var result :=
      match server.tags(h + [request])
      case HttpError(_) => Failure(Http)
      case InvalidJson => Failure(Json)
      case Ok(tags) =>
        if |tags| == 0 then Failure(NoTagsAvailable)
        else if tags[0].None? then Failure(Json)
        else Success(tags[0].value);
    Call(result, [request])
  }

  /** A release object read the way both release functions read it: `upload_url`
      first, stripped, then `id`. A missing key raises `missingKey`. */
  function DecodeRelease(json: ReleaseJson, missingKey: ErrorKind): (r: Outcome<Release>)
    ensures r.Success? <==> json.uploadUrl.Some? && json.id.Some? && UploadUrl.StripAssetUploadUrl(json.uploadUrl.value).Success?
    ensures r.Success? ==> r.value == Release(json.id.value, UploadUrl.StripAssetUploadUrl(json.uploadUrl.value).value)
    ensures json.uploadUrl.None? ==> r == Failure(missingKey)
    ensures json.uploadUrl.Some? && UploadUrl.StripAssetUploadUrl(json.uploadUrl.value).Failure? ==>
      r == Failure(InvalidUploadUrl)
    ensures json.uploadUrl.Some? && UploadUrl.StripAssetUploadUrl(json.uploadUrl.value).Success? && json.id.None? ==>
      r == Failure(missingKey)
    ensures r.Failure? ==> r.error == missingKey || r.error == InvalidUploadUrl
  {
    match json.uploadUrl
    case None => Failure(missingKey)
    case Some(url) =>
      match UploadUrl.StripAssetUploadUrl(url)
      case Failure(e) => Failure(e)
      case Success(endpoint) =>
        match json.id
        case None => Failure(missingKey)
        case Some(id) => Success(Release(id, endpoint))
  }

  /** `fetch_existing_release`: only HTTP errors are translated; a 404 means there
      is no release yet. A missing key or a body that is not JSON escapes
      untranslated. */
  function FetchExistingRelease(server: Server, h: seq<Request>, tag: string): (c: Call<Option<Release>>)
    ensures c.issued == [GetRelease(tag)]
    ensures var reply := server.release(h + [GetRelease(tag)]);
      && (reply == HttpError(404) <==> c.result == Success(None))
      && (reply.HttpError? && reply.status != 404 ==> c.result == Failure(Http))
      && (reply.InvalidJson? ==> c.result == Failure(Unclassified))
      && (reply.Ok? ==>
            && (c.result.Success? <==> DecodeRelease(reply.value, Unclassified).Success?)
            && (c.result.Success? ==> c.result.value == Some(DecodeRelease(reply.value, Unclassified).value))
            && (c.result.Failure? ==> c.result.error == DecodeRelease(reply.value, Unclassified).error))
  {
    var request := GetRelease(tag);
    var result :=
      match server.release(h + [request])
      case HttpError(status) => if status == 404 then Success(None) else Failure(Http)
      case InvalidJson => Failure(Unclassified)
      case Ok(json) =>
        match DecodeRelease(json, Unclassified)
        case Failure(e) => Failure(e)
        case Success(release) => Success(Some(release));
    Call(result, [request])
  }

  /** The fixed metadata of a release created for `tag`. */
  function NewReleaseDraft(tag: string): ReleaseDraft
  {
    ReleaseDraft(tag, tag, "", false, false)
  }

  /** `create_release`: a missing key and a body that is not JSON are JSON errors. */
  function CreateRelease(server: Server, h: seq<Request>, tag: string): (c: Call<Release>)
    ensures c.issued == [PostRelease(ReleaseDraft(tag, tag, "", false, false))]
    ensures var reply := server.release(h + c.issued);
      && (reply.HttpError? ==> c.result == Failure(Http))
      && (reply.InvalidJson? ==> c.result == Failure(Json))
      && (reply.Ok? ==> c.result == DecodeRelease(reply.value, Json))
    ensures c.result.Failure? ==> c.result.error in {Http, Json, InvalidUploadUrl}
  {
    var request := PostRelease(NewReleaseDraft(tag));
    var result :=
      match server.release(h + [request])
      case HttpError(_) => Failure(Http)
      case InvalidJson => Failure(Json)
      case Ok(json) => DecodeRelease(json, Json);
    Call(result, [request])
  }

  /** `publish_release`: the existing release for `tag`, created when there is none. */
  function PublishRelease(server: Server, h: seq<Request>, tag: string): (c: Call<Release>)
    ensures |c.issued| >= 1 && c.issued[0] == GetRelease(tag)
    ensures |c.issued| <= 2
    ensures |c.issued| == 2 <==> server.release(h + [GetRelease(tag)]) == HttpError(404)
    ensures c.result.Failure? ==> c.result.error in {Http, Json, InvalidUploadUrl, Unclassified}
  {
    var fetched := FetchExistingRelease(server, h, tag);
    match fetched.result
    case Failure(e) => Call(Failure(e), fetched.issued)
    case Success(Some(release)) => Call(Success(release), fetched.issued)
    case Success(None) =>
      var created := CreateRelease(server, h + fetched.issued, tag);
      Call(created.result, fetched.issued + created.issued)
  }

  /** Release resolution: a found release is used as is, a 404 leads to exactly one
      creation request with the fixed metadata, and any other HTTP status is an
      HTTP error after which nothing more is requested. */
  lemma ReleaseResolution(server: Server, h: seq<Request>, tag: string)
    ensures var c := PublishRelease(server, h, tag);
      var lookup := server.release(h + [GetRelease(tag)]);
      && (lookup.Ok? ==> c.issued == [GetRelease(tag)])
      && (lookup.Ok? && c.result.Success? ==>
            && lookup.value.id == Some(c.result.value.id)
            && lookup.value.uploadUrl.Some?
            && UploadUrl.StripAssetUploadUrl(lookup.value.uploadUrl.value) == Success(c.result.value.uploadEndpoint))
      && (lookup.Ok? && (lookup.value.uploadUrl.None? || lookup.value.id.None?) ==> c.result.Failure?)
      && (lookup.Ok? && lookup.value.uploadUrl.None? ==> c.result == Failure(Unclassified))
      && (lookup.Ok? && lookup.value.uploadUrl.Some? && UploadUrl.StripAssetUploadUrl(lookup.value.uploadUrl.value).Failure? ==>
            c.result == Failure(InvalidUploadUrl))
      && (lookup.Ok? && lookup.value.uploadUrl.Some? && lookup.value.id.None?
            && UploadUrl.StripAssetUploadUrl(lookup.value.uploadUrl.value).Success? ==>
            c.result == Failure(Unclassified))
      && (lookup.InvalidJson? ==> c == Call(Failure(Unclassified), [GetRelease(tag)]))
      && (lookup == HttpError(404) ==>
            && c.issued == [GetRelease(tag), PostRelease(ReleaseDraft(tag, tag, "", false, false))]
            && var created := server.release(h + c.issued);
            && (created.HttpError? ==> c.result == Failure(Http))
            && (created.InvalidJson? ==> c.result == Failure(Json))
            && (created.Ok? && created.value.uploadUrl.None? ==> c.result == Failure(Json))
            && (created.Ok? && created.value.uploadUrl.Some? ==>
                  var stripped := UploadUrl.StripAssetUploadUrl(created.value.uploadUrl.value);
                  && (stripped.Failure? ==> c.result == Failure(InvalidUploadUrl))
                  && (stripped.Success? && created.value.id.None? ==> c.result == Failure(Json))
                  && (stripped.Success? && created.value.id.Some? ==>
                        c.result == Success(Release(created.value.id.value, stripped.value)))))
      && (lookup.HttpError? && lookup.status != 404 ==> c == Call(Failure(Http), [GetRelease(tag)]))
  {
    var get := GetRelease(tag);
    if server.release(h + [get]) == HttpError(404) {
      var post := PostRelease(NewReleaseDraft(tag));
      assert (h + [get]) + [post] == h + [get, post];
    }
  }

  /** The asset list, or `None` when an entry lacks `id` or `name` (a KeyError). */
  function DecodeAssets(entries: seq<AssetJson>): (r: Option<seq<Asset>>)
    ensures r.Some? <==> forall i :: 0 <= i < |entries| ==> entries[i].id.Some? && entries[i].name.Some?
    ensures r.Some? ==> |r.value| == |entries|
    ensures r.Some? ==> forall i :: 0 <= i < |entries| ==> r.value[i] == Asset(entries[i].id.value, entries[i].name.value)
  {
    if entries == [] then Some([])
    else
      var e := entries[0];
      match DecodeAssets(entries[1..])
      case None => None
      case Some(rest) =>
        if e.id.Some? && e.name.Some? then Some([Asset(e.id.value, e.name.value)] + rest)
        else None
  }

  /** `list_assets`: the assets attached to `release`. */
  function ListAssets(server: Server, h: seq<Request>, release: Release): (c: Call<seq<Asset>>)
    ensures c.issued == [GetAssets(release.id)]
    ensures var reply := server.assets(h + [GetAssets(release.id)]);
      && (c.result.Success? <==> reply.Ok? && DecodeAssets(reply.value).Some?)
      && (c.result.Success? ==> c.result.value == DecodeAssets(reply.value).value)
      && (c.result.Failure? ==> c.result.error == (if reply.HttpError? then Http else Json))
  {
    var request := GetAssets(release.id);
    var result :=
      match server.assets(h + [request])
      case HttpError(_) => Failure(Http)
      case InvalidJson => Failure(Json)
      case Ok(entries) =>
        match DecodeAssets(entries)
        case None => Failure(Json)
        case Some(assets) => Success(assets);
    Call(result, [request])
  }

  /** `delete_asset`: one DELETE by id. */
  function DeleteAsset(server: Server, h: seq<Request>, asset: Asset): (c: Call<()>)
    ensures c.issued == [Request.DeleteAsset(asset.id)]
    ensures c.result.Success? <==> server.ack(h + c.issued).Accepted?
    ensures c.result.Failure? ==> c.result.error == Http
  {
    var request := Request.DeleteAsset(asset.id);
    match server.ack(h + [request])
    case Accepted => Call(Success(()), [request])
    case Rejected(_) => Call(Failure(Http), [request])
  }

  /** `upload_asset`: the content type is detected first, and a failure there is
      raised before any request; then one POST named after the path's basename. */
  function UploadAsset(server: Server, fs: Mime.FileSystem, h: seq<Request>, release: Release, path: string): (c: Call<()>)
    ensures Mime.GetMimetype(path, fs(path)).Failure? ==> c == Call(Failure(Mime.GetMimetype(path, fs(path)).error), [])
    ensures Mime.GetMimetype(path, fs(path)).Success? ==>
      && c.issued == [PostAsset(release.uploadEndpoint, PosixPath.Basename(path), Mime.GetMimetype(path, fs(path)).value)]
      && (c.result.Success? <==> server.ack(h + c.issued).Accepted?)
      && (c.result.Failure? ==> c.result.error == Http)
  {
    var name := PosixPath.Basename(path);
    match Mime.GetMimetype(path, fs(path))
    case Failure(e) => Call(Failure(e), [])
    case Success(mime) =>
      var request := PostAsset(release.uploadEndpoint, name, mime);
      match server.ack(h + [request])
      case Accepted => Call(Success(()), [request])
      case Rejected(_) => Call(Failure(Http), [request])
  }
}
