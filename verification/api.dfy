/** The remote release API, seen as an oracle of already decoded replies. Every
    request the tool issues is recorded; the oracle answers a request given the
    whole history of requests up to and including it, so the same request may be
    answered differently later in a run. Host names, project names, URLs and
    credentials only shape the text of the HTTP requests and are not modelled. */
module Api {
  import opened Results
  import opened Errors

  /** A remote identifier as the JSON replies give it. */
  type Id = int

  /** A release: its id and the literal endpoint assets are uploaded to. */
  datatype Release = Release(id: Id, uploadEndpoint: string)

  /** An asset attached to a release. */
  datatype Asset = Asset(id: Id, name: string)

  /** The fields of a release object the tool reads; `None` is a missing key. */
  datatype ReleaseJson = ReleaseJson(id: Option<Id>, uploadUrl: Option<string>)

  /** The fields of an asset object the tool reads; `None` is a missing key. */
  datatype AssetJson = AssetJson(id: Option<Id>, name: Option<string>)

  /** The JSON body posted to create a release. */
  datatype ReleaseDraft = ReleaseDraft(tagName: string, name: string, body: string, draft: bool, prerelease: bool)

  /** The requests the tool issues. */
  datatype Request =
    | GetTags                                             // GET /repos/<project>/tags
    | GetRelease(tag: string)                             // GET /repos/<project>/releases/tags/<tag>
    | PostRelease(release: ReleaseDraft)                  // POST /repos/<project>/releases
    | GetAssets(releaseId: Id)                            // GET /repos/<project>/releases/<id>/assets
    | DeleteAsset(assetId: Id)                            // DELETE /repos/<project>/releases/assets/<id>
    | PostAsset(endpoint: string, name: string, contentType: string)  // POST <endpoint>?name=<name>
  {
    /** The requests that change remote state. */
    predicate IsMutation()
    {
      PostRelease? || DeleteAsset? || PostAsset?
    }
  }

  /** A reply whose body is JSON: the decoded body, an HTTP error status raised by
      `raise_for_status`, or a body that is not JSON at all. */
  datatype Reply<+T> = Ok(value: T) | HttpError(status: int) | InvalidJson

  /** A reply whose body the tool never reads. */
  datatype Ack = Accepted | Rejected(status: int)

  /** The server. Each function receives the history of requests, the last of
      which is the one being answered. */
  datatype Server = Server(
    tags: seq<Request> -> Reply<seq<Option<string>>>,
    release: seq<Request> -> Reply<ReleaseJson>,
    assets: seq<Request> -> Reply<seq<AssetJson>>,
    ack: seq<Request> -> Ack
  )

  /** One step of the tool: its outcome and the requests it issued, in order. */
  datatype Call<T> = Call(result: Outcome<T>, issued: seq<Request>)
}
