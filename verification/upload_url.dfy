/** The upload endpoint of a release: the `upload_url` the API returns, with its
    URI-template suffix `{?name,label}` cut off. */
module UploadUrl {
  import opened Results
  import opened Errors
  import Text

  /** `p` is the longest prefix of `s` that contains no `{`. */
  predicate IsLongestBracelessPrefix(p: string, s: string)
  {
    && |p| <= |s|
    && p == s[..|p|]
    && '{' !in p
    && (|p| == |s| || s[|p|] == '{')
  }

  /** `re.match(r"([^{]+)(?:\{.*\})?", url).group(1)`: the regular expression is
      anchored at the start only and its optional tail may match nothing, so it
      matches exactly when the first character exists and is not `{`, and the
      group is then the longest `{`-free prefix. */
  function StripAssetUploadUrl(url: string): (r: Outcome<string>)
    ensures r.Failure? <==> url == [] || url[0] == '{'
    ensures r.Failure? ==> r.error == InvalidUploadUrl
    ensures r.Success? ==> r.value != [] && IsLongestBracelessPrefix(r.value, url)
  {
    var k := Text.PrefixLengthWithout(url, '{');
    if k == 0 then Failure(InvalidUploadUrl) else Success(url[..k])
  }

  /** A non-empty URL without a template suffix comes back unchanged. */
  lemma StripKeepsPlainUrl(url: string)
    requires url != [] && '{' !in url
    ensures StripAssetUploadUrl(url) == Success(url)
  {
    assert url[..|url|] == url;
  }

  /** Stripping an already stripped URL changes nothing. */
  lemma StripIdempotent(url: string)
    requires StripAssetUploadUrl(url).Success?
    ensures StripAssetUploadUrl(StripAssetUploadUrl(url).value) == StripAssetUploadUrl(url)
  {
    StripKeepsPlainUrl(StripAssetUploadUrl(url).value);
  }

  /** The endpoint is the part before the first `{`, however the template reads. */
  lemma StripCutsTemplate(endpoint: string, template: string)
    requires endpoint != [] && '{' !in endpoint
    ensures StripAssetUploadUrl(endpoint + "{" + template) == Success(endpoint)
  {
    var url := endpoint + "{" + template;
    assert url[|endpoint|] == '{';
    assert url[..|endpoint|] == endpoint;
  }

  lemma StripExample()
    ensures StripAssetUploadUrl("https://host/path{?name,label}") == Success("https://host/path")
  {
    StripCutsTemplate("https://host/path", "?name,label}");
    assert "https://host/path" + "{" + "?name,label}" == "https://host/path{?name,label}";
  }
}
