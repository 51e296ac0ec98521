/** `ApiInfo` (Syncthing/Http/ApiInfo.cs): the metadata read from the headers
    of a response. Every property has a private setter, so the record is a
    value. */
module Metadata {
  import opened Wrappers
  import opened Http

  /** Links by relation name, the two scope lists in header order, and the ETag.
      A link target is kept as the text the `Uri` was built from. */
  datatype ApiInfo = ApiInfo(
    links: map<string, string>,
    oauthScopes: seq<string>,
    acceptedOauthScopes: seq<string>,
    etag: Option<string>)

  /** `new ApiInfo(links, oauthScopes, acceptedOauthScopes, etag)`: the three
      collections must be non-null, checked in parameter order; a null etag is
      allowed. */
  function NewApiInfo(
    links: Option<map<string, string>>,
    oauthScopes: Option<seq<string>>,
    acceptedOauthScopes: Option<seq<string>>,
    etag: Option<string>): (r: Result<ApiInfo, Error>)
    ensures links.None? ==> r == Failure(ArgumentNull("links"))
    ensures links.Some? && oauthScopes.None? ==> r == Failure(ArgumentNull("oauthScopes"))
    ensures links.Some? && oauthScopes.Some? && acceptedOauthScopes.None? ==>
      r == Failure(ArgumentNull("acceptedOauthScopes"))
    ensures r.Success? <==> links.Some? && oauthScopes.Some? && acceptedOauthScopes.Some?
    ensures r.Success? ==>
      && r.value.links == links.value
      && r.value.oauthScopes == oauthScopes.value
      && r.value.acceptedOauthScopes == acceptedOauthScopes.value
      && r.value.etag == etag
  {
    if links.None? then Failure(ArgumentNull("links"))
    else if oauthScopes.None? then Failure(ArgumentNull("oauthScopes"))
    else if acceptedOauthScopes.None? then Failure(ArgumentNull("acceptedOauthScopes"))
    else Success(ApiInfo(links.value, oauthScopes.value, acceptedOauthScopes.value, etag))
  }

  /** `Clone()`: copies of the three collections and of the ETag's characters,
      handed to the constructor. The copy is equal to the original in every
      field, a null ETag included. */
  function Clone(info: ApiInfo): (c: ApiInfo)
    ensures c == info
    ensures c.etag.None? <==> info.etag.None?
  {
    var etag := match info.etag
      case None => None
      case Some(e) => Some(e[..]);
    NewApiInfo(Some(info.links), Some(info.oauthScopes), Some(info.acceptedOauthScopes), etag).value
  }
}
