/** `ApiExtensions` (Syncthing/Helpers/ApiExtensions.cs): the 204/404
    boolean reading of a response and the checked `GetResponse` shortcut. */
module ApiExtensions {
  import opened Wrappers
  import opened Http
  import opened JsonPipeline
  import opened HttpConnection
  import HttpCredentials

  const NoContent: int := 204
  const NotFoundStatus: int := 404

  /** `IsTrue(response)`: 204 reads as true, 404 as false, anything else is
      an `ApiException` carrying the status. */
  function IsTrue(response: Option<Response>): (r: Result<bool, Error>)
    ensures response.None? ==> r == Failure(ArgumentNull("response"))
    ensures response.Some? ==> (r.Success? <==> response.value.statusCode in {NoContent, NotFoundStatus})
    ensures r.Success? ==> (r.value <==> response.value.statusCode == NoContent)
    ensures response.Some? && r.Failure? ==>
      r.error == ApiStatus("Invalid Status Code returned. Expected a 204 or a 404", response.value.statusCode)
  {
    match response
    case None => Failure(ArgumentNull("response"))
    case Some(resp) =>
      if resp.statusCode != NotFoundStatus && resp.statusCode != NoContent then
        Failure(ApiStatus("Invalid Status Code returned. Expected a 204 or a 404", resp.statusCode))
      else Success(resp.statusCode == NoContent)
  }

  /** `false` comes only from a 404, which the connection itself classifies
      as NotFound. */
  lemma FalseOnlyFromNotFound(response: Response)
    requires IsTrue(Some(response)) == Success(false)
    ensures response.statusCode == 404
    ensures HandleErrors(response) == Some(NotFound(response))
  {
  }

  /** A response that came back through the connection's pipeline never
      reads as `false`: its 404s were already raised as NotFound. */
  lemma PipelineResponseNeverFalse<D>(d: RequestData, store: HttpCredentials.CredentialStore, client: HttpClient,
                                      json: JsonConvert<D>, target: TargetType)
    requires Executed(d, store, client, json, target).Success?
    ensures IsTrue(Some(Executed(d, store, client, json, target).value.httpResponse)) != Success(false)
  {
  }

  /** `GetResponse<T>(connection, uri)`: both arguments checked, then
      `Get<T>(uri, null, null)`. */
  method GetResponse<D>(connection: Connection?, uri: Option<Uri>,
                        applyParameters: (Uri, Option<map<string, string>>) -> Uri,
                        json: JsonConvert<D>, target: TargetType)
    returns (r: Result<ApiResponse<D>, Error>)
    ensures connection == null ==> r == Failure(ArgumentNull("connection"))
    ensures connection != null && uri.None? ==> r == Failure(ArgumentNull("uri"))
    ensures connection != null && uri.Some? ==>
      r == Executed(Prepared(Get, connection.baseAddress, applyParameters(uri.value, None), None, None, None, None),
                    connection.authenticator.credentialStore, connection.httpClient, json, target)
  {
    if connection == null {
      return Failure(ArgumentNull("connection"));
    }
    if uri.None? {
      return Failure(ArgumentNull("uri"));
    }
    r := connection.Get(uri, None, None, applyParameters, json, target);
  }
}
