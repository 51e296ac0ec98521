/** `JsonHttpPipeline` (Syncthing/Http/JsonHttpPipeline.cs): request bodies
    to JSON on the way out, JSON bodies to typed data on the way back. The JSON
    library itself is uninterpreted: it is supplied by the caller. */
module JsonPipeline {
  import opened Wrappers
  import opened Text
  import opened Http

  const ApplicationJson: string := "application/json"
  const AcceptHeader: string := "Accept"

  /** What the pipeline asks of the target type `T` of `DeserializeResponse<T>`:
      whether it implements `IEnumerable` and whether it implements some
      constructed `IDictionary<K, V>`. */
  datatype TargetType = TargetType(isEnumerable: bool, implementsGenericDictionary: bool)

  /** `JsonConvert.SerializeObject` over object handles and
      `JsonConvert.DeserializeObject<T>` over texts. */
  datatype JsonConvert<D> = JsonConvert(
    serializeObject: nat -> string,
    deserializeObject: (TargetType, string) -> D)

  /** `typeof(IDictionary<,>).IsAssignableFrom(typeof(T))`: the open generic
      definition is assignable from no type argument, so this is false for
      every `T`, dictionaries included. */
  function IsAssignableFromOpenDictionary(t: TargetType): (b: bool)
    ensures !b
  {
    false
  }

  /** A string, a `Stream` or an `HttpContent` is sent as it is. */
  function PassesThrough(body: Body): (b: bool)
    ensures b <==> !body.Object?
  {
    body.Text? || body.Stream? || body.Content?
  }

  /** The request after `SerializeRequest`. */
  function Serialized(d: RequestData, serializeObject: nat -> string): (r: RequestData)
    ensures r == d.(headers := r.headers, body := r.body)
  {
    var headers := if AcceptHeader in d.headers then d.headers else d.headers[AcceptHeader := ApplicationJson];
    var body :=
      if d.verb == Get || d.body.None? || PassesThrough(d.body.value) then d.body
      else Some(Text(serializeObject(d.body.value.handle)));
    d.(headers := headers, body := body)
  }

  /** `Accept` is defaulted to `application/json` only when absent; an
      existing value and every other header are kept. */
  lemma SerializeDefaultsAccept(d: RequestData, serializeObject: nat -> string)
    ensures var h := Serialized(d, serializeObject).headers;
      && h.Keys == d.headers.Keys + {AcceptHeader}
      && h[AcceptHeader] == (if AcceptHeader in d.headers then d.headers[AcceptHeader] else ApplicationJson)
      && forall k :: k in d.headers ==> h[k] == d.headers[k]
  {
  }

  /** The body rules: untouched for GET, for no body and for raw bodies,
      otherwise replaced by its JSON text. */
  lemma SerializeBodyRules(d: RequestData, serializeObject: nat -> string)
    ensures d.verb == Get || d.body.None? ==> Serialized(d, serializeObject).body == d.body
    ensures d.body.Some? && PassesThrough(d.body.value) ==> Serialized(d, serializeObject).body == d.body
    ensures d.verb != Get && d.body.Some? && d.body.value.Object? ==>
      Serialized(d, serializeObject).body == Some(Text(serializeObject(d.body.value.handle)))
  {
  }

  /** Serializing an already serialized request changes nothing. */
  lemma SerializeIdempotent(d: RequestData, serializeObject: nat -> string)
    ensures Serialized(Serialized(d, serializeObject), serializeObject) == Serialized(d, serializeObject)
  {
  }

  /** `SerializeRequest(request)`, in place. */
  method SerializeRequest(request: Request?, serializeObject: nat -> string) returns (r: Outcome<Error>)
    modifies request
    ensures request == null ==> r == Fail(ArgumentNull("request"))
    ensures request != null ==> r == Pass && request.Data() == Serialized(old(request.Data()), serializeObject)
  {
    if request == null {
      return Fail(ArgumentNull("request"));
    }
    r := Pass;
    if AcceptHeader !in request.headers {
      request.headers := request.headers[AcceptHeader := ApplicationJson];
    }
    if request.verb == Get || request.body.None? {
      return;
    }
    var body := request.body.value;
    if body.Text? || body.Stream? || body.Content? {
      return;
    }
    request.body := Some(Text(serializeObject(body.handle)));
  }

  /** The response body as a string (`response.Body as string`) when the
      content type is exactly `application/json` and the body is neither
      empty nor `{}`; `None` means no deserialization. */
  function JsonBody(response: Response): (r: Option<string>)
    ensures r.Some? ==>
      && response.contentType == Some(ApplicationJson)
      && response.body == Some(Text(r.value)) && r.value != "" && r.value != "{}"
    ensures r.None? ==>
      || response.contentType != Some(ApplicationJson)
      || response.body.None? || !response.body.value.Text?
      || response.body.value.text == "" || response.body.value.text == "{}"
  {
    if response.contentType == Some(ApplicationJson)
       && response.body.Some? && response.body.value.Text?
       && !IsNullOrEmpty(Some(response.body.value.text))
       && response.body.value.text != "{}"
    then Some(response.body.value.text)
    else None
  }

  /** The text handed to the deserializer: a single object is wrapped in
      brackets when an enumerable is expected. */
  function WrappedForTarget(body: string, target: TargetType): (r: string)
    ensures r == body || r == "[" + body + "]"
  {
    var typeIsDictionary := IsAssignableFromOpenDictionary(target);
    var responseIsObject := StartsWith(body, "{");
    if !typeIsDictionary && target.isEnumerable && responseIsObject then "[" + body + "]" else body
  }

  /** `DeserializeResponse<T>(response)`. */
  function DeserializeResponse<D>(response: Option<Response>, target: TargetType, deserializeObject: (TargetType, string) -> D)
    : (r: Result<ApiResponse<D>, Error>)
    ensures response.None? ==> r == Failure(ArgumentNull("response"))
    ensures response.Some? ==> r.Success? && r.value.httpResponse == response.value
    ensures response.Some? ==> (r.value.body.Some? <==> JsonBody(response.value).Some?)
  {
    match response
    case None => Failure(ArgumentNull("response"))
    case Some(resp) =>
      match JsonBody(resp)
      case None => Success(ApiResponse(resp, None))
      case Some(body) => Success(ApiResponse(resp, Some(deserializeObject(target, WrappedForTarget(body, target)))))
  }

  /** Data is produced exactly for an `application/json` string body other than "" and "{}". */
  lemma DeserializeGate<D>(response: Response, target: TargetType, deserializeObject: (TargetType, string) -> D)
    ensures DeserializeResponse(Some(response), target, deserializeObject).value.body.Some?
      <==> && response.contentType == Some(ApplicationJson)
           && response.body.Some? && response.body.value.Text?
           && response.body.value.text != "" && response.body.value.text != "{}"
  {
  }

  /** The wrapping rule: `[` + body + `]` exactly when an enumerable is
      expected and the body's first character is `{`. */
  lemma WrapRule<D>(response: Response, target: TargetType, deserializeObject: (TargetType, string) -> D)
    requires JsonBody(response).Some?
    ensures var s := response.body.value.text;
      DeserializeResponse(Some(response), target, deserializeObject).value.body
        == Some(deserializeObject(target, if target.isEnumerable && StartsWith(s, "{") then "[" + s + "]" else s))
  {
  }

  /** A single object read into a sequence type is parsed as a one-element array. */
  lemma SingleObjectReadAsArray<D>(deserializeObject: (TargetType, string) -> D)
    ensures var response := Response(200, [], Some(ApplicationJson), Some(Text("{\"id\":\"a\"}")));
      var target := TargetType(true, false);
      DeserializeResponse(Some(response), target, deserializeObject).value.body
        == Some(deserializeObject(target, "[{\"id\":\"a\"}]"))
  {
    var s := "{\"id\":\"a\"}";
    assert StartsWith(s, "{") by { assert s[..1] == "{"; }
    assert "[" + s + "]" == "[{\"id\":\"a\"}]";
  }

  /** Even a dictionary target gets a single object wrapped in brackets,
      because the dictionary test never succeeds. */
  lemma DictionaryTargetIsWrapped(body: string)
    requires StartsWith(body, "{")
    ensures WrappedForTarget(body, TargetType(true, true)) == "[" + body + "]"
  {
  }

  /** Leading white space hides the object: no wrapping happens. */
  lemma LeadingWhiteSpaceIsNotWrapped(body: string)
    ensures WrappedForTarget(" " + body, TargetType(true, false)) == " " + body
  {
    assert (" " + body)[0] == ' ';
  }

  /** An empty object or an empty string gives a response without data, not an error. */
  lemma EmptyBodiesCarryNoData<D>(status: int, text: string, target: TargetType, deserializeObject: (TargetType, string) -> D)
    requires text == "" || text == "{}"
    ensures var response := Response(status, [], Some(ApplicationJson), Some(Text(text)));
      DeserializeResponse(Some(response), target, deserializeObject) == Success(ApiResponse(response, None))
  {
  }
}
