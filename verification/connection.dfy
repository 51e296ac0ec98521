/** `Connection` (Syncthing/Http/Connection.cs): builds one `Request` per call
    and runs it through the fixed pipeline serialize, authenticate, send,
    classify the status, deserialize. The transport and the JSON library are
    values the caller supplies. */
module HttpConnection {
  import opened Wrappers
  import opened Text
  import opened Http
  import opened HttpCredentials
  import opened Authentication
  import opened JsonPipeline

  /* ---------- error classification ---------- */

  const LoginAttemptsExceededMessage: string := "number of login attempts exceeded"
  const AbuseRateLimitsMessage: string := "abuse-rate-limits"
  const AbuseDetectionMessage: string := "abuse detection mechanism"

  /** `response.Body as string ?? ""`. */
  function BodyText(response: Response): (r: string)
    ensures response.body.Some? && response.body.value.Text? ==> r == response.body.value.text
    ensures response.body.None? || !response.body.value.Text? ==> r == ""
  {
    if response.body.Some? && response.body.value.Text? then response.body.value.text else ""
  }

  /** `GetExceptionForForbidden`: the body is searched for the login message
      first, then for either abuse message. */
  function ForbiddenError(response: Response): (e: Error)
    ensures e == LoginAttemptsExceeded(response) <==> Contains(BodyText(response), LoginAttemptsExceededMessage)
    ensures e == Abuse(response) <==>
      && !Contains(BodyText(response), LoginAttemptsExceededMessage)
      && (Contains(BodyText(response), AbuseRateLimitsMessage) || Contains(BodyText(response), AbuseDetectionMessage))
    ensures e.LoginAttemptsExceeded? || e.Abuse? || e.Forbidden?
    ensures e.response == response
  {
    var body := BodyText(response);
    if Contains(body, LoginAttemptsExceededMessage) then LoginAttemptsExceeded(response)
    else if Contains(body, AbuseRateLimitsMessage) || Contains(body, AbuseDetectionMessage) then Abuse(response)
    else Forbidden(response)
  }

  /** The factories of `HttpExceptionMap`. */
  datatype ExceptionFactory = ForUnauthorized | ForForbidden | ForNotFound

  /** `HttpExceptionMap`: the statuses with an exception of their own. */
  const HttpExceptionMap: map<int, ExceptionFactory> :=
    map[401 := ForUnauthorized, 403 := ForForbidden, 404 := ForNotFound]

  /** The exception a factory of the map builds for a response. */
  function Raise(factory: ExceptionFactory, response: Response): (e: Error)
    ensures e.Authorization? || e.LoginAttemptsExceeded? || e.Abuse? || e.Forbidden? || e.NotFound?
    ensures e.response == response
    ensures e.Authorization? <==> factory == ForUnauthorized
    ensures e.NotFound? <==> factory == ForNotFound
    ensures e.LoginAttemptsExceeded? || e.Abuse? || e.Forbidden? <==> factory == ForForbidden
  {
    match factory
    case ForUnauthorized => Authorization(response)
    case ForForbidden => ForbiddenError(response)
    case ForNotFound => NotFound(response)
  }

  /** The exceptions built from a response. */
  predicate FromResponse(e: Error) {
    e.Authorization? || e.LoginAttemptsExceeded? || e.Abuse? || e.Forbidden? || e.NotFound? || e.Api?
  }

  /** `HandleErrors(response)`: the exception it throws, or `None`. */
  function HandleErrors(response: Response): (r: Option<Error>)
    ensures r.None? <==> response.statusCode < 400
    ensures r.Some? ==> FromResponse(r.value) && r.value.response == response
  {
    if response.statusCode in HttpExceptionMap then Some(Raise(HttpExceptionMap[response.statusCode], response))
    else if response.statusCode >= 400 then Some(Api(response))
    else None
  }

  /** The classification table: 401, 403 (with its body rules), 404, any
      other status from 400 up, and no error below 400. */
  lemma Classification(response: Response)
    ensures response.statusCode == 401 ==> HandleErrors(response) == Some(Authorization(response))
    ensures response.statusCode == 403 ==> HandleErrors(response) == Some(ForbiddenError(response))
    ensures response.statusCode == 404 ==> HandleErrors(response) == Some(NotFound(response))
    ensures response.statusCode >= 400 && response.statusCode !in {401, 403, 404} ==>
      HandleErrors(response) == Some(Api(response))
  {
  }

  /** The login message wins over the abuse messages when both are present. */
  lemma LoginMessageTakesPrecedence(response: Response)
    requires response.statusCode == 403
    requires Contains(BodyText(response), LoginAttemptsExceededMessage)
    requires Contains(BodyText(response), AbuseDetectionMessage)
    ensures HandleErrors(response) == Some(LoginAttemptsExceeded(response))
  {
  }

  /** A 403 whose body is not a string is read as "" and is a plain Forbidden. */
  lemma NonTextForbiddenBody(response: Response)
    requires response.statusCode == 403
    requires response.body.None? || !response.body.value.Text?
    ensures HandleErrors(response) == Some(Forbidden(response))
  {
    EmptyContainsOnlyEmpty(LoginAttemptsExceededMessage);
    EmptyContainsOnlyEmpty(AbuseRateLimitsMessage);
    EmptyContainsOnlyEmpty(AbuseDetectionMessage);
  }

  lemma EmptyContainsOnlyEmpty(sub: string)
    requires sub != ""
    ensures !Contains("", sub)
  {
  }

  /* ---------- request building ---------- */

  /** The fields `SendDataInternal` writes: `Accept` when `accepts` is neither
      null nor empty; body and content type (defaulting to JSON) when there
      is a body. */
  function Built(d: RequestData, body: Option<Body>, accepts: Option<string>, contentType: Option<string>): (r: RequestData)
    ensures r == d.(headers := r.headers, body := r.body, contentType := r.contentType)
  {
    var headers := if !IsNullOrEmpty(accepts) then d.headers[AcceptHeader := accepts.value] else d.headers;
    if body.Some? then d.(headers := headers, body := body, contentType := Some(contentType.GetOr(ApplicationJson)))
    else d.(headers := headers)
  }

  /** `Accept` is written exactly when `accepts` is a non-empty string;
      no other header is touched. */
  lemma BuiltAccept(d: RequestData, body: Option<Body>, accepts: Option<string>, contentType: Option<string>)
    ensures var h := Built(d, body, accepts, contentType).headers;
      && (accepts.Some? && accepts.value != "" ==> h == d.headers[AcceptHeader := accepts.value])
      && (accepts.None? || accepts.value == "" ==> h == d.headers)
  {
  }

  /** A body sets the content type, JSON unless one is given; no body
      leaves both as they were. */
  lemma BuiltBody(d: RequestData, body: Option<Body>, accepts: Option<string>, contentType: Option<string>)
    ensures var r := Built(d, body, accepts, contentType);
      && (body.Some? ==> r.body == body && r.contentType == (if contentType.Some? then contentType else Some(ApplicationJson)))
      && (body.None? ==> r.body == d.body && r.contentType == d.contentType)
  {
  }

  /** A fresh request with the given fields, after `SendDataInternal`'s writes. */
  function Prepared(verb: Method, baseAddress: Uri, endpoint: Uri, timeout: Option<int>,
                    body: Option<Body>, accepts: Option<string>, contentType: Option<string>): (r: RequestData)
    ensures r.verb == verb && r.baseAddress == baseAddress && r.endpoint == endpoint && r.timeout == timeout
    ensures r.headers.Keys <= {AcceptHeader}
    ensures AcceptHeader in r.headers <==> !IsNullOrEmpty(accepts)
    ensures AcceptHeader in r.headers ==> r.headers[AcceptHeader] == accepts.value
    ensures r.body == body
    ensures r.contentType == if body.None? then None else Some(contentType.GetOr(ApplicationJson))
  {
    Built(RequestData(verb, baseAddress, endpoint, timeout, map[], None, None), body, accepts, contentType)
  }

  /* ---------- the pipeline ---------- */

  /** The request as it reaches the transport: serialized, then authenticated. */
  function Sent(d: RequestData, store: CredentialStore, serializeObject: nat -> string): (r: Result<RequestData, Error>)
    ensures r.Success? ==> AcceptHeader in r.value.headers
  {
    var s := Serialized(d, serializeObject);
    SerializeDefaultsAccept(d, serializeObject);
    Applied(s, store)
  }

  /** `Run`: serialize, `RunRequest` (authenticate, send, `HandleErrors`),
      deserialize. */
  function Executed<D>(d: RequestData, store: CredentialStore, client: HttpClient, json: JsonConvert<D>, target: TargetType)
    : (r: Result<ApiResponse<D>, Error>)
    ensures r.Success? ==> Sent(d, store, json.serializeObject).Success?
    ensures r.Success? ==> r.value.httpResponse == client.send(Sent(d, store, json.serializeObject).value)
    ensures r.Success? ==> r.value.httpResponse.statusCode < 400
  {
    match Sent(d, store, json.serializeObject)
    case Failure(e) => Failure(e)
    case Success(sent) =>
      var response := client.send(sent);
      match HandleErrors(response)
      case Some(e) => Failure(e)
      case None => DeserializeResponse(Some(response), target, json.deserializeObject)
  }

  /** The three outcomes of a call: the exception raised while serializing
      and authenticating, the exception `HandleErrors` raises for the
      transport's response, or that response read by `DeserializeResponse`. */
  lemma ExecutedOutcomes<D>(d: RequestData, store: CredentialStore, client: HttpClient, json: JsonConvert<D>, target: TargetType)
    ensures var sent := Sent(d, store, json.serializeObject);
      var r := Executed(d, store, client, json, target);
      && (sent.Failure? ==> r == Failure(sent.error))
      && (sent.Success? ==>
            var response := client.send(sent.value);
            && (HandleErrors(response).Some? ==> r == Failure(HandleErrors(response).value))
            && (HandleErrors(response).None? ==> r == DeserializeResponse(Some(response), target, json.deserializeObject)))
  {
  }

  /** When `HandleErrors` throws, the deserializer is never consulted: the
      outcome is the same whatever it does. */
  lemma ErrorSkipsDeserialization<D>(d: RequestData, store: CredentialStore, client: HttpClient,
                                     serializeObject: nat -> string,
                                     first: (TargetType, string) -> D, second: (TargetType, string) -> D,
                                     target: TargetType)
    requires Sent(d, store, serializeObject).Success?
    requires client.send(Sent(d, store, serializeObject).value).statusCode >= 400
    ensures Executed(d, store, client, JsonConvert(serializeObject, first), target)
         == Executed(d, store, client, JsonConvert(serializeObject, second), target)
    ensures Executed(d, store, client, JsonConvert(serializeObject, first), target).Failure?
  {
  }

  /** When authentication throws, nothing is sent: the outcome is the same
      whatever the transport does. */
  lemma AuthenticationFailureSendsNothing<D>(d: RequestData, store: CredentialStore,
                                             first: HttpClient, second: HttpClient,
                                             json: JsonConvert<D>, target: TargetType)
    requires Sent(d, store, json.serializeObject).Failure?
    ensures Executed(d, store, first, json, target) == Executed(d, store, second, json, target)
  {
  }

  /** What an API-key connection puts on the wire for a call with an object
      body and no `accepts`: JSON accept and content type, the serialized
      body, the key. */
  lemma ApiKeyObjectRequestOnTheWire(verb: Method, baseAddress: Uri, endpoint: Uri, handle: nat,
                                     key: string, serializeObject: nat -> string)
    requires verb != Get
    requires '{' !in key && '}' !in key
    ensures var d := Prepared(verb, baseAddress, endpoint, None, Some(Object(handle)), None, None);
      var sent := Sent(d, InMemory(Credentials(None, Some(key), ApiKey)), serializeObject);
      && sent.Success?
      && sent.value.headers == map[AcceptHeader := ApplicationJson, "X-API-Key" := key]
      && sent.value.body == Some(Text(serializeObject(handle)))
      && sent.value.contentType == Some(ApplicationJson)
      && sent.value.endpoint == endpoint && sent.value.verb == verb
  {
    var d := Prepared(verb, baseAddress, endpoint, None, Some(Object(handle)), None, None);
    ApiKeyStoreWritesKey(Serialized(d, serializeObject), key);
  }

  /* ---------- the connection ---------- */

  class Connection {
    /** `BaseAddress`, always absolute. */
    const baseAddress: Uri
    const authenticator: Authenticator
    const httpClient: HttpClient

    constructor (baseAddress: Uri, credentialStore: CredentialStore, httpClient: HttpClient)
      requires baseAddress.isAbsolute
      ensures this.baseAddress == baseAddress && this.httpClient == httpClient
      ensures fresh(authenticator) && authenticator.credentialStore == credentialStore
    {
      this.baseAddress := baseAddress;
      this.httpClient := httpClient;
      this.authenticator := new Authenticator(credentialStore);
    }

    /** `new Connection(baseAddress, credentialStore, httpClient)`: null
        checks in parameter order, then the base address must be absolute. */
    static method Create(baseAddress: Option<Uri>, credentialStore: Option<CredentialStore>, httpClient: Option<HttpClient>)
      returns (r: Result<Connection, Error>)
      ensures baseAddress.None? ==> r == Failure(ArgumentNull("baseAddress"))
      ensures baseAddress.Some? && credentialStore.None? ==> r == Failure(ArgumentNull("credentialStore"))
      ensures baseAddress.Some? && credentialStore.Some? && httpClient.None? ==> r == Failure(ArgumentNull("httpClient"))
      ensures baseAddress.Some? && credentialStore.Some? && httpClient.Some? && !baseAddress.value.isAbsolute ==>
        r == Failure(Argument("baseAddress"))
      ensures r.Success? <==> baseAddress.Some? && credentialStore.Some? && httpClient.Some? && baseAddress.value.isAbsolute
      ensures r.Success? ==>
        && fresh(r.value) && fresh(r.value.authenticator)
        && r.value.baseAddress == baseAddress.value
        && r.value.authenticator.credentialStore == credentialStore.value
        && r.value.httpClient == httpClient.value
    {
      if baseAddress.None? {
        return Failure(ArgumentNull("baseAddress"));
      }
      if credentialStore.None? {
        return Failure(ArgumentNull("credentialStore"));
      }
      if httpClient.None? {
        return Failure(ArgumentNull("httpClient"));
      }
      if !baseAddress.value.isAbsolute {
        return Failure(Argument("baseAddress"));
      }
      var c := new Connection(baseAddress.value, credentialStore.value, httpClient.value);
      r := Success(c);
    }

    /** `new Connection(baseAddress)`: the anonymous store and the default
        transport, here passed in. */
    static method CreateAnonymous(baseAddress: Option<Uri>, defaultClient: HttpClient) returns (r: Result<Connection, Error>)
      ensures baseAddress.None? ==> r == Failure(ArgumentNull("baseAddress"))
      ensures baseAddress.Some? && !baseAddress.value.isAbsolute ==> r == Failure(Argument("baseAddress"))
      ensures r.Success? <==> baseAddress.Some? && baseAddress.value.isAbsolute
      ensures r.Success? ==>
        && fresh(r.value)
        && r.value.baseAddress == baseAddress.value
        && r.value.httpClient == defaultClient
        && r.value.authenticator.credentialStore == InMemory(AnonymousCredentials)
    {
      r := Create(baseAddress, Some(InMemory(AnonymousCredentials)), Some(defaultClient));
    }

    /** The `Credentials` getter: a null task or a null result reads as
        `Credentials.Anonymous`. */
    function CurrentCredentials(): (c: Credentials)
      reads authenticator
      ensures authenticator.credentialStore.task.None? ==> c == AnonymousCredentials
      ensures StoredCredentials(authenticator.credentialStore).Success? ==>
        c == StoredCredentials(authenticator.credentialStore).value
    {
      match authenticator.credentialStore.task
      case None => AnonymousCredentials
      case Some(result) => result.GetOr(AnonymousCredentials)
    }

    /** The `Credentials` setter: a non-null value replaces the store with
        one that holds exactly that value. */
    method SetCredentials(value: Option<Credentials>) returns (r: Outcome<Error>)
      modifies authenticator
      ensures value.None? ==> r == Fail(ArgumentNull("value")) && authenticator.credentialStore == old(authenticator.credentialStore)
      ensures value.Some? ==> r == Pass && authenticator.credentialStore == InMemory(value.value)
      ensures value.Some? ==> CurrentCredentials() == value.value
    {
      if value.None? {
        return Fail(ArgumentNull("value"));
      }
      authenticator.credentialStore := InMemory(value.value);
      r := Pass;
    }

    /** `RunRequest`: authenticate, send, `HandleErrors`. */
    method RunRequest(request: Request) returns (r: Result<Response, Error>)
      modifies request
      ensures match Applied(old(request.Data()), authenticator.credentialStore)
        case Failure(e) => r == Failure(e)
        case Success(d) =>
          && request.Data() == d
          && var response := httpClient.send(d);
             r == (if HandleErrors(response).Some? then Failure(HandleErrors(response).value) else Success(response))
    {
      var applied := authenticator.Apply(request);
      if applied.Fail? {
        return Failure(applied.error);
      }
      var response := httpClient.send(request.Data());
      var error := HandleErrors(response);
      if error.Some? {
        return Failure(error.value);
      }
      r := Success(response);
    }

    /** `Run<T>`: serialize, `RunRequest`, deserialize. */
    method Run<D>(request: Request, json: JsonConvert<D>, target: TargetType) returns (r: Result<ApiResponse<D>, Error>)
      modifies request
      ensures r == Executed(old(request.Data()), authenticator.credentialStore, httpClient, json, target)
      ensures var sent := Sent(old(request.Data()), authenticator.credentialStore, json.serializeObject);
        sent.Success? ==> request.Data() == sent.value
    {
      var _ := SerializeRequest(request, json.serializeObject);
      var response := RunRequest(request);
      if response.Failure? {
        return Failure(response.error);
      }
      r := DeserializeResponse(Some(response.value), target, json.deserializeObject);
    }

    /** `SendDataInternal`: writes `Accept`, body and content type, then
        `Run`. The two-factor code is accepted and not used. */
    method SendDataInternal<D>(body: Option<Body>, accepts: Option<string>, contentType: Option<string>,
                               twoFactorAuthenticationCode: Option<string>, request: Request,
                               json: JsonConvert<D>, target: TargetType)
      returns (r: Result<ApiResponse<D>, Error>)
      modifies request
      ensures r == Executed(Built(old(request.Data()), body, accepts, contentType),
                            authenticator.credentialStore, httpClient, json, target)
      ensures var sent := Sent(Built(old(request.Data()), body, accepts, contentType),
                               authenticator.credentialStore, json.serializeObject);
        sent.Success? ==> request.Data() == sent.value
    {
      if !IsNullOrEmpty(accepts) {
        request.headers := request.headers[AcceptHeader := accepts.value];
      }
      if body.Some? {
        request.body := body;
        request.contentType := Some(contentType.GetOr(ApplicationJson));
      }
      r := Run(request, json, target);
    }

    /** `SendData` without a timeout: the base address is the per-call
        override when given, else `BaseAddress`. */
    method SendData<D>(uri: Option<Uri>, verb: Method, body: Option<Body>, accepts: Option<string>,
                       contentType: Option<string>, json: JsonConvert<D>, target: TargetType,
                       twoFactorAuthenticationCode: Option<string>, baseAddressOverride: Option<Uri>)
      returns (r: Result<ApiResponse<D>, Error>)
      ensures uri.None? ==> r == Failure(ArgumentNull("uri"))
      ensures uri.Some? ==>
        r == Executed(Prepared(verb, baseAddressOverride.GetOr(baseAddress), uri.value, None, body, accepts, contentType),
                      authenticator.credentialStore, httpClient, json, target)
    {
      if uri.None? {
        return Failure(ArgumentNull("uri"));
      }
      var request := new Request(verb, baseAddressOverride.GetOr(baseAddress), uri.value, None);
      r := SendDataInternal(body, accepts, contentType, twoFactorAuthenticationCode, request, json, target);
    }

    /** `SendData` with a timeout: a timeout that is not positive is
        rejected before any request exists. */
    method SendDataTimed<D>(uri: Option<Uri>, verb: Method, body: Option<Body>, accepts: Option<string>,
                            contentType: Option<string>, timeout: int, json: JsonConvert<D>, target: TargetType,
                            twoFactorAuthenticationCode: Option<string>, baseAddressOverride: Option<Uri>)
      returns (r: Result<ApiResponse<D>, Error>)
      ensures uri.None? ==> r == Failure(ArgumentNull("uri"))
      ensures uri.Some? && timeout <= 0 ==> r == Failure(Argument("timeout"))
      ensures uri.Some? && timeout > 0 ==>
        r == Executed(Prepared(verb, baseAddressOverride.GetOr(baseAddress), uri.value, Some(timeout), body, accepts, contentType),
                      authenticator.credentialStore, httpClient, json, target)
    {
      if uri.None? {
        return Failure(ArgumentNull("uri"));
      }
      if timeout <= 0 {
        return Failure(Argument("timeout"));
      }
      var request := new Request(verb, baseAddressOverride.GetOr(baseAddress), uri.value, Some(timeout));
      r := SendDataInternal(body, accepts, contentType, twoFactorAuthenticationCode, request, json, target);
    }

    /** `Get<T>(uri, parameters, accepts)`. `ApplyParameters` is not part of
        this model: it is passed in. */
    method Get<D>(uri: Option<Uri>, parameters: Option<map<string, string>>, accepts: Option<string>,
                  applyParameters: (Uri, Option<map<string, string>>) -> Uri, json: JsonConvert<D>, target: TargetType)
      returns (r: Result<ApiResponse<D>, Error>)
      ensures uri.None? ==> r == Failure(ArgumentNull("uri"))
      ensures uri.Some? ==>
        r == Executed(Prepared(Method.Get, baseAddress, applyParameters(uri.value, parameters), None, None, accepts, None),
                      authenticator.credentialStore, httpClient, json, target)
    {
      if uri.None? {
        return Failure(ArgumentNull("uri"));
      }
      r := SendData(Some(applyParameters(uri.value, parameters)), Method.Get, None, accepts, None, json, target, None, None);
    }

    /** `Get<T>(uri, timeout)`. */
    method GetWithTimeout<D>(uri: Option<Uri>, timeout: int, json: JsonConvert<D>, target: TargetType)
      returns (r: Result<ApiResponse<D>, Error>)
      ensures uri.None? ==> r == Failure(ArgumentNull("uri"))
      ensures uri.Some? && timeout <= 0 ==> r == Failure(Argument("timeout"))
      ensures uri.Some? && timeout > 0 ==>
        r == Executed(Prepared(Method.Get, baseAddress, uri.value, Some(timeout), None, None, None),
                      authenticator.credentialStore, httpClient, json, target)
    {
      if uri.None? {
        return Failure(ArgumentNull("uri"));
      }
      r := SendDataTimed(uri, Method.Get, None, None, None, timeout, json, target, None, None);
    }

    /** `Post<T>(uri, body, accepts, contentType)`. */
    method Post<D>(uri: Option<Uri>, body: Option<Body>, accepts: Option<string>, contentType: Option<string>,
                   json: JsonConvert<D>, target: TargetType)
      returns (r: Result<ApiResponse<D>, Error>)
      ensures uri.None? ==> r == Failure(ArgumentNull("uri"))
      ensures uri.Some? && body.None? ==> r == Failure(ArgumentNull("body"))
      ensures uri.Some? && body.Some? ==>
        r == Executed(Prepared(Method.Post, baseAddress, uri.value, None, body, accepts, contentType),
                      authenticator.credentialStore, httpClient, json, target)
    {
      if uri.None? {
        return Failure(ArgumentNull("uri"));
      }
      if body.None? {
        return Failure(ArgumentNull("body"));
      }
      r := SendData(uri, Method.Post, body, accepts, contentType, json, target, None, None);
    }

    /** `Post<T>(uri, body, accepts, contentType, twoFactorAuthenticationCode)`:
        the code is checked, then has no effect on what is sent. */
    method PostWithTwoFactor<D>(uri: Option<Uri>, body: Option<Body>, accepts: Option<string>, contentType: Option<string>,
                                twoFactorAuthenticationCode: Option<string>, json: JsonConvert<D>, target: TargetType)
      returns (r: Result<ApiResponse<D>, Error>)
      ensures uri.None? ==> r == Failure(ArgumentNull("uri"))
      ensures uri.Some? && body.None? ==> r == Failure(ArgumentNull("body"))
      ensures uri.Some? && body.Some? && twoFactorAuthenticationCode.None? ==>
        r == Failure(ArgumentNull("twoFactorAuthenticationCode"))
      ensures uri.Some? && body.Some? && twoFactorAuthenticationCode == Some("") ==>
        r == Failure(Argument("twoFactorAuthenticationCode"))
      ensures uri.Some? && body.Some? && !IsNullOrEmpty(twoFactorAuthenticationCode) ==>
        r == Executed(Prepared(Method.Post, baseAddress, uri.value, None, body, accepts, contentType),
                      authenticator.credentialStore, httpClient, json, target)
    {
      if uri.None? {
        return Failure(ArgumentNull("uri"));
      }
      if body.None? {
        return Failure(ArgumentNull("body"));
      }
      if twoFactorAuthenticationCode.None? {
        return Failure(ArgumentNull("twoFactorAuthenticationCode"));
      }
      if twoFactorAuthenticationCode.value == "" {
        return Failure(Argument("twoFactorAuthenticationCode"));
      }
      r := SendData(uri, Method.Post, body, accepts, contentType, json, target, twoFactorAuthenticationCode, None);
    }

    /** `Post<T>(uri, body, accepts, contentType, baseAddress)`: the request
        goes to the given base address, or to `BaseAddress` when it is null. */
    method PostToBaseAddress<D>(uri: Option<Uri>, body: Option<Body>, accepts: Option<string>, contentType: Option<string>,
                                baseAddressOverride: Option<Uri>, json: JsonConvert<D>, target: TargetType)
      returns (r: Result<ApiResponse<D>, Error>)
      ensures uri.None? ==> r == Failure(ArgumentNull("uri"))
      ensures uri.Some? && body.None? ==> r == Failure(ArgumentNull("body"))
      ensures uri.Some? && body.Some? ==>
        r == Executed(Prepared(Method.Post, baseAddressOverride.GetOr(baseAddress), uri.value, None, body, accepts, contentType),
                      authenticator.credentialStore, httpClient, json, target)
    {
      if uri.None? {
        return Failure(ArgumentNull("uri"));
      }
      if body.None? {
        return Failure(ArgumentNull("body"));
      }
      r := SendData(uri, Method.Post, body, accepts, contentType, json, target, None, baseAddressOverride);
    }

    /** `Put<T>(uri, body)`: no checks of its own; a null body sends no body. */
    method Put<D>(uri: Option<Uri>, body: Option<Body>, json: JsonConvert<D>, target: TargetType)
      returns (r: Result<ApiResponse<D>, Error>)
      ensures uri.None? ==> r == Failure(ArgumentNull("uri"))
      ensures uri.Some? ==>
        r == Executed(Prepared(Method.Put, baseAddress, uri.value, None, body, None, None),
                      authenticator.credentialStore, httpClient, json, target)
    {
      r := SendData(uri, Method.Put, body, None, None, json, target, None, None);
    }

    /** `Delete(uri, data)`: builds its request directly, with the body but
        without a content type, runs it, and returns the status code. */
    method DeleteWithBody<D>(uri: Option<Uri>, data: Option<Body>, json: JsonConvert<D>, target: TargetType)
      returns (r: Result<int, Error>)
      ensures uri.None? ==> r == Failure(ArgumentNull("uri"))
      ensures uri.Some? && data.None? ==> r == Failure(ArgumentNull("data"))
      ensures uri.Some? && data.Some? ==>
        var e := Executed(RequestData(Method.Delete, baseAddress, uri.value, None, map[], data, None),
                          authenticator.credentialStore, httpClient, json, target);
        r == (if e.Success? then Success(e.value.httpResponse.statusCode) else Failure(e.error))
    {
      if uri.None? {
        return Failure(ArgumentNull("uri"));
      }
      if data.None? {
        return Failure(ArgumentNull("data"));
      }
      var request := new Request(Method.Delete, baseAddress, uri.value, None);
      request.body := data;
      var response := Run(request, json, target);
      if response.Failure? {
        return Failure(response.error);
      }
      r := Success(response.value.httpResponse.statusCode);
    }
  }
}
