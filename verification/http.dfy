/** The HTTP values the core passes around. `Request` and `IResponse` are
    collaborators whose source is not part of this model; they are reduced to
    the members the core reads and writes. */
module Http {
  import opened Wrappers

  /** A `System.Uri`: its text and whether it parsed as an absolute URI. */
  datatype Uri = Uri(text: string, isAbsolute: bool)

  /** The HTTP verbs the connection sends (`HttpMethod`, `HttpVerb.Patch`). */
  datatype Method = Get | Post | Put | Patch | Delete

  /** A request or response body other than `null`. The object graphs behind
      `Stream`, `HttpContent` and any other object are opaque: they are named
      by a handle. */
  datatype Body =
    | Text(text: string)
    | Stream(handle: nat)
    | Content(handle: nat)
    | Object(handle: nat)

  /** One header of a response, in the dictionary's enumeration order. */
  type Header = (string, string)

  /** An `IResponse` as produced by the transport. */
  datatype Response = Response(
    statusCode: int,
    headers: seq<Header>,
    contentType: Option<string>,
    body: Option<Body>)

  /** A snapshot of every field of a `Request`. */
  datatype RequestData = RequestData(
    verb: Method,
    baseAddress: Uri,
    endpoint: Uri,
    timeout: Option<int>,
    headers: map<string, string>,
    body: Option<Body>,
    contentType: Option<string>)

  /** The mutable request object built once per call and then updated in
      place by the request builder, the JSON pipeline and the authenticator. */
  class Request {
    var verb: Method
    var baseAddress: Uri
    var endpoint: Uri
    var timeout: Option<int>
    var headers: map<string, string>
    var body: Option<Body>
    var contentType: Option<string>

    function Data(): RequestData
      reads this
    {
      RequestData(verb, baseAddress, endpoint, timeout, headers, body, contentType)
    }

    /** The object initialiser `new Request { Method, BaseAddress, Endpoint, Timeout }`:
        no headers, no body, no content type. */
    constructor (verb: Method, baseAddress: Uri, endpoint: Uri, timeout: Option<int>)
      ensures Data() == RequestData(verb, baseAddress, endpoint, timeout, map[], None, None)
    {
      this.verb := verb;
      this.baseAddress := baseAddress;
      this.endpoint := endpoint;
      this.timeout := timeout;
      this.headers := map[];
      this.body := None;
      this.contentType := None;
    }
  }

  /** The injected transport (`IHttpClient.Send`): it never raises on a status code. */
  datatype HttpClient = HttpClient(send: RequestData -> Response)

  /** `IApiResponse<T>`: the original response and, when it was deserialized, the data. */
  datatype ApiResponse<D> = ApiResponse(httpResponse: Response, body: Option<D>)

  /** The exceptions the core raises. */
  datatype Error =
    | ArgumentNull(paramName: string)          // ArgumentNullException
    | Argument(paramName: string)              // ArgumentException
    | InvalidOperation(message: string)        // InvalidOperationException
    | NullReference                            // NullReferenceException
    | Format                                   // FormatException
    | DuplicateKey(key: string)                // ArgumentException from Dictionary.Add
    | Authorization(response: Response)        // AuthorizationException
    | LoginAttemptsExceeded(response: Response) // LoginAttemptsExceededException
    | Abuse(response: Response)                // AbuseException
    | Forbidden(response: Response)            // ForbiddenException
    | NotFound(response: Response)             // NotFoundException
    | Api(response: Response)                  // ApiException built from a response
    | ApiStatus(message: string, status: int)  // ApiException built from a message and a status
}
