# Syncthing REST client: the HTTP layer

This project models the HTTP core of the Syncthing .NET REST client in Dafny.
It covers:

- `Connection`, which builds one request per call and sends it through a fixed pipeline: serialize the body to JSON, apply the credentials, send, turn an error status into an exception, and deserialize a JSON body.
- `JsonHttpPipeline`, which does the two JSON steps.
- `Authenticator` and `ApiKeyAuthenticator`, which choose a handler by credential kind and write the `X-API-Key` header.
- `Credentials` and `AuthenticationType`.
- `ApiInfoParser` and `ApiInfo`, which read the OAuth scope lists, the ETag and the `Link` relations from the response headers.
- The `IsTrue` and `GetResponse` extensions.

How the source's constructs appear in the model:

- Exceptions are values of the `Http.Error` datatype, returned in a `Result` or an `Outcome`.
- A null argument is `None`; a nullable object reference is `T?`.
- The transport (`HttpClient.send`) is a function the caller supplies.
- The JSON library (`JsonConvert`) is a pair of functions the caller supplies: objects are opaque handles and target types are `TargetType` values.
- Request objects are mutated in place, so `Request`, `Authenticator` and `Connection` are classes. Their methods are proved against the functions `Serialized`, `Applied`, `Built` and `Executed`, which describe the new state and the result.
- The two regular expressions of `ApiInfoParser` are written out as direct searches:
  - `RelMatch` models `rel="(next|prev|first|last)"`: leftmost match, alternatives tried in order, case-insensitive, the group captured as written.
  - `UriMatch` models `<(.+)>`: leftmost `<`, greedy up to the last `>` before a line break.

The model reproduces these behaviours of the code as written:

- The API key is passed to `string.Format` as the format string. A key containing a lone brace therefore fails with `FormatException`, and `{{` is written as `{`.
- `typeof(IDictionary<,>).IsAssignableFrom(typeof(T))` is false for every `T`, so a dictionary target is wrapped in brackets like any other enumerable.
- The test for a single JSON object is `StartsWith("{")`, which does not skip leading white space.
- The two-factor code is checked and then has no effect on what is sent.
- A second `Link` segment with the same rel name raises `DuplicateKey`.

Further behaviours of the code that the model keeps:

- `Credentials.Anonymous` carries no secret, but the public two-argument constructor stores whatever kind it is given. It can therefore build an Anonymous-kind value that has a password (`AnonymousKindWithPassword`).
- The code tests only the first character of the response body for `{`. A body with leading white space is not wrapped (`LeadingWhiteSpaceIsNotWrapped`).
- The dictionary test never succeeds, so a dictionary target is not exempt from wrapping (`DictionaryTargetIsWrapped`).
- The code drops exactly-empty scope pieces before trimming the rest. `"a, ,b"` therefore gives `["a", "", "b"]` (`BlankScopeKeptAsEmpty`).

## Model

| member | source | states |
|---|---|---|
| HttpCredentials.WithType | Syncthing/Http/Credentials.cs:17-24 | a null key raises ArgumentNull("key") and an empty one Argument("key"); success exactly for a non-empty key; the result has no login, the key as password and the given kind |
| HttpCredentials.FromKey | Syncthing/Http/Credentials.cs:15 | the one-argument constructor succeeds exactly for a non-empty key and yields an API-key credential with that password; otherwise an argument error |
| HttpCredentials.AnonymousHasNoSecret | Syncthing/Http/Credentials.cs:8-13 | `Credentials.Anonymous` is of kind Anonymous with neither login nor password |
| HttpCredentials.AnonymousKindWithPassword | Syncthing/Http/Credentials.cs:17-24 | the two-argument constructor stores the kind it is given, so an Anonymous-kind credential can carry a password |
| Text.FormatNoArgs | Syncthing/Authentication/ApiKeyAuthenticator.cs:22 | `string.Format` with no arguments never lengthens its text (unescaping `{{` and `}}`); its behaviour is stated by the lemmas below |
| Text.FormatVerbatim | Syncthing/Authentication/ApiKeyAuthenticator.cs:22 | a brace-free format string is returned unchanged |
| Text.FormatEscapeRoundTrip | Syncthing/Authentication/ApiKeyAuthenticator.cs:22 | formatting a string whose braces were doubled gives back the original string |
| Text.FormatRejectsLoneBrace | Syncthing/Authentication/ApiKeyAuthenticator.cs:22 | a single `{` or `}` between brace-free text makes formatting fail |
| Text.FormatOnlyUnescapes | Syncthing/Authentication/ApiKeyAuthenticator.cs:22 | a format string that formats successfully is the brace-doubled form of its output, so formatting only ever unescapes |
| Text.FormatIffEscaped | Syncthing/Authentication/ApiKeyAuthenticator.cs:22 | a format string gives `s` exactly when it is `s` with its braces doubled |
| Text.FormatVerbatimIffBraceFree | Syncthing/Authentication/ApiKeyAuthenticator.cs:22 | a string formats to itself exactly when it holds no brace |
| ApiKeyAuthentication.AuthenticatedHeaders | Syncthing/Authentication/ApiKeyAuthenticator.cs:10-23 | a null password raises ArgumentNull("Password"); a non-null login raises InvalidOperation; a password that does not format raises a format error; success exactly when the password formats; then only `X-API-Key` changes and it holds the formatted password |
| ApiKeyAuthentication.PasswordWrittenVerbatim | Syncthing/Authentication/ApiKeyAuthenticator.cs:22 | a brace-free API key is written to `X-API-Key` verbatim |
| ApiKeyAuthentication.BracedPasswordRejected | Syncthing/Authentication/ApiKeyAuthenticator.cs:22 | the key `a{b` makes authentication fail with a format error |
| ApiKeyAuthentication.HeaderIsPasswordIffBraceFree | Syncthing/Authentication/ApiKeyAuthenticator.cs:22 | authenticating with an API key writes that key unchanged to `X-API-Key` exactly when the key has no brace |
| ApiKeyAuthentication.AuthenticateIdempotent | Syncthing/Authentication/ApiKeyAuthenticator.cs:22 | authenticating twice leaves the same headers as authenticating once |
| ApiKeyAuthentication.Authenticate | Syncthing/Authentication/ApiKeyAuthenticator.cs:10-23 | null request, then null credentials, raise ArgumentNull; otherwise the request's headers become `AuthenticatedHeaders`, or the request is unchanged and its error is returned |
| Authentication.RegistryCoversEveryKind | Syncthing/Authentication/Authenticator.cs:10-15 | the handler table maps exactly Anonymous and ApiKey, each to its own handler |
| Authentication.StoredCredentials | Syncthing/Authentication/Authenticator.cs:28 | awaiting a null task faults (and only then); a null result stands for `Credentials.Anonymous`; otherwise the stored value |
| Authentication.HandlerHeaders | Syncthing/Authentication/Authenticator.cs:29 | the anonymous handler leaves the headers as they are; the API-key handler gives `AuthenticatedHeaders` |
| Authentication.Applied | Syncthing/Authentication/Authenticator.cs:24-30 | a successful application changes only the request's headers |
| Authentication.AnonymousLeavesRequestUnchanged | Syncthing/Authentication/Authenticator.cs:28-29 | anonymous credentials, or a null result from the store, leave the request unchanged |
| Authentication.ApiKeyStoreWritesKey | Syncthing/Authentication/Authenticator.cs:24-30 | a store holding a brace-free API key adds exactly that key under `X-API-Key` |
| Authentication.Authenticator.Create | Syncthing/Authentication/Authenticator.cs:17-22 | a null store raises ArgumentNull("credentialStore"); otherwise a fresh authenticator holding that store |
| Authentication.Authenticator.Apply | Syncthing/Authentication/Authenticator.cs:24-30 | a null request raises ArgumentNull("request"); otherwise the request becomes `Applied` with the store current at call time, or is unchanged and the error is returned |
| Authentication.ReplacedStoreIsUsed | Syncthing/Authentication/Authenticator.cs:32 | after the store property is replaced, the next application writes the new key, not the old one |
| JsonPipeline.Serialized | Syncthing/Http/JsonHttpPipeline.cs:18-31 | serializing changes only the request's headers and body |
| JsonPipeline.PassesThrough | Syncthing/Http/JsonHttpPipeline.cs:27-28 | every body except a plain object is sent as it is |
| JsonPipeline.SerializeDefaultsAccept | Syncthing/Http/JsonHttpPipeline.cs:22-25 | `Accept` is added as `application/json` only when absent; an existing value and every other header are kept |
| JsonPipeline.SerializeBodyRules | Syncthing/Http/JsonHttpPipeline.cs:27-30 | GET requests and requests without a body keep their body, as do string, stream and content bodies; any other body of a non-GET request becomes its JSON text |
| JsonPipeline.SerializeIdempotent | Syncthing/Http/JsonHttpPipeline.cs:18-31 | serializing a serialized request changes nothing |
| JsonPipeline.SerializeRequest | Syncthing/Http/JsonHttpPipeline.cs:18-31 | a null request raises ArgumentNull("request"); otherwise the request in place becomes `Serialized` of its old state |
| JsonPipeline.JsonBody | Syncthing/Http/JsonHttpPipeline.cs:36-41 | a body text is read exactly when the content type is `application/json` and the body is a string other than "" and "{}"; the text read is that body |
| JsonPipeline.IsAssignableFromOpenDictionary | Syncthing/Http/JsonHttpPipeline.cs:43 | the open-generic dictionary test is false for every target type |
| JsonPipeline.WrappedForTarget | Syncthing/Http/JsonHttpPipeline.cs:43-52 | the text handed to the deserializer is the body or the body in brackets |
| JsonPipeline.DeserializeResponse | Syncthing/Http/JsonHttpPipeline.cs:33-58 | a null response raises ArgumentNull("response"); otherwise the result carries that response, with data exactly when the JSON body gate passes |
| JsonPipeline.DeserializeGate | Syncthing/Http/JsonHttpPipeline.cs:37-41 | data is produced exactly for content type `application/json` with a string body other than "" and "{}" |
| JsonPipeline.WrapRule | Syncthing/Http/JsonHttpPipeline.cs:43-54 | the deserializer gets `[` + body + `]` exactly when the target is enumerable and the body starts with `{`, otherwise the body itself |
| JsonPipeline.SingleObjectReadAsArray | Syncthing/Http/JsonHttpPipeline.cs:43-54 | a single object read into a list target is deserialized as a one-element array |
| JsonPipeline.DictionaryTargetIsWrapped | Syncthing/Http/JsonHttpPipeline.cs:45-49 | an enumerable dictionary target still has a single object wrapped |
| JsonPipeline.LeadingWhiteSpaceIsNotWrapped | Syncthing/Http/JsonHttpPipeline.cs:46-49 | a body starting with white space is not wrapped |
| JsonPipeline.EmptyBodiesCarryNoData | Syncthing/Http/JsonHttpPipeline.cs:37-41 | the bodies "" and "{}" give a response without data, not an error |
| Metadata.NewApiInfo | Syncthing/Http/ApiInfo.cs:13-26 | null links, scopes or accepted scopes raise ArgumentNull in parameter order; otherwise a record holding exactly the arguments, a null ETag included |
| Metadata.Clone | Syncthing/Http/ApiInfo.cs:52-58 | the clone equals the original in every field and keeps a null ETag null |
| ResponseHeaders.FirstHeader | Syncthing/Http/ApiInfoParser.cs:22 | the first header from a position on whose name equals the key ignoring case |
| ResponseHeaders.LookupHeader | Syncthing/Http/ApiInfoParser.cs:20-23 | the default pair exactly when no header name matches ignoring case; otherwise a pair whose key matches |
| ResponseHeaders.LookupFindsFirstMatch | Syncthing/Http/ApiInfoParser.cs:22 | the pair found is the first matching header in enumeration order |
| ResponseHeaders.Exists | Syncthing/Http/ApiInfoParser.cs:25-28 | a pair exists exactly when it is not the default pair, that is when its key or value is set |
| ResponseHeaders.ExistsIffNamed | Syncthing/Http/ApiInfoParser.cs:20-28 | a looked-up pair exists exactly when some header has that name, ignoring case |
| Text.Split | Syncthing/Http/ApiInfoParser.cs:43 | `Split(',')` gives at least one piece, no piece holds the separator, and joining the pieces gives back the input |
| Text.SplitJoin | Syncthing/Http/ApiInfoParser.cs:43 | splitting a join of separator-free pieces gives back the pieces |
| Text.Trim | Syncthing/Http/ApiInfoParser.cs:44 | the result is a slice of the input with only white space before and after it, has no white space at either end, and is "" exactly when the input is all white space |
| Text.RemoveEmpty | Syncthing/Http/ApiInfoParser.cs:43 | `RemoveEmptyEntries` keeps every non-empty piece as many times as it occurs and drops every "" (as multisets, the input without its empty pieces) |
| Text.RemoveEmptyAppend | Syncthing/Http/ApiInfoParser.cs:43 | the filter keeps the pieces' order: filtering a concatenation gives the filtered parts concatenated |
| Text.TrimAll | Syncthing/Http/ApiInfoParser.cs:44 | `Select(x => x.Trim())` trims every piece and keeps their number and order |
| ResponseHeaders.ScopeList | Syncthing/Http/ApiInfoParser.cs:42-44 | a scope list has no more entries than the header has comma-separated pieces |
| ResponseHeaders.ScopeListOfJoined | Syncthing/Http/ApiInfoParser.cs:42-44 | the scopes of comma-joined pieces are those pieces, exactly-empty ones dropped, each trimmed, in order |
| ResponseHeaders.ScopeListWithoutEmptyPieces | Syncthing/Http/ApiInfoParser.cs:42-44 | comma-joined pieces that are neither empty nor hold a comma give one trimmed scope per piece, none dropped |
| ResponseHeaders.BlankScopeKeptAsEmpty | Syncthing/Http/ApiInfoParser.cs:42-44 | `a, ,b` gives the scopes `a`, "" and `b`: a blank piece is dropped only when exactly empty |
| ResponseHeaders.ScopesOf | Syncthing/Http/ApiInfoParser.cs:39-53 | a scope list is empty without a header of that name, and otherwise the `ScopeList` of the first such header |
| ResponseHeaders.RelAt | Syncthing/Http/ApiInfoParser.cs:17 | a rel match starting at a position captures one of the four rel names |
| ResponseHeaders.RelNameFrom | Syncthing/Http/ApiInfoParser.cs:17 | the alternation finds nothing exactly when no alternative followed by `"` is present ignoring case; otherwise a rel name |
| ResponseHeaders.RelIndex | Syncthing/Http/ApiInfoParser.cs:17 | the leftmost position where the rel pattern matches |
| ResponseHeaders.RelMatch | Syncthing/Http/ApiInfoParser.cs:17 | no rel match exactly when the pattern matches nowhere; a match is a rel name |
| ResponseHeaders.UriCloseAt | Syncthing/Http/ApiInfoParser.cs:18 | a URI match ends at a `>` with at least one character and no line break captured |
| ResponseHeaders.UriIndex | Syncthing/Http/ApiInfoParser.cs:18 | the leftmost position where the URI pattern matches |
| ResponseHeaders.UriMatch | Syncthing/Http/ApiInfoParser.cs:18 | a captured URI is non-empty and has no line break |
| ResponseHeaders.UriBetweenFirstOpenAndLastClose | Syncthing/Http/ApiInfoParser.cs:18 | on a line without breaks, the capture is the text between the first `<` and the last `>` exactly when there is one with at least one character between them |
| ResponseHeaders.LinkSegment | Syncthing/Http/ApiInfoParser.cs:67-73 | a segment yields a link exactly when both patterns match; its key is a rel name |
| ResponseHeaders.LinksFrom | Syncthing/Http/ApiInfoParser.cs:64-74 | the loop keeps the links already gathered, adds only rel names, and fails only with DuplicateKey on a rel name |
| ResponseHeaders.GatheredParse | Syncthing/Http/ApiInfoParser.cs:65-71 | the gathered pairs are, in order, what the leading segments parse to, and the segment after them does not parse |
| ResponseHeaders.LinksFromContents | Syncthing/Http/ApiInfoParser.cs:64-74 | the loop succeeds exactly when the gathered rels are new and pairwise different; then each gathered rel maps to its URI and no other key is added |
| ResponseHeaders.LinksStopAtFirstBadSegment | Syncthing/Http/ApiInfoParser.cs:68-71 | the loop stops at the first segment where either pattern fails: that segment and everything after it are ignored |
| ResponseHeaders.DuplicateRelRejected | Syncthing/Http/ApiInfoParser.cs:73 | two segments with the same rel name raise DuplicateKey for it |
| ResponseHeaders.RelNameCapturedAsWritten | Syncthing/Http/ApiInfoParser.cs:17 | a rel name in any case followed by `"` is captured as written |
| ResponseHeaders.LinkValueRel | Syncthing/Http/ApiInfoParser.cs:17 | the rel pattern finds the rel name of `<uri>; rel="name"` |
| ResponseHeaders.LinkValueUri | Syncthing/Http/ApiInfoParser.cs:18 | the URI pattern finds the URI of `<uri>; rel="name"` |
| ResponseHeaders.LinkValueParses | Syncthing/Http/ApiInfoParser.cs:67-73 | a segment written as `<uri>; rel="name"` parses back to that name and URI |
| ResponseHeaders.ParsedHeaders | Syncthing/Http/ApiInfoParser.cs:30-78 | null headers raise ArgumentNull("responseHeaders"); the only other failure is DuplicateKey; every link key is a rel name |
| ResponseHeaders.ParseResponseHeaders | Syncthing/Http/ApiInfoParser.cs:30-78 | the step-by-step parse, list by list, computes `ParsedHeaders` |
| ResponseHeaders.CollectLinks | Syncthing/Http/ApiInfoParser.cs:64-74 | the segment loop, with its early exits and `Add`, computes `LinksFrom` from an empty dictionary |
| ResponseHeaders.HeadersFeedTheirFields | Syncthing/Http/ApiInfoParser.cs:39-77 | each scope list is `ScopeList` of the first header of its own name (ignoring case), or empty without one; the ETag is the first `ETag` value; the links are `LinksFrom` over the comma pieces of the first `Link` header, and the parse fails exactly when that does |
| ResponseHeaders.AbsentHeadersGiveEmptyInfo | Syncthing/Http/ApiInfoParser.cs:34-77 | without any of the four headers the result has no links, empty scope lists and no ETag |
| ResponseHeaders.EtagIsVerbatim | Syncthing/Http/ApiInfoParser.cs:55-59 | the ETag is the value of the first header named `ETag` in any case, unchanged |
| ResponseHeaders.SingleLinkHeader | Syncthing/Http/ApiInfoParser.cs:61-77 | a lone header `Link: <uri>; rel="name"` gives exactly the link name to uri and nothing else |
| ResponseHeaders.NextLinkExample | Syncthing/Http/ApiInfoParser.cs:61-77 | `Link: <http://x/2>; rel="next"` gives the single link next to http://x/2 |
| HttpConnection.ForbiddenError | Syncthing/Http/Connection.cs:564-579 | a 403 is LoginAttemptsExceeded exactly when the body holds the login message; Abuse exactly when it does not but holds an abuse message; Forbidden otherwise |
| HttpConnection.BodyText | Syncthing/Http/Connection.cs:566 | the body if it is a string, "" otherwise |
| HttpConnection.Raise | Syncthing/Http/Connection.cs:537-543 | each factory of `HttpExceptionMap` builds its own exception kind (401 Authorization, 403 the forbidden classification, 404 NotFound) carrying the response |
| HttpConnection.HandleErrors | Syncthing/Http/Connection.cs:545-557 | no exception exactly when the status is below 400; otherwise an exception carrying the response |
| HttpConnection.Classification | Syncthing/Http/Connection.cs:537-562 | 401 is Authorization, 403 is the forbidden classification, 404 is NotFound, any other status from 400 up is a plain API error |
| HttpConnection.LoginMessageTakesPrecedence | Syncthing/Http/Connection.cs:568-576 | a 403 body with both the login and an abuse message is LoginAttemptsExceeded |
| HttpConnection.NonTextForbiddenBody | Syncthing/Http/Connection.cs:566-578 | a 403 whose body is not a string is a plain Forbidden |
| HttpConnection.Built | Syncthing/Http/Connection.cs:289-305 | building a request changes only its headers, body and content type |
| HttpConnection.BuiltAccept | Syncthing/Http/Connection.cs:292-295 | a non-empty `accepts` sets `Accept` to it and changes no other header; otherwise the headers are unchanged |
| HttpConnection.BuiltBody | Syncthing/Http/Connection.cs:297-302 | a body is set with its content type, JSON by default; without a body both stay as they were |
| HttpConnection.Prepared | Syncthing/Http/Connection.cs:254-305 | a fresh request holds the verb, base address, endpoint and timeout given; its only possible header is `Accept`, present exactly for a non-empty `accepts`; it carries the body, with the given content type or JSON when there is a body and none otherwise |
| HttpConnection.Sent | Syncthing/Http/Connection.cs:521-535 | a request that reaches the transport always carries `Accept` |
| HttpConnection.Executed | Syncthing/Http/Connection.cs:521-557 | a successful call sent the serialized, authenticated request and carries the transport's response, whose status is below 400 |
| HttpConnection.ExecutedOutcomes | Syncthing/Http/Connection.cs:521-557 | a call fails with the serialization or authentication error, or with the exception `HandleErrors` raises for the transport's response, or returns that response as read by `DeserializeResponse` |
| HttpConnection.ErrorSkipsDeserialization | Syncthing/Http/Connection.cs:521-526 | on an error status the call fails and the deserializer plays no part |
| HttpConnection.AuthenticationFailureSendsNothing | Syncthing/Http/Connection.cs:529-535 | when authentication fails, the transport plays no part in the outcome |
| HttpConnection.ApiKeyObjectRequestOnTheWire | Syncthing/Http/Connection.cs:289-305 | an API-key call with an object body sends JSON `Accept` and content type, the serialized body and the key, and no other header |
| HttpConnection.Connection.Create | Syncthing/Http/Connection.cs:65-84 | null base address, store or client raise ArgumentNull in that order; a relative base address raises Argument; otherwise a fresh connection holding the three |
| HttpConnection.Connection.CreateAnonymous | Syncthing/Http/Connection.cs:39-42 | a null base address raises ArgumentNull and a relative one Argument; otherwise a fresh connection holding that address, the default client and an anonymous in-memory store |
| HttpConnection.Connection.CurrentCredentials | Syncthing/Http/Connection.cs:507-512 | a null task or a null result reads as Anonymous; otherwise the stored credentials |
| HttpConnection.Connection.SetCredentials | Syncthing/Http/Connection.cs:513-518 | null raises ArgumentNull("value") and keeps the store; otherwise the store holds exactly that value and the getter returns it |
| HttpConnection.Connection.RunRequest | Syncthing/Http/Connection.cs:529-535 | the request becomes `Applied`; the sent response is returned unless `HandleErrors` raises |
| HttpConnection.Connection.Run | Syncthing/Http/Connection.cs:521-526 | the result is `Executed` on the request's state at entry; a request that was sent is left serialized and authenticated |
| HttpConnection.Connection.SendDataInternal | Syncthing/Http/Connection.cs:289-305 | the result is `Executed` on the `Built` request; the two-factor code has no effect; a request that was sent is left built, serialized and authenticated |
| HttpConnection.Connection.SendData | Syncthing/Http/Connection.cs:266-287 | a null uri raises ArgumentNull; otherwise `Executed` on a fresh request to the override base address, or `BaseAddress` |
| HttpConnection.Connection.SendDataTimed | Syncthing/Http/Connection.cs:240-264 | as `SendData`, but a timeout that is not positive is rejected before any request exists |
| HttpConnection.Connection.Get | Syncthing/Http/Connection.cs:86-92 | a null uri raises ArgumentNull; otherwise a GET with no body to the uri with its parameters applied |
| HttpConnection.Connection.GetWithTimeout | Syncthing/Http/Connection.cs:102-107 | a GET carrying the timeout; a timeout that is not positive is rejected |
| HttpConnection.Connection.Post | Syncthing/Http/Connection.cs:156-162 | null uri, then null body, raise ArgumentNull; otherwise a POST with that body, accept and content type |
| HttpConnection.Connection.PostWithTwoFactor | Syncthing/Http/Connection.cs:185-194 | a null or empty code is rejected; otherwise exactly what `Post` sends |
| HttpConnection.Connection.PostToBaseAddress | Syncthing/Http/Connection.cs:204-211 | a POST to the given base address, or to `BaseAddress` when it is null |
| HttpConnection.Connection.Put | Syncthing/Http/Connection.cs:213-216 | a PUT with the body and no explicit accepts or content type passed; a null body sends no body |
| HttpConnection.Connection.DeleteWithBody | Syncthing/Http/Connection.cs:418-432 | null uri, then null data, raise ArgumentNull; otherwise a DELETE carrying the data with no content type, returning the status code |
| ApiExtensions.IsTrue | Syncthing/Helpers/ApiExtensions.cs:59-68 | null raises ArgumentNull; 204 is true, 404 is false, every other status raises an API error carrying it |
| ApiExtensions.FalseOnlyFromNotFound | Syncthing/Helpers/ApiExtensions.cs:59-68 | `false` comes only from a 404, which the connection's classification raises as NotFound |
| ApiExtensions.PipelineResponseNeverFalse | Syncthing/Helpers/ApiExtensions.cs:59-68 | a response returned by the connection's pipeline never reads as `false` |
| ApiExtensions.GetResponse | Syncthing/Helpers/ApiExtensions.cs:23-29 | null connection, then null uri, raise ArgumentNull; otherwise exactly what `Get(uri, null, null)` returns |

## Left out

- The transport, `async`/`await`, cancellation tokens and request timeouts on the wire (`SetRequestTimeout`): the transport is a function argument and a timeout is only a request field.
- The user agent and platform strings `Connection` builds for the default client.
- `Uri` parsing: a link target is the captured text, and the `UriFormatException` that `new Uri` raises for a malformed one is not modelled.
- Newtonsoft.Json: serialization and deserialization are uninterpreted functions, so a parse error during deserialization is not modelled.
- Case-insensitive comparison folds ASCII letters only; culture-specific and non-ASCII case folding is not modelled.
- `Request`, `Ensure`, `InMemoryCredentialStore`, `AnonymousAuthenticator`, `ApplyParameters` and the `Clone` collection extensions are not part of this model. `Ensure.GreaterThanZero` is taken to raise `Argument("timeout")`, the anonymous handler to do nothing, the in-memory store to return a completed task, and `ApplyParameters` is passed in.
- The `Connection` constructor taking a base address and a credential store: it only supplies the default client, as `CreateAnonymous` does.
- Overloads that only forward with fixed arguments: `Patch`, `Post(uri)`, `Post` returning a status code, `Post` with a timeout, `Post<T>(uri, body, accepts, contentType, parameters)`, `Put` with a two-factor code, `Put(uri)`, `Put(uri, accepts)`, `Delete(uri)`, `Delete(uri, twoFactorAuthenticationCode)`, `Delete(uri, data, accepts)`, the `Delete<T>` variants, `Get` with a cancellation token and `GetResponse` with a cancellation token.
- The `Groups.Count != 2` tests in `ParseResponseHeaders`: each pattern has exactly one group, so they never fire.
- `ApiInfo` exposes read-only views of the collections it was given; aliasing between those views and the caller's collections is not modelled.
- The `Credentials` setter is not atomic with concurrent requests; concurrency is not modelled.
- Header values are never null in the model.
- Request header names are compared by exact case in the model (`Accept`, `X-API-Key`); .NET request headers compare names ignoring case, so a caller-supplied `accept` header would count as present in the source and not in the model.
- HttpCredentials.WithType: `Ensure.ArgumentNotNullOrEmptyString` is not part of this model and is taken to reject exactly null and ""; if it also rejects white-space-only strings, a white-space key that the source rejects is accepted here.
- HttpCredentials.FromKey: the same assumption about `Ensure.ArgumentNotNullOrEmptyString`.
- HttpConnection.Connection.PostWithTwoFactor: the same assumption about `Ensure.ArgumentNotNullOrEmptyString` for the two-factor code.
- Text.FormatNoArgs: its own contract states only a length bound; what it computes is stated by `FormatIffEscaped` (a format gives `s` exactly when it is `s` with braces doubled), so a format fails unless its braces come in doubled pairs, as `{{{` and `x}}}` do not.
- ResponseHeaders.ScopeList: states a bound on the number of scopes; the contents are stated by `ScopeListOfJoined` and `BlankScopeKeptAsEmpty`.
