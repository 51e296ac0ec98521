/** `ApiKeyAuthenticator.Authenticate` (Syncthing/Authentication/ApiKeyAuthenticator.cs). */
module ApiKeyAuthentication {
  import opened Wrappers
  import opened Text
  import opened Http
  import opened HttpCredentials

  const ApiKeyHeader: string := "X-API-Key"

  /** The header map after authenticating with `credentials`, or the
      exception raised before anything is written. */
  function AuthenticatedHeaders(headers: map<string, string>, credentials: Credentials): (r: Result<map<string, string>, Error>)
    ensures credentials.password.None? ==> r == Failure(ArgumentNull("Password"))
    ensures credentials.password.Some? && credentials.login.Some? ==> r.Failure? && r.error.InvalidOperation?
    ensures credentials.password.Some? && credentials.login.None? && FormatNoArgs(credentials.password.value).None? ==>
      r == Failure(Format)
    ensures r.Success? ==> r.value.Keys == headers.Keys + {ApiKeyHeader}
    ensures r.Success? ==> forall k :: k in headers && k != ApiKeyHeader ==> r.value[k] == headers[k]
    ensures r.Success? <==>
      credentials.password.Some? && credentials.login.None? && FormatNoArgs(credentials.password.value).Some?
    ensures r.Success? ==> Some(r.value[ApiKeyHeader]) == FormatNoArgs(credentials.password.value)
  {
    if credentials.password.None? then Failure(ArgumentNull("Password"))
    else if credentials.login.Some? then
      Failure(InvalidOperation("The Login is not null for a token authentication request. You probably did something wrong."))
    else match FormatNoArgs(credentials.password.value)
      case None => Failure(Format)
      case Some(value) => Success(headers[ApiKeyHeader := value])
  }

  /** A password without braces is written verbatim. */
  lemma PasswordWrittenVerbatim(headers: map<string, string>, key: string)
    requires '{' !in key && '}' !in key
    ensures AuthenticatedHeaders(headers, Credentials(None, Some(key), ApiKey)) == Success(headers[ApiKeyHeader := key])
  {
    FormatVerbatim(key);
  }

  /** The `X-API-Key` header carries the password as given exactly when the
      password has no brace; any brace either fails or is unescaped. */
  lemma HeaderIsPasswordIffBraceFree(headers: map<string, string>, key: string)
    ensures AuthenticatedHeaders(headers, Credentials(None, Some(key), ApiKey)) == Success(headers[ApiKeyHeader := key])
        <==> '{' !in key && '}' !in key
  {
    var r := AuthenticatedHeaders(headers, Credentials(None, Some(key), ApiKey));
    if r == Success(headers[ApiKeyHeader := key]) {
      assert r.value[ApiKeyHeader] == key;
      FormatVerbatimIffBraceFree(key);
    }
    if '{' !in key && '}' !in key {
      FormatVerbatim(key);
    }
  }

  /** The password is used as a format string: a lone brace makes
      authentication fail with FormatException. */
  lemma BracedPasswordRejected(headers: map<string, string>)
    ensures AuthenticatedHeaders(headers, Credentials(None, Some("a{b"), ApiKey)) == Failure(Format)
  {
    FormatRejectsLoneBrace("a", "b", '{');
    assert "a" + ['{'] + "b" == "a{b";
  }

  /** Authenticating twice leaves the same headers as authenticating once. */
  lemma AuthenticateIdempotent(headers: map<string, string>, credentials: Credentials)
    requires AuthenticatedHeaders(headers, credentials).Success?
    ensures AuthenticatedHeaders(AuthenticatedHeaders(headers, credentials).value, credentials)
         == AuthenticatedHeaders(headers, credentials)
  {
    var once := AuthenticatedHeaders(headers, credentials).value;
    var value := FormatNoArgs(credentials.password.value).value;
    assert once == headers[ApiKeyHeader := value];
    assert once[ApiKeyHeader := value] == once;
  }

  /** `Authenticate(request, credentials)`: checks its arguments, then writes
      the `X-API-Key` header and nothing else. */
  method Authenticate(request: Request?, credentials: Option<Credentials>) returns (r: Outcome<Error>)
    modifies request
    ensures request == null ==> r == Fail(ArgumentNull("request"))
    ensures request != null && credentials.None? ==> r == Fail(ArgumentNull("credentials"))
    ensures request != null && credentials.Some? ==>
      match AuthenticatedHeaders(old(request.headers), credentials.value)
      case Success(h) => r == Pass && request.Data() == old(request.Data()).(headers := h)
      case Failure(e) => r == Fail(e) && request.Data() == old(request.Data())
  {
    if request == null {
      return Fail(ArgumentNull("request"));
    }
    if credentials.None? {
      return Fail(ArgumentNull("credentials"));
    }
    var c := credentials.value;
    if c.password.None? {
      return Fail(ArgumentNull("Password"));
    }
    if c.login.Some? {
      return Fail(InvalidOperation("The Login is not null for a token authentication request. You probably did something wrong."));
    }
    var value := FormatNoArgs(c.password.value);
    if value.None? {
      return Fail(Format);
    }
    request.headers := request.headers[ApiKeyHeader := value.value];
    r := Pass;
  }
}
