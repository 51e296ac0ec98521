/** `Authenticator` (Syncthing/Authentication/Authenticator.cs): a fixed
    table from credential kind to handler, and a replaceable credential store
    read on every application. */
module Authentication {
  import opened Wrappers
  import opened Http
  import opened HttpCredentials
  import ApiKeyAuthentication

  /** The `IAuthenticationHandler` implementations. */
  datatype Handler = AnonymousAuthenticator | ApiKeyAuthenticator

  /** The `authenticators` dictionary, fixed at construction. */
  const Registry: map<AuthenticationType, Handler> :=
    map[Anonymous := AnonymousAuthenticator, ApiKey := ApiKeyAuthenticator]

  /** The table holds exactly the two kinds, each with its own handler. */
  lemma RegistryCoversEveryKind()
    ensures forall k: AuthenticationType :: k in Registry
    ensures Registry.Keys == {Anonymous, ApiKey}
    ensures Registry[Anonymous] == AnonymousAuthenticator && Registry[ApiKey] == ApiKeyAuthenticator
  {
    forall k: AuthenticationType ensures k in Registry {
      if k.Anonymous? { assert k == Anonymous; } else { assert k == ApiKey; }
    }
  }

  /** The credentials `Apply` obtains from the store: awaiting a null task
      faults, a null result stands for `Credentials.Anonymous`. */
  function StoredCredentials(store: CredentialStore): (r: Result<Credentials, Error>)
    ensures store.task.None? <==> r == Failure(NullReference)
    ensures store.task == Some(None) ==> r == Success(AnonymousCredentials)
    ensures store.task.Some? && store.task.value.Some? ==> r == Success(store.task.value.value)
  {
    match store.task
    case None => Failure(NullReference)
    case Some(result) => Success(result.GetOr(AnonymousCredentials))
  }

  /** The header map a handler leaves behind. The anonymous handler (whose
      source is not part of this model) does nothing. */
  function HandlerHeaders(handler: Handler, headers: map<string, string>, credentials: Credentials)
    : (r: Result<map<string, string>, Error>)
    ensures handler == AnonymousAuthenticator ==> r == Success(headers)
    ensures handler == ApiKeyAuthenticator ==> r == ApiKeyAuthentication.AuthenticatedHeaders(headers, credentials)
  {
    match handler
    case AnonymousAuthenticator => Success(headers)
    case ApiKeyAuthenticator => ApiKeyAuthentication.AuthenticatedHeaders(headers, credentials)
  }

  /** The request after `Apply` with the given store, or the exception it raises. */
  function Applied(d: RequestData, store: CredentialStore): (r: Result<RequestData, Error>)
    ensures r.Success? ==> r.value == d.(headers := r.value.headers)
  {
    match StoredCredentials(store)
    case Failure(e) => Failure(e)
    case Success(c) =>
      RegistryCoversEveryKind();
      match HandlerHeaders(Registry[c.authenticationType], d.headers, c)
      case Failure(e) => Failure(e)
      case Success(h) => Success(d.(headers := h))
  }

  /** Anonymous credentials (also when the store yields null) leave the request
      untouched: no `X-API-Key` header is ever added for them. */
  lemma AnonymousLeavesRequestUnchanged(d: RequestData, store: CredentialStore)
    requires store.task.Some?
    requires store.task.value.None? || store.task.value.value.authenticationType == Anonymous
    ensures Applied(d, store) == Success(d)
  {
  }

  /** An API-key credential whose password has no braces writes exactly that
      password under `X-API-Key`. */
  lemma ApiKeyStoreWritesKey(d: RequestData, key: string)
    requires '{' !in key && '}' !in key
    ensures Applied(d, InMemory(Credentials(None, Some(key), ApiKey)))
         == Success(d.(headers := d.headers[ApiKeyAuthentication.ApiKeyHeader := key]))
  {
    ApiKeyAuthentication.PasswordWrittenVerbatim(d.headers, key);
  }

  class Authenticator {
    /** `CredentialStore { get; set; }`. */
    var credentialStore: CredentialStore

    constructor (credentialStore: CredentialStore)
      ensures this.credentialStore == credentialStore
    {
      this.credentialStore := credentialStore;
    }

    /** `new Authenticator(credentialStore)` with its null check. */
    static method Create(credentialStore: Option<CredentialStore>) returns (r: Result<Authenticator, Error>)
      ensures credentialStore.None? ==> r == Failure(ArgumentNull("credentialStore"))
      ensures credentialStore.Some? ==> r.Success? && fresh(r.value) && r.value.credentialStore == credentialStore.value
    {
      if credentialStore.None? {
        return Failure(ArgumentNull("credentialStore"));
      }
      var a := new Authenticator(credentialStore.value);
      r := Success(a);
    }

    /** `Apply(request)`: reads the store current at call time and runs the
        handler registered for the credentials' kind. */
    method Apply(request: Request?) returns (r: Outcome<Error>)
      modifies request
      ensures request == null ==> r == Fail(ArgumentNull("request"))
      ensures request != null ==>
        match Applied(old(request.Data()), credentialStore)
        case Success(d) => r == Pass && request.Data() == d
        case Failure(e) => r == Fail(e) && request.Data() == old(request.Data())
    {
      if request == null {
        return Fail(ArgumentNull("request"));
      }
      var credentials := StoredCredentials(credentialStore);
      if credentials.Failure? {
        return Fail(credentials.error);
      }
      var c := credentials.value;
      RegistryCoversEveryKind();
      match Registry[c.authenticationType]
      case AnonymousAuthenticator =>
        r := Pass;
      case ApiKeyAuthenticator =>
        r := ApiKeyAuthentication.Authenticate(request, Some(c));
    }
  }

  /** Replacing the store changes what later applications write, without
      rebuilding the authenticator. */
  method ReplacedStoreIsUsed(first: string, second: string) returns (before: RequestData, after: RequestData)
    requires first != "" && second != ""
    requires '{' !in first + second && '}' !in first + second
    ensures ApiKeyAuthentication.ApiKeyHeader in before.headers
    ensures before.headers[ApiKeyAuthentication.ApiKeyHeader] == first
    ensures ApiKeyAuthentication.ApiKeyHeader in after.headers
    ensures after.headers[ApiKeyAuthentication.ApiKeyHeader] == second
  {
    var uri := Uri("http://localhost:8384/", true);
    var a := new Authenticator(InMemory(Credentials(None, Some(first), ApiKey)));
    var req := new Request(Get, uri, uri, None);
    ApiKeyStoreWritesKey(req.Data(), first);
    var _ := a.Apply(req);
    before := req.Data();
    a.credentialStore := InMemory(Credentials(None, Some(second), ApiKey));
    ApiKeyStoreWritesKey(req.Data(), second);
    var _ := a.Apply(req);
    after := req.Data();
  }
}
