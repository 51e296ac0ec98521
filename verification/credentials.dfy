/** `Credentials` (Syncthing/Http/Credentials.cs), the `AuthenticationType`
    enumeration and the credential store a connection reads them from. */
module HttpCredentials {
  import opened Wrappers
  import opened Http

  /** The closed set of authentication kinds. */
  datatype AuthenticationType = Anonymous | ApiKey

  /** An immutable credential value; every property has a private setter. */
  datatype Credentials = Credentials(
    login: Option<string>,
    password: Option<string>,
    authenticationType: AuthenticationType)

  /** `Credentials.Anonymous`, built by the private constructor. */
  const AnonymousCredentials: Credentials := Credentials(None, None, AuthenticationType.Anonymous)

  /** `new Credentials(key, authenticationType)`. */
  function WithType(key: Option<string>, authenticationType: AuthenticationType): (r: Result<Credentials, Error>)
    ensures key.None? ==> r == Failure(ArgumentNull("key"))
    ensures key == Some("") ==> r == Failure(Argument("key"))
    ensures r.Success? <==> key.Some? && key.value != ""
    ensures r.Success? ==> r.value.login.None?
    ensures r.Success? ==> r.value.password == key && r.value.authenticationType == authenticationType
  {
    if key.None? then Failure(ArgumentNull("key"))
    else if key.value == "" then Failure(Argument("key"))
    else Success(Credentials(None, key, authenticationType))
  }

  /** `new Credentials(key)`: an API-key credential. */
  function FromKey(key: Option<string>): (r: Result<Credentials, Error>)
    ensures r.Success? <==> key.Some? && key.value != ""
    ensures r.Success? ==> r.value == Credentials(None, key, ApiKey)
    ensures r.Failure? ==> r.error == ArgumentNull("key") || r.error == Argument("key")
  {
    WithType(key, ApiKey)
  }

  /** The anonymous sentinel carries no login and no password. */
  lemma AnonymousHasNoSecret()
    ensures AnonymousCredentials.authenticationType == Anonymous
    ensures AnonymousCredentials.login.None? && AnonymousCredentials.password.None?
  {
  }

  /** The two-argument constructor stores the kind it is given, so an
      anonymous-kind value that carries a password can be built. */
  lemma AnonymousKindWithPassword(key: string)
    requires key != ""
    ensures WithType(Some(key), Anonymous) == Success(Credentials(None, Some(key), Anonymous))
  {
  }

  /** `ICredentialStore`: `GetCredentials()` returns a task (`None` for a null
      task) whose result may itself be null (`Some(None)`). */
  datatype CredentialStore = CredentialStore(task: Option<Option<Credentials>>)

  /** `InMemoryCredentialStore`: always a completed task holding one value. */
  function InMemory(credentials: Credentials): (r: CredentialStore) {
    CredentialStore(Some(Some(credentials)))
  }
}
