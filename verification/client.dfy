/** Choice of storage client at module load (index.js lines 13-25). With a
    custom endpoint the account name and key are pulled out of the
    connection string and paired with that endpoint; otherwise the whole
    connection string goes to the SDK's own parser. The SDK constructors
    themselves are not modelled: a mode records what they are given. */
module Client {
  import opened Options
  import opened Config
  import opened ConnectionString

  const AccountNameKey: string := "AccountName"
  const AccountKeyKey: string := "AccountKey"

  /** How the blob service client is built. */
  datatype ClientMode =
    | SharedKey(endpoint: string, accountName: string, accountKey: string)
    | FromConnectionString(connectionString: Option<string>)

  /** The container client every request shares (line 25). */
  datatype ContainerHandle = ContainerHandle(client: ClientMode, containerName: Option<string>)

  /** What the loaded module holds for the request handlers. */
  datatype App = App(customEndpoint: Option<string>, container: ContainerHandle)

  /** Lines 15-23. `None` is the TypeError thrown while loading: the
      connection string is undefined, or one of the two regexes finds no
      match and `[1]` is read from null. */
  function ResolveClient(env: Env): (r: Option<ClientMode>)
    ensures !Truthy(env.customEndpoint) ==> r == Some(FromConnectionString(env.connectionString))
    ensures Truthy(env.customEndpoint) ==>
      (r.Some? <==> env.connectionString.Some?
                    && Extract(AccountNameKey, env.connectionString.value).Some?
                    && Extract(AccountKeyKey, env.connectionString.value).Some?)
    ensures r.Some? && Truthy(env.customEndpoint) ==>
      && r.value.SharedKey?
      && r.value.endpoint == env.customEndpoint.value
      && Some(r.value.accountName) == Extract(AccountNameKey, env.connectionString.value)
      && Some(r.value.accountKey) == Extract(AccountKeyKey, env.connectionString.value)
  {
    if Truthy(env.customEndpoint) then
      match env.connectionString
      case None => None
      case Some(cs) =>
        match Extract(AccountNameKey, cs)
        case None => None
        case Some(accountName) =>
          match Extract(AccountKeyKey, cs)
          case None => None
          case Some(accountKey) => Some(SharedKey(env.customEndpoint.value, accountName, accountKey))
    else
      Some(FromConnectionString(env.connectionString))
  }

  /** Module load up to line 25. In this model, where the errors that
      `fromConnectionString` raises itself are left out, `None` means the
      process never serves a request. */
  function Load(env: Env): (r: Option<App>)
    ensures r.Some? <==> ResolveClient(env).Some?
    ensures r.Some? ==> r.value.customEndpoint == env.customEndpoint
    ensures r.Some? ==> r.value.container.containerName == env.containerName
    ensures r.Some? ==> r.value.container.client == ResolveClient(env).value
  {
    match ResolveClient(env)
    case None => None
    case Some(mode) => Some(App(env.customEndpoint, ContainerHandle(mode, env.containerName)))
  }

  /** Extraction can only fail on the custom-endpoint path: without a
      custom endpoint nothing is extracted, so even a connection string with
      no `AccountName=` at all gets past this step of the model (the SDK's
      own parsing in `fromConnectionString` is left out). */
  lemma LoadFailsOnlyWithCustomEndpoint(env: Env)
    ensures Load(env).None? ==> Truthy(env.customEndpoint)
    ensures !Truthy(env.customEndpoint) ==> Load(env).Some? && Load(env).value.container.client == FromConnectionString(env.connectionString)
  {
  }

  /** With a custom endpoint, a connection string whose account name (or
      key) is absent or only ever empty stops the load: extraction fails
      and no client is built. */
  lemma MissingFieldStopsLoad(env: Env, key: string)
    requires Truthy(env.customEndpoint)
    requires key == AccountNameKey || key == AccountKeyKey
    requires env.connectionString.Some?
    requires forall i :: 0 <= i ==> !MatchesAt(Pattern(key), env.connectionString.value, i)
    ensures Load(env).None?
  {
    ExtractFailsIffNoMatch(key, env.connectionString.value);
  }

}
