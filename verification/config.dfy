/** The process environment the server reads once at load (index.js lines
    9-11). An unset variable is `None`. */
module Config {
  import opened Options

  datatype Env = Env(
    connectionString: Option<string>,  // AZURE_STORAGE_CONNECTION_STRING
    containerName: Option<string>,     // AZURE_STORAGE_CONTAINER_NAME
    customEndpoint: Option<string>     // AZURE_STORAGE_CUSTOM_ENDPOINT
  )

  /** JavaScript truthiness of an environment value: `undefined` and the
      empty string are false, every other string is true. */
  predicate Truthy(v: Option<string>)
  {
    v.Some? && v.value != []
  }

}
