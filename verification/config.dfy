/** What the pages share: the backend base URL taken from the build-time
    environment, and the toast notification a handler raises. */
module Config {
  import opened Wrappers

  /** The API base: `${BACKEND_URL}/api` when the environment variable is
      set to a non-empty string, and no backend otherwise. */
  function ApiBase(backendUrl: Option<string>): (api: Option<string>)
    ensures api.Some? <==> backendUrl.Some? && backendUrl.value != ""
    ensures api.Some? ==> api.value == backendUrl.value + "/api"
  {
    match backendUrl
    case Some(u) => if u != "" then Some(u + "/api") else None
    case None => None
  }

  /** A toast: a title, a description, and whether it is the destructive
      (error) variant. */
  datatype Toast = Toast(title: string, description: string, destructive: bool)
}
