/** The other `getBaseUrl` (src/lib/site.ts): development always uses
    localhost, otherwise the explicit or Netlify URL is taken as is, and
    the production URL is the fallback. */
module Site {
  import opened Wrappers
  import opened Env

  const Localhost: string := "http://localhost:3000"

  const ProductionUrl: string := "https://multi-lang-blog.netlify.app"

  predicate IsDevelopment(env: Env) {
    "NODE_ENV" in env && env["NODE_ENV"] == "development"
  }

  /** `getBaseUrl()`. */
  function GetBaseUrl(env: Env): (r: string)
    ensures IsDevelopment(env) ==> r == Localhost
    ensures !IsDevelopment(env) && IsSet(env, "NEXT_PUBLIC_BASE_URL") ==> r == env["NEXT_PUBLIC_BASE_URL"]
    ensures !IsDevelopment(env) && !IsSet(env, "NEXT_PUBLIC_BASE_URL") && IsSet(env, "URL") ==> r == env["URL"]
    ensures (!IsDevelopment(env) && !IsSet(env, "NEXT_PUBLIC_BASE_URL") && !IsSet(env, "URL")
             && IsSet(env, "DEPLOY_PRIME_URL")) ==> r == env["DEPLOY_PRIME_URL"]
    ensures (!IsDevelopment(env) && !IsSet(env, "NEXT_PUBLIC_BASE_URL") && !IsSet(env, "URL")
             && !IsSet(env, "DEPLOY_PRIME_URL")) ==> r == ProductionUrl
  {
    if IsDevelopment(env) then Localhost
    else if IsSet(env, "NEXT_PUBLIC_BASE_URL") then env["NEXT_PUBLIC_BASE_URL"]
    else
      match FirstSet(env, ["URL", "DEPLOY_PRIME_URL"])
      case Some(netlify) => netlify
      case None => ProductionUrl
  }

  /** The result is never empty: every branch returns a set variable or a
      fixed URL. */
  lemma BaseUrlNonEmpty(env: Env)
    ensures GetBaseUrl(env) != ""
  {
  }
}
