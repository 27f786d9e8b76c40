/** Absolute URLs for metadata (src/lib/seo.ts): the deployment's base
    URL, chosen from the environment, and the canonical and per-language
    alternate URLs of a page. The default locale here is `ko`. */
module Seo {
  import opened Wrappers
  import opened Text
  import opened Locales
  import opened Env

  const DefaultLocale: Locale := Ko

  const Localhost: string := "http://localhost:3000"

  /** Variables that name the site explicitly, in priority order. */
  const ExplicitVars: seq<string> := ["NEXT_PUBLIC_BASE_URL", "NEXT_PUBLIC_SITE_URL", "SITE_URL"]

  /** Variables a Netlify build sets, in priority order. */
  const NetlifyVars: seq<string> := ["URL", "DEPLOY_PRIME_URL", "CONTEXT"]

  /** `url.replace(/\/+$/, "")`. */
  function StripTrailingSlash(url: string): (r: string)
    ensures |r| <= |url| && r == url[..|r|]
    ensures r == [] || r[|r| - 1] != '/'
    ensures forall i :: |r| <= i < |url| ==> url[i] == '/'
  {
    url[..TrimEndIndex(url, IsSlash, 0)]
  }

  /** The three properties above pin the result down: it is the only
      prefix that does not end in `/` and leaves only slashes behind. */
  lemma StripTrailingSlashUnique(url: string, r: string)
    requires |r| <= |url| && r == url[..|r|]
    requires r == [] || r[|r| - 1] != '/'
    requires forall i :: |r| <= i < |url| ==> url[i] == '/'
    ensures r == StripTrailingSlash(url)
  {
  }

  /** Stripping twice is stripping once. */
  lemma StripTrailingSlashIdempotent(url: string)
    ensures StripTrailingSlash(StripTrailingSlash(url)) == StripTrailingSlash(url)
  {
    var s := StripTrailingSlash(url);
    StripTrailingSlashUnique(s, s);
  }

  predicate StartsWithHttp(s: string) {
    StartsWith(s, "http")
  }

  /** `getBaseUrl()`: the first explicit variable that is set, else the
      first Netlify variable that is set provided it looks like a URL,
      else localhost; trailing slashes are removed. */
  function GetBaseUrl(env: Env): (r: string)
    ensures r == [] || r[|r| - 1] != '/'
  {
    match FirstSet(env, ExplicitVars)
    case Some(explicit) => StripTrailingSlash(explicit)
    case None =>
      match FirstSet(env, NetlifyVars)
      case Some(netlify) => if StartsWithHttp(netlify) then StripTrailingSlash(netlify) else Localhost
      case None => Localhost
  }

  /** An explicit variable wins, in the order of `ExplicitVars`. */
  lemma ExplicitBaseWins(env: Env, k: nat)
    requires k < |ExplicitVars| && IsSet(env, ExplicitVars[k])
    requires forall i :: 0 <= i < k ==> !IsSet(env, ExplicitVars[i])
    ensures GetBaseUrl(env) == StripTrailingSlash(env[ExplicitVars[k]])
  {
    var k' := FirstSetIndex(env, ExplicitVars);
    assert k' == k;
  }

  /** Without an explicit variable, the first set Netlify variable is used
      when it starts with `http`. */
  lemma NetlifyBase(env: Env, k: nat)
    requires forall i :: 0 <= i < |ExplicitVars| ==> !IsSet(env, ExplicitVars[i])
    requires k < |NetlifyVars| && IsSet(env, NetlifyVars[k])
    requires forall i :: 0 <= i < k ==> !IsSet(env, NetlifyVars[i])
    ensures GetBaseUrl(env) ==
              if StartsWithHttp(env[NetlifyVars[k]]) then StripTrailingSlash(env[NetlifyVars[k]]) else Localhost
  {
    var k' := FirstSetIndex(env, NetlifyVars);
    assert k' == k;
  }

  /** A set `URL` that is not a URL hides a usable `DEPLOY_PRIME_URL`. */
  lemma NonHttpUrlShadowsDeployUrl()
    ensures GetBaseUrl(map["URL" := "netlify", "DEPLOY_PRIME_URL" := "https://x.netlify.app"]) == Localhost
  {
    var env := map["URL" := "netlify", "DEPLOY_PRIME_URL" := "https://x.netlify.app"];
    NetlifyBase(env, 0);
    assert "netlify"[..4] != "http" by {
      assert "netlify"[..4][0] == 'n';
    }
  }

  /** With no variable set the base is localhost. */
  lemma DefaultBase(env: Env)
    requires forall i :: 0 <= i < |ExplicitVars| ==> !IsSet(env, ExplicitVars[i])
    requires forall i :: 0 <= i < |NetlifyVars| ==> !IsSet(env, NetlifyVars[i])
    ensures GetBaseUrl(env) == Localhost
  {
  }

  /** `path` with a leading `/` added when it has none. */
  function CleanPath(path: string): (r: string)
    ensures StartsWith(r, "/")
    ensures StartsWith(path, "/") ==> r == path
    ensures !StartsWith(path, "/") ==> r == "/" + path
  {
    if StartsWith(path, "/") then path else "/" + path
  }

  datatype Alternates = Alternates(canonical: string, languages: map<string, string>)

  /** The `languages` record built by the loop over `LOCALES`. */
  function LanguageUrls(base: string, cleanPath: string, locales: seq<Locale>): (m: map<string, string>)
    decreases |locales|
  {
    if locales == [] then map[]
    else
      var l := locales[|locales| - 1];
      LanguageUrls(base, cleanPath, locales[..|locales| - 1])[l.Code() := base + "/" + l.Code() + cleanPath]
  }

  /** For any locale list, the record has exactly one key per listed
      locale code, mapped to the base URL, the code and the path. */
  lemma {:induction false} LanguageUrlsSpec(base: string, cleanPath: string, locales: seq<Locale>)
    ensures LanguageUrls(base, cleanPath, locales).Keys == set i | 0 <= i < |locales| :: locales[i].Code()
    ensures forall i :: 0 <= i < |locales| ==>
              LanguageUrls(base, cleanPath, locales)[locales[i].Code()] == base + "/" + locales[i].Code() + cleanPath
    decreases |locales|
  {
    if locales != [] {
      var init := locales[..|locales| - 1];
      LanguageUrlsSpec(base, cleanPath, init);
      assert forall i :: 0 <= i < |init| ==> locales[i] == init[i];
      assert (set i | 0 <= i < |locales| :: locales[i].Code())
             == (set i | 0 <= i < |init| :: init[i].Code()) + {locales[|locales| - 1].Code()};
    }
  }

  /** The loop over `LOCALES` fills in one entry per locale. */
  lemma LanguageUrlsOfAll(base: string, cleanPath: string)
    ensures LanguageUrls(base, cleanPath, All)
            == map["ko" := base + "/" + "ko" + cleanPath, "en" := base + "/" + "en" + cleanPath,
                   "uz" := base + "/" + "uz" + cleanPath]
  {
    assert [Ko][..0] == [];
    assert LanguageUrls(base, cleanPath, [Ko]) == map["ko" := base + "/" + "ko" + cleanPath];
    assert [Ko, En][..1] == [Ko];
    assert LanguageUrls(base, cleanPath, [Ko, En])
           == map["ko" := base + "/" + "ko" + cleanPath, "en" := base + "/" + "en" + cleanPath];
    assert All[..2] == [Ko, En];
  }

  lemma EveryLocaleHasItsUrl(base: string, cleanPath: string, m: map<string, string>)
    requires forall code :: code in {"ko", "en", "uz"} ==> code in m && m[code] == base + "/" + code + cleanPath
    ensures forall l: Locale :: l.Code() in m && m[l.Code()] == base + "/" + l.Code() + cleanPath
  {
    forall l: Locale ensures l.Code() in m && m[l.Code()] == base + "/" + l.Code() + cleanPath {
      assert l.Code() in {"ko", "en", "uz"};
    }
  }

  /** `altLocales(locale, path)`. */
  function AltLocales(env: Env, locale: Locale, path: string): (r: Alternates)
    ensures r.languages.Keys == {"ko", "en", "uz", "x-default"}
    ensures forall l: Locale :: r.languages[l.Code()] == GetBaseUrl(env) + "/" + l.Code() + CleanPath(path)
    ensures r.canonical == r.languages[locale.Code()]
    ensures r.languages["x-default"] == r.languages["ko"]
  {
    var base := GetBaseUrl(env);
    var cleanPath := CleanPath(path);
    var languages := LanguageUrls(base, cleanPath, All);
    LanguageUrlsOfAll(base, cleanPath);
    var withDefault := languages["x-default" := base + "/" + DefaultLocale.Code() + cleanPath];
    EveryLocaleHasItsUrl(base, cleanPath, withDefault);
    Alternates(base + "/" + locale.Code() + cleanPath, withDefault)
  }
}
