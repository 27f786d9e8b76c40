/** The second `altLocales` (src/lib/seo.tsx): relative alternates,
    without a base URL and without a canonical entry, and with the path
    used as given. */
module SeoRelative {
  import opened Text
  import opened Locales
  import Seo
  import opened Env

  datatype Languages = Languages(languages: map<string, string>)

  /** The relative `languages` record of the loop over the locale list. */
  function RelativeUrls(path: string, locales: seq<Locale>): (m: map<string, string>)
    decreases |locales|
  {
    if locales == [] then map[]
    else
      var l := locales[|locales| - 1];
      RelativeUrls(path, locales[..|locales| - 1])[l.Code() := "/" + l.Code() + path]
  }

  /** For any locale list, the record has exactly one key per listed
      locale code, mapped to `/`, the code and the path. */
  lemma {:induction false} RelativeUrlsSpec(path: string, locales: seq<Locale>)
    ensures RelativeUrls(path, locales).Keys == set i | 0 <= i < |locales| :: locales[i].Code()
    ensures forall i :: 0 <= i < |locales| ==>
              RelativeUrls(path, locales)[locales[i].Code()] == "/" + locales[i].Code() + path
    decreases |locales|
  {
    if locales != [] {
      var init := locales[..|locales| - 1];
      RelativeUrlsSpec(path, init);
      assert forall i :: 0 <= i < |init| ==> locales[i] == init[i];
      assert (set i | 0 <= i < |locales| :: locales[i].Code())
             == (set i | 0 <= i < |init| :: init[i].Code()) + {locales[|locales| - 1].Code()};
    }
  }

  lemma RelativeUrlsOfAll(path: string)
    ensures RelativeUrls(path, All) == map["ko" := "/" + "ko" + path, "en" := "/" + "en" + path, "uz" := "/" + "uz" + path]
  {
    assert [Ko][..0] == [];
    assert RelativeUrls(path, [Ko]) == map["ko" := "/" + "ko" + path];
    assert [Ko, En][..1] == [Ko];
    assert RelativeUrls(path, [Ko, En]) == map["ko" := "/" + "ko" + path, "en" := "/" + "en" + path];
    assert All[..2] == [Ko, En];
  }

  /** `altLocales(locale, path)`; the locale argument is not used. */
  function AltLocales(locale: string, path: string): (r: Languages)
    ensures r.languages.Keys == {"ko", "en", "uz", "x-default"}
    ensures forall l: Locale :: r.languages[l.Code()] == "/" + l.Code() + path
    ensures r.languages["x-default"] == r.languages["ko"]
  {
    var m := RelativeUrls(path, All);
    RelativeUrlsOfAll(path);
    Languages(m["x-default" := "/ko" + path])
  }

  /** For a path that starts with `/`, each absolute alternate of
      src/lib/seo.ts is the base URL followed by the relative one. */
  lemma AbsoluteIsBasePlusRelative(env: Env, locale: Locale, path: string, key: string)
    requires StartsWith(path, "/")
    requires key in {"ko", "en", "uz", "x-default"}
    ensures Seo.AltLocales(env, locale, path).languages[key]
            == Seo.GetBaseUrl(env) + AltLocales(locale.Code(), path).languages[key]
  {
    var l := if key == "x-default" then Ko else FromCode(key).value;
    LocaleAlternateIsBasePlusRelative(env, locale, path, l);
  }

  lemma LocaleAlternateIsBasePlusRelative(env: Env, locale: Locale, path: string, l: Locale)
    requires StartsWith(path, "/")
    ensures Seo.AltLocales(env, locale, path).languages[l.Code()]
            == Seo.GetBaseUrl(env) + AltLocales(locale.Code(), path).languages[l.Code()]
  {
    var base := Seo.GetBaseUrl(env);
    var code := l.Code();
    assert base + "/" + code + path == base + ("/" + code + path);
  }

  /** Without a leading `/` the two disagree: the relative alternate
      glues the locale and the path together, the absolute one does not. */
  lemma RelativePathIsNotNormalised()
    ensures AltLocales("en", "blog").languages["en"] == "/enblog"
    ensures Seo.AltLocales(map[], En, "blog").languages["en"] == "http://localhost:3000/en/blog"
  {
    AbsoluteBlogAlternate();
    assert AltLocales("en", "blog").languages[En.Code()] == "/" + "en" + "blog";
  }

  lemma AbsoluteBlogAlternate()
    ensures Seo.AltLocales(map[], En, "blog").languages["en"] == "http://localhost:3000/en/blog"
  {
    var env: Env := map[];
    assert Seo.CleanPath("blog") == "/blog" by {
      assert "blog"[..1][0] == 'b';
    }
    assert Seo.GetBaseUrl(env) == Seo.Localhost by {
      Seo.DefaultBase(env);
    }
    assert Seo.AltLocales(env, En, "blog").languages[En.Code()] == Seo.Localhost + "/" + "en" + "/blog";
  }
}
