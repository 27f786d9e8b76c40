/** The XML sitemap route (src/app/sitemap.xml/route.ts): the list of
    page URLs, per locale home, blog index and posts, and the XML
    document written from it, one `<url>` line per URL. Its base URL
    follows its own rule, not `getBaseUrl`. */
module SitemapXml {
  import opened Wrappers
  import opened Text
  import opened Locales
  import opened Env
  import Posts
  import UriEncoding
  import Sitemap
  import Seo

  const BaseVar: string := "NEXT_PUBLIC_BASE_URL"
  const Localhost: string := "http://localhost:3000"

  const Declaration: string := "<?xml version=\"1.0\" encoding=\"UTF-8\"?>"
  const UrlsetOpen: string := "<urlset xmlns=\"http://www.sitemaps.org/schemas/sitemap/0.9\">"
  const UrlsetClose: string := "</urlset>"
  const LocOpen: string := "  <url><loc>"
  const LocClose: string := "</loc></url>"
  const ContentType: string := "application/xml; charset=utf-8"

  /** `process.env.NEXT_PUBLIC_BASE_URL ?? 'http://localhost:3000'`: the
      variable wins whenever it is defined, even when it is empty, and it
      is used as it is. */
  function Base(env: Env): (r: string)
    ensures BaseVar in env ==> r == env[BaseVar]
    ensures BaseVar !in env ==> r == Localhost
  {
    if BaseVar in env then env[BaseVar] else Localhost
  }

  /** An empty `NEXT_PUBLIC_BASE_URL` gives relative URLs here, while the
      metadata base of src/lib/seo.ts skips it and falls back to localhost. */
  lemma EmptyBaseIsKept()
    ensures Base(map[BaseVar := ""]) == ""
    ensures Seo.GetBaseUrl(map[BaseVar := ""]) == Seo.Localhost
  {
    Seo.DefaultBase(map[BaseVar := ""]);
  }

  function PostUrl(base: string, l: Locale, slug: string): string {
    base + "/" + l.Code() + "/blog/" + UriEncoding.Encode(slug)
  }

  /** `for (const p of posts) urls.push(...)`. */
  function PostUrls(base: string, l: Locale, posts: seq<Posts.PostMeta>): (r: seq<string>)
    ensures |r| == |posts|
    ensures forall i :: 0 <= i < |r| ==> r[i] == PostUrl(base, l, posts[i].slug)
  {
    if posts == [] then [] else [PostUrl(base, l, posts[0].slug)] + PostUrls(base, l, posts[1..])
  }

  /** What one pass of the loop over the locales pushes. */
  function LocaleUrls(base: string, l: Locale, posts: seq<Posts.PostMeta>): (r: seq<string>)
    ensures |r| == 2 + |posts|
    ensures forall i :: 0 <= i < |r| ==> StartsWith(r[i], base + "/" + l.Code())
  {
    [base + "/" + l.Code(), base + "/" + l.Code() + "/blog"] + PostUrls(base, l, posts)
  }

  /** The loop over `['ko', 'en', 'uz']`. */
  function Urls(base: string, locales: seq<Locale>, postsOf: Locale -> seq<Posts.PostMeta>): (r: seq<string>)
    ensures |r| == Sitemap.Size(locales, postsOf)
    decreases |locales|
  {
    if locales == [] then []
    else
      var l := locales[|locales| - 1];
      Urls(base, locales[..|locales| - 1], postsOf) + LocaleUrls(base, l, postsOf(l))
  }

  function Line(u: string): string {
    LocOpen + u + LocClose
  }

  function Lines(urls: seq<string>): (r: seq<string>)
    ensures |r| == |urls|
    ensures forall i :: 0 <= i < |r| ==> r[i] == Line(urls[i])
  {
    seq(|urls|, i requires 0 <= i < |urls| => Line(urls[i]))
  }

  /** The template literal of the response body. */
  function Body(urls: seq<string>): (r: string)
    ensures StartsWith(r, Declaration + "\n" + UrlsetOpen + "\n")
    ensures EndsWith(r, "\n" + UrlsetClose)
  {
    Declaration + "\n" + UrlsetOpen + "\n" + Join(Lines(urls), "\n") + "\n" + UrlsetClose
  }

  datatype Response = Response(body: string, contentType: string)

  /** `GET()`, with the post lists of `getAllPosts` supplied per locale. */
  function Get(env: Env, postsOf: Locale -> seq<Posts.PostMeta>): (r: Response)
    ensures r.contentType == "application/xml; charset=utf-8"
  {
    Response(Body(Urls(Base(env), All, postsOf)), ContentType)
  }

  // ---------------------------------------------------------------------
  // Reading the document back

  predicate IsNewline(c: char) {
    c == '\n'
  }

  predicate HasNoNewline(s: string) {
    '\n' !in s
  }

  predicate NoneHasNewline(urls: seq<string>) {
    forall i :: 0 <= i < |urls| ==> HasNoNewline(urls[i])
  }

  predicate IsLine(s: string) {
    |LocOpen| + |LocClose| <= |s| && StartsWith(s, LocOpen) && EndsWith(s, LocClose)
  }

  function LocOf(s: string): string
    requires IsLine(s)
  {
    s[|LocOpen|..|s| - |LocClose|]
  }

  /** What comes before the first `<url>` line and after the last. */
  const Header: string := Declaration + "\n" + UrlsetOpen + "\n"
  const Footer: string := "\n" + UrlsetClose

  /** The URLs of a sitemap document: it must open with the declaration
      and the `urlset` tag, close with the closing tag, and hold between
      them one `<url>` line per URL, or one empty line when there are none. */
  function Parse(body: string): (r: Option<seq<string>>)
    ensures r.Some? ==> StartsWith(body, Header) && EndsWith(body, Footer)
  {
    if |body| < |Header| + |Footer| || !StartsWith(body, Header) || !EndsWith(body, Footer) then None
    else
      var lines := Split(body[|Header|..|body| - |Footer|], IsNewline);
      if lines == [""] then Some([])
      else if forall i :: 0 <= i < |lines| ==> IsLine(lines[i])
      then Some(seq(|lines|, i requires 0 <= i < |lines| => LocOf(lines[i])))
      else None
  }

  lemma LocOfLine(u: string)
    ensures IsLine(Line(u)) && LocOf(Line(u)) == u
  {
    var s := Line(u);
    assert s[..|LocOpen|] == LocOpen;
    assert s[|s| - |LocClose|..] == LocClose;
  }

  lemma LineHasNoNewline(u: string)
    requires HasNoNewline(u)
    ensures HasNoNewline(Line(u))
  {
    assert HasNoNewline(LocOpen);
    assert HasNoNewline(LocClose);
  }

  /** The body is the header, the joined `<url>` lines and the footer. */
  lemma BodyParts(urls: seq<string>)
    ensures Body(urls) == Header + Join(Lines(urls), "\n") + Footer
  {
  }

  /** The lines between header and footer. */
  lemma MiddleLines(urls: seq<string>)
    requires NoneHasNewline(urls)
    ensures Split(Join(Lines(urls), "\n"), IsNewline) == if urls == [] then [""] else Lines(urls)
  {
    if urls != [] {
      var lines := Lines(urls);
      forall i | 0 <= i < |lines| ensures HasNoNewline(lines[i]) {
        LineHasNoNewline(urls[i]);
      }
      SplitJoin(lines, '\n', IsNewline);
    }
  }

  /** Round trip: the document gives back exactly its URL list, so it has
      one `<url>` element per URL, in order. */
  lemma ParseBody(urls: seq<string>)
    requires NoneHasNewline(urls)
    ensures Parse(Body(urls)) == Some(urls)
  {
    var body := Body(urls);
    var joined := Join(Lines(urls), "\n");
    BodyParts(urls);
    assert body[..|Header|] == Header;
    assert body[|body| - |Footer|..] == Footer;
    assert body[|Header|..|body| - |Footer|] == joined;
    MiddleLines(urls);
    var middle := Split(joined, IsNewline);
    if urls == [] {
      assert middle == [""];
    } else {
      assert middle == Lines(urls);
      assert Line(urls[0]) != "" by {
        assert |Line(urls[0])| >= |LocOpen|;
      }
      forall i | 0 <= i < |urls| ensures IsLine(middle[i]) && LocOf(middle[i]) == urls[i] {
        LocOfLine(urls[i]);
      }
      assert seq(|middle|, i requires 0 <= i < |middle| => LocOf(middle[i])) == urls;
    }
  }

  /** A percent-encoded slug has no line break. */
  lemma PostUrlHasNoNewline(base: string, l: Locale, slug: string)
    requires HasNoNewline(base)
    ensures HasNoNewline(PostUrl(base, l, slug))
  {
    var e := UriEncoding.Encode(slug);
    assert HasNoNewline(e);
    assert HasNoNewline(l.Code() + "/blog/") by {
      match l
      case Ko =>
      case En =>
      case Uz =>
    }
    assert PostUrl(base, l, slug) == base + "/" + (l.Code() + "/blog/") + e;
  }

  lemma LocaleUrlsHaveNoNewline(base: string, l: Locale, posts: seq<Posts.PostMeta>)
    requires HasNoNewline(base)
    ensures NoneHasNewline(LocaleUrls(base, l, posts))
  {
    var urls := LocaleUrls(base, l, posts);
    forall i | 0 <= i < |urls| ensures HasNoNewline(urls[i]) {
      if i < 2 {
        assert HasNoNewline(l.Code()) by {
          match l
          case Ko =>
          case En =>
          case Uz =>
        }
        assert urls[i] == base + "/" + l.Code() || urls[i] == base + "/" + l.Code() + "/blog";
      } else {
        PostUrlHasNoNewline(base, l, posts[i - 2].slug);
      }
    }
  }

  /** No URL of the list contains a line break, as long as the base URL
      has none: the slugs are percent-encoded. */
  lemma {:induction false} UrlsHaveNoNewline(base: string, locales: seq<Locale>,
                                             postsOf: Locale -> seq<Posts.PostMeta>)
    requires HasNoNewline(base)
    ensures NoneHasNewline(Urls(base, locales, postsOf))
    decreases |locales|
  {
    if locales != [] {
      var l := locales[|locales| - 1];
      UrlsHaveNoNewline(base, locales[..|locales| - 1], postsOf);
      LocaleUrlsHaveNoNewline(base, l, postsOf(l));
      var front := Urls(base, locales[..|locales| - 1], postsOf);
      var block := LocaleUrls(base, l, postsOf(l));
      forall i | 0 <= i < |front| + |block| ensures HasNoNewline((front + block)[i]) {
        if i >= |front| {
          assert (front + block)[i] == block[i - |front|];
        } else {
          assert (front + block)[i] == front[i];
        }
      }
    }
  }

  /** The route's response reads back as its URL list whenever the base
      URL has no line break. */
  lemma GetRoundTrip(env: Env, postsOf: Locale -> seq<Posts.PostMeta>)
    requires HasNoNewline(Base(env))
    ensures Parse(Get(env, postsOf).body) == Some(Urls(Base(env), All, postsOf))
  {
    UrlsHaveNoNewline(Base(env), All, postsOf);
    ParseBody(Urls(Base(env), All, postsOf));
  }

  predicate IsPlainSlug(slug: string) {
    forall j :: 0 <= j < |slug| ==> UriEncoding.IsUnreserved(slug[j])
  }

  lemma PostUrlAgrees(base: string, l: Locale, slug: string)
    requires IsPlainSlug(slug)
    ensures PostUrl(base, l, slug) == Sitemap.PostUrl(base, l, slug)
  {
    UriEncoding.EncodeUnreserved(slug);
    var c := l.Code();
    calc {
      Sitemap.PostUrl(base, l, slug);
      ((base + "/" + c) + "/blog") + "/" + slug;
      { assert "/blog" + "/" == "/blog/"; }
      base + "/" + c + "/blog/" + slug;
    }
  }

  lemma LocaleUrlsMatchBlock(base: string, now: int, l: Locale, posts: seq<Posts.PostMeta>, timeOf: string -> int)
    requires AllPlain(posts)
    ensures SameUrls(LocaleUrls(base, l, posts), Sitemap.LocaleBlock(base, now, l, posts, timeOf))
  {
    var ours := LocaleUrls(base, l, posts);
    var theirs := Sitemap.LocaleBlock(base, now, l, posts, timeOf);
    var postEntries := Sitemap.PostEntries(base, l, posts, timeOf);
    assert theirs[2..] == postEntries;
    forall i | 0 <= i < |ours| ensures ours[i] == theirs[i].url {
      if i >= 2 {
        PostUrlAgrees(base, l, posts[i - 2].slug);
        assert theirs[i] == postEntries[i - 2];
      }
    }
  }

  predicate AllPlain(posts: seq<Posts.PostMeta>) {
    forall k :: 0 <= k < |posts| ==> IsPlainSlug(posts[k].slug)
  }

  predicate SameUrls(urls: seq<string>, entries: seq<Sitemap.Entry>) {
    |urls| == |entries| && forall i :: 0 <= i < |urls| ==> urls[i] == entries[i].url
  }

  lemma SameUrlsAppend(a: seq<string>, b: seq<string>, x: seq<Sitemap.Entry>, y: seq<Sitemap.Entry>)
    requires SameUrls(a, x) && SameUrls(b, y)
    ensures SameUrls(a + b, x + y)
  {
    forall i | 0 <= i < |a| + |b| ensures (a + b)[i] == (x + y)[i].url {
      if i < |a| {
        assert (a + b)[i] == a[i] && (x + y)[i] == x[i];
      } else {
        assert (a + b)[i] == b[i - |a|] && (x + y)[i] == y[i - |a|];
      }
    }
  }

  /** Against src/app/sitemap.ts: with the same base URL, the route lists
      the same URLs in the same order when no slug needs escaping. */
  lemma {:induction false} SameUrlsAsSitemap(base: string, now: int, locales: seq<Locale>,
                                             postsOf: Locale -> seq<Posts.PostMeta>, timeOf: string -> int)
    requires forall l: Locale :: AllPlain(postsOf(l))
    ensures SameUrls(Urls(base, locales, postsOf), Sitemap.Entries(base, now, locales, postsOf, timeOf))
    decreases |locales|
  {
    if locales != [] {
      var l := locales[|locales| - 1];
      SameUrlsAsSitemap(base, now, locales[..|locales| - 1], postsOf, timeOf);
      assert AllPlain(postsOf(l));
      LocaleUrlsMatchBlock(base, now, l, postsOf(l), timeOf);
      SameUrlsAppend(Urls(base, locales[..|locales| - 1], postsOf), LocaleUrls(base, l, postsOf(l)),
                     Sitemap.Entries(base, now, locales[..|locales| - 1], postsOf, timeOf),
                     Sitemap.LocaleBlock(base, now, l, postsOf(l), timeOf));
    }
  }
}
