/** The metadata sitemap (src/app/sitemap.ts): for each locale, in
    `LOCALES` order, the home page, the blog index and then every
    published post in the order `getAllPosts` returns them. The time of
    the request is a parameter. */
module Sitemap {
  import opened Locales
  import opened Env
  import Seo
  import Posts

  datatype ChangeFrequency = Weekly | Daily | Monthly

  /** A sitemap entry; `priority` is counted in tenths (0.8 is 8). */
  datatype Entry = Entry(url: string, lastModified: int, changeFrequency: ChangeFrequency, priority: nat)

  function HomeUrl(base: string, l: Locale): string {
    base + "/" + l.Code()
  }

  function BlogUrl(base: string, l: Locale): string {
    HomeUrl(base, l) + "/blog"
  }

  function PostUrl(base: string, l: Locale, slug: string): string {
    BlogUrl(base, l) + "/" + slug
  }

  /** The three kinds of entry keep their frequency and priority together
      and the two static pages carry the request time. */
  predicate IsWellFormed(e: Entry, now: int) {
    && (e.changeFrequency == Weekly <==> e.priority == 8)
    && (e.changeFrequency == Daily <==> e.priority == 7)
    && (e.changeFrequency == Monthly <==> e.priority == 6)
    && (e.changeFrequency != Monthly ==> e.lastModified == now)
  }

  /** The inner loop over the posts of one locale. */
  function PostEntries(base: string, l: Locale, posts: seq<Posts.PostMeta>, timeOf: string -> int): (r: seq<Entry>)
    ensures |r| == |posts|
    ensures forall i :: 0 <= i < |r| ==>
              r[i].url == PostUrl(base, l, posts[i].slug) && r[i].lastModified == timeOf(posts[i].date)
    ensures forall i :: 0 <= i < |r| ==> r[i].changeFrequency == Monthly && r[i].priority == 6
  {
    if posts == [] then []
    else [Entry(PostUrl(base, l, posts[0].slug), timeOf(posts[0].date), Monthly, 6)]
         + PostEntries(base, l, posts[1..], timeOf)
  }

  /** What one pass of the outer loop pushes for locale `l`. */
  function LocaleBlock(base: string, now: int, l: Locale, posts: seq<Posts.PostMeta>, timeOf: string -> int)
    : (r: seq<Entry>)
    ensures |r| == 2 + |posts|
    ensures r[0] == Entry(HomeUrl(base, l), now, Weekly, 8)
    ensures r[1] == Entry(BlogUrl(base, l), now, Daily, 7)
    ensures r[2..] == PostEntries(base, l, posts, timeOf)
  {
    [Entry(HomeUrl(base, l), now, Weekly, 8), Entry(BlogUrl(base, l), now, Daily, 7)]
    + PostEntries(base, l, posts, timeOf)
  }

  /** `2 + |posts(l)|` summed over `locales`. */
  function Size(locales: seq<Locale>, postsOf: Locale -> seq<Posts.PostMeta>): nat
  {
    if locales == [] then 0 else Size(locales[..|locales| - 1], postsOf) + 2 + |postsOf(locales[|locales| - 1])|
  }

  /** The outer loop over `locales`, pushing one block per locale. */
  function Entries(base: string, now: int, locales: seq<Locale>, postsOf: Locale -> seq<Posts.PostMeta>,
                   timeOf: string -> int): (r: seq<Entry>)
    ensures |r| == Size(locales, postsOf)
    decreases |locales|
  {
    if locales == [] then []
    else
      var l := locales[|locales| - 1];
      Entries(base, now, locales[..|locales| - 1], postsOf, timeOf) + LocaleBlock(base, now, l, postsOf(l), timeOf)
  }

  /** The posts the sitemap lists for locale `l`. */
  function PostsOf(content: Posts.Content): Locale -> seq<Posts.PostMeta> {
    (l: Locale) => Posts.GetAllPosts(content, l)
  }

  /** `sitemap()`. */
  function SitemapOf(env: Env, now: int, content: Posts.Content): (r: seq<Entry>)
    ensures |r| == 6 + |Posts.GetAllPosts(content, Ko)| + |Posts.GetAllPosts(content, En)|
                     + |Posts.GetAllPosts(content, Uz)|
  {
    SizeOfAll(PostsOf(content));
    Entries(Seo.GetBaseUrl(env), now, All, PostsOf(content), content.timeOf)
  }

  lemma SizeOfAll(postsOf: Locale -> seq<Posts.PostMeta>)
    ensures Size(All, postsOf) == 6 + |postsOf(Ko)| + |postsOf(En)| + |postsOf(Uz)|
  {
    assert All[..2] == [Ko, En];
    assert [Ko, En][..1] == [Ko];
    assert [Ko][..0] == [];
  }

  /** The loop over `LOCALES` lays out the ko block, then en, then uz. */
  lemma EntriesOfAll(base: string, now: int, postsOf: Locale -> seq<Posts.PostMeta>, timeOf: string -> int)
    ensures Entries(base, now, All, postsOf, timeOf)
            == LocaleBlock(base, now, Ko, postsOf(Ko), timeOf)
               + LocaleBlock(base, now, En, postsOf(En), timeOf)
               + LocaleBlock(base, now, Uz, postsOf(Uz), timeOf)
  {
    assert All[..2] == [Ko, En];
    assert [Ko, En][..1] == [Ko];
    assert [Ko][..0] == [];
    assert Entries(base, now, [Ko], postsOf, timeOf) == LocaleBlock(base, now, Ko, postsOf(Ko), timeOf);
  }

  /** Where each locale's block starts. */
  function Offset(postsOf: Locale -> seq<Posts.PostMeta>, l: Locale): nat {
    match l
    case Ko => 0
    case En => 2 + |postsOf(Ko)|
    case Uz => 4 + |postsOf(Ko)| + |postsOf(En)|
  }

  /** The `i`-th entry of locale `l`'s block, at its place in the list. */
  lemma BlockAt(base: string, now: int, postsOf: Locale -> seq<Posts.PostMeta>, timeOf: string -> int,
                l: Locale, i: nat)
    requires i < 2 + |postsOf(l)|
    ensures var r := Entries(base, now, All, postsOf, timeOf);
            Offset(postsOf, l) + i < |r| && r[Offset(postsOf, l) + i] == LocaleBlock(base, now, l, postsOf(l), timeOf)[i]
  {
    EntriesOfAll(base, now, postsOf, timeOf);
    var bk := LocaleBlock(base, now, Ko, postsOf(Ko), timeOf);
    var be := LocaleBlock(base, now, En, postsOf(En), timeOf);
    var bu := LocaleBlock(base, now, Uz, postsOf(Uz), timeOf);
    match l
    case Ko => assert (bk + be + bu)[i] == bk[i];
    case En => assert (bk + be + bu)[|bk| + i] == be[i];
    case Uz => assert (bk + be + bu)[|bk| + |be| + i] == bu[i];
  }

  /** Each locale contributes its home page, its blog index and then its
      posts in order, at the block's offset. */
  lemma BlockLayout(base: string, now: int, postsOf: Locale -> seq<Posts.PostMeta>, timeOf: string -> int,
                    l: Locale, k: nat)
    requires k < |postsOf(l)|
    ensures var r := Entries(base, now, All, postsOf, timeOf);
            var at := Offset(postsOf, l);
            var p := postsOf(l)[k];
            && at + 2 + k < |r|
            && r[at] == Entry(HomeUrl(base, l), now, Weekly, 8)
            && r[at + 1] == Entry(BlogUrl(base, l), now, Daily, 7)
            && r[at + 2 + k] == Entry(PostUrl(base, l, p.slug), timeOf(p.date), Monthly, 6)
  {
    BlockAt(base, now, postsOf, timeOf, l, 0);
    BlockAt(base, now, postsOf, timeOf, l, 1);
    PostAt(base, now, postsOf, timeOf, l, k);
  }

  /** The `k`-th post of locale `l` sits `2 + k` entries into its block. */
  lemma PostAt(base: string, now: int, postsOf: Locale -> seq<Posts.PostMeta>, timeOf: string -> int,
               l: Locale, k: nat)
    requires k < |postsOf(l)|
    ensures var r := Entries(base, now, All, postsOf, timeOf);
            var p := postsOf(l)[k];
            Offset(postsOf, l) + 2 + k < |r|
            && r[Offset(postsOf, l) + 2 + k] == Entry(PostUrl(base, l, p.slug), timeOf(p.date), Monthly, 6)
  {
    BlockAt(base, now, postsOf, timeOf, l, 2 + k);
    var b := LocaleBlock(base, now, l, postsOf(l), timeOf);
    assert b[2 + k] == b[2..][k];
  }

  /** Posts listed newest first, as `getAllPosts` lists them, give post
      entries newest first. */
  lemma PostsNewestFirst(base: string, now: int, postsOf: Locale -> seq<Posts.PostMeta>, timeOf: string -> int,
                         l: Locale, j: nat, k: nat)
    requires forall a, b :: 0 <= a < b < |postsOf(l)| ==> timeOf(postsOf(l)[a].date) >= timeOf(postsOf(l)[b].date)
    requires j < k < |postsOf(l)|
    ensures var r := Entries(base, now, All, postsOf, timeOf);
            var at := Offset(postsOf, l);
            at + 2 + k < |r| && r[at + 2 + j].lastModified >= r[at + 2 + k].lastModified
  {
    BlockLayout(base, now, postsOf, timeOf, l, j);
    BlockLayout(base, now, postsOf, timeOf, l, k);
  }

  lemma {:induction false} EntriesWellFormed(base: string, now: int, locales: seq<Locale>,
                                             postsOf: Locale -> seq<Posts.PostMeta>, timeOf: string -> int)
    ensures forall i :: 0 <= i < |Entries(base, now, locales, postsOf, timeOf)| ==>
              IsWellFormed(Entries(base, now, locales, postsOf, timeOf)[i], now)
    decreases |locales|
  {
    if locales != [] {
      var l := locales[|locales| - 1];
      EntriesWellFormed(base, now, locales[..|locales| - 1], postsOf, timeOf);
      var front := Entries(base, now, locales[..|locales| - 1], postsOf, timeOf);
      var block := LocaleBlock(base, now, l, postsOf(l), timeOf);
      assert forall i :: 2 <= i < |block| ==> block[i] == block[2..][i - 2];
      assert forall i :: 0 <= i < |block| ==> IsWellFormed(block[i], now);
    }
  }

  /** Home pages are weekly at 0.8, blog indexes daily at 0.7, posts
      monthly at 0.6; only posts carry their own date. */
  lemma SitemapWellFormed(env: Env, now: int, content: Posts.Content)
    ensures forall e :: e in SitemapOf(env, now, content) ==> IsWellFormed(e, now)
  {
    EntriesWellFormed(Seo.GetBaseUrl(env), now, All, PostsOf(content), content.timeOf);
  }

  /** The blog index URL is the absolute alternate of `/blog` for the
      same locale. */
  lemma BlogIndexIsAlternate(env: Env, l: Locale)
    ensures BlogUrl(Seo.GetBaseUrl(env), l) == Seo.AltLocales(env, l, "/blog").languages[l.Code()]
  {
    assert Seo.CleanPath("/blog") == "/blog";
  }
}
