/** The post collection pipeline of src/lib/posts.ts: directory entries
    are filtered by extension, their frontmatter is checked against the
    schema, word count and reading time are derived, drafts are dropped
    and the rest is ordered newest first.

    The file system is an input: `Content.dirs` maps a locale to the
    entries of its posts directory (a locale without an entry is a
    directory that could not be read), and each entry carries the
    frontmatter and body that gray-matter produced, or `None` when
    reading or parsing the file threw. `Content.timeOf` stands for
    `+new Date(date)`. */
module Posts {
  import opened Wrappers
  import opened Text
  import opened Unicode
  import opened Locales
  import Sorting

  /** A frontmatter value as the YAML parser hands it to the schema:
      a string, a boolean, a list, or anything else (a number, a date,
      `null`, a mapping). */
  datatype Value = Str(s: string) | Bool(b: bool) | List(items: seq<Value>) | Other

  type Frontmatter = map<string, Value>

  datatype Parsed = Parsed(data: Frontmatter, content: string)

  datatype DirEntry = DirEntry(name: string, source: Option<Parsed>)

  datatype Content = Content(root: string, dirs: map<Locale, seq<DirEntry>>, timeOf: string -> int)

  /** `PostFrontmatter` after the schema: the fields it keeps. */
  datatype PostFrontmatter = PostFrontmatter(
    title: string,
    date: string,
    slug: string,
    summary: Option<string>,
    description: Option<string>,
    tags: Option<seq<string>>,
    cover: Option<string>,
    draft: bool,
    lang: Locale)

  /** `PostMeta`: the frontmatter with the derived fields. */
  datatype PostMeta = PostMeta(
    title: string,
    date: string,
    slug: string,
    summary: Option<string>,
    description: Option<string>,
    tags: Option<seq<string>>,
    cover: Option<string>,
    draft: bool,
    lang: Locale,
    words: nat,
    readingTime: nat,
    filepath: string)

  // ---------------------------------------------------------------------
  // Directory listing
  // ---------------------------------------------------------------------

  /** `safeReaddir`: the entries of the locale's directory, or none when
      the directory cannot be read. */
  function Listing(content: Content, locale: Locale): (r: seq<DirEntry>)
    ensures locale !in content.dirs ==> r == []
    ensures locale in content.dirs ==> r == content.dirs[locale]
  {
    if locale in content.dirs then content.dirs[locale] else []
  }

  /** `path.join(CONTENT_DIR, locale, "posts")`. */
  function PostsDir(content: Content, locale: Locale): string {
    content.root + "/" + locale.Code() + "/posts"
  }

  /** Only `.mdx` and `.md` files are posts. */
  predicate HasPostExtension(name: string) {
    EndsWith(name, ".mdx") || EndsWith(name, ".md")
  }

  // ---------------------------------------------------------------------
  // Frontmatter schema
  // ---------------------------------------------------------------------

  /** A required string of at least `min` UTF-16 code units (`z.string().min(min)`). */
  predicate IsStringOfLength(data: Frontmatter, key: string, min: nat) {
    key in data && data[key].Str? && Utf16Length(data[key].s) >= min
  }

  /** An optional field is absent or a string (`z.string().optional()`;
      `null` is not accepted). */
  predicate IsOptionalString(data: Frontmatter, key: string) {
    key !in data || data[key].Str?
  }

  predicate IsStringList(v: Value) {
    v.List? && forall i :: 0 <= i < |v.items| ==> v.items[i].Str?
  }

  /** What the schema accepts. `lang` is not checked: the caller
      overwrites it with the requested locale before validation. */
  predicate ConformsToSchema(data: Frontmatter) {
    && IsStringOfLength(data, "title", 3)
    && IsStringOfLength(data, "date", 0)
    && IsStringOfLength(data, "slug", 1)
    && IsOptionalString(data, "summary")
    && IsOptionalString(data, "description")
    && ("tags" !in data || IsStringList(data["tags"]))
    && IsOptionalString(data, "cover")
    && ("draft" !in data || data["draft"].Bool?)
  }

  function RequiredString(data: Frontmatter, key: string, min: nat): Option<string> {
    if key in data then
      match data[key]
      case Str(s) => if Utf16Length(s) >= min then Some(s) else None
      case _ => None
    else None
  }

  /** `Some(None)` for an absent field, `None` for an ill-typed one. */
  function OptionalString(data: Frontmatter, key: string): Option<Option<string>> {
    if key !in data then Some(None)
    else
      match data[key]
      case Str(s) => Some(Some(s))
      case _ => None
  }

  function Strings(items: seq<Value>): (r: Option<seq<string>>)
    ensures r.Some? <==> forall i :: 0 <= i < |items| ==> items[i].Str?
    ensures r.Some? ==> |r.value| == |items| && forall i :: 0 <= i < |items| ==> r.value[i] == items[i].s
    decreases |items|
  {
    if items == [] then Some([])
    else
      match items[0]
      case Str(s) =>
        (match Strings(items[1..])
         case Some(rest) => Some([s] + rest)
         case None => None)
      case _ => None
  }

  function OptionalTags(data: Frontmatter): Option<Option<seq<string>>> {
    if "tags" !in data then Some(None)
    else
      match data["tags"]
      case List(items) =>
        (match Strings(items)
         case Some(ts) => Some(Some(ts))
         case None => None)
      case _ => None
  }

  /** `z.boolean().default(false)`. */
  function DraftFlag(data: Frontmatter): Option<bool> {
    if "draft" !in data then Some(false)
    else
      match data["draft"]
      case Bool(b) => Some(b)
      case _ => None
  }

  /** `fmSchema.parse({ ...data, lang: locale })`: the validated
      frontmatter, or `None` when the schema throws. */
  function ParseFrontmatter(data: Frontmatter, locale: Locale): (r: Option<PostFrontmatter>)
    ensures r.Some? <==> ConformsToSchema(data)
    ensures r.Some? ==>
              && r.value.lang == locale
              && r.value.title == data["title"].s && Utf16Length(r.value.title) >= 3
              && r.value.date == data["date"].s
              && r.value.slug == data["slug"].s && r.value.slug != []
              && r.value.draft == ("draft" in data && data["draft"].b)
              && (r.value.description.Some? <==> "description" in data)
              && (r.value.summary.Some? <==> "summary" in data)
    ensures r.Some? ==>
              && r.value.summary == (if "summary" in data then Some(data["summary"].s) else None)
              && r.value.description == (if "description" in data then Some(data["description"].s) else None)
              && r.value.cover == (if "cover" in data then Some(data["cover"].s) else None)
    ensures r.Some? ==>
              && (r.value.tags.Some? <==> "tags" in data)
              && ("tags" in data ==> |r.value.tags.value| == |data["tags"].items|
                                     && forall i :: 0 <= i < |data["tags"].items| ==> r.value.tags.value[i] == data["tags"].items[i].s)
  {
    var title := RequiredString(data, "title", 3);
    var date := RequiredString(data, "date", 0);
    var slug := RequiredString(data, "slug", 1);
    var summary := OptionalString(data, "summary");
    var description := OptionalString(data, "description");
    var tags := OptionalTags(data);
    var cover := OptionalString(data, "cover");
    var draft := DraftFlag(data);
    if && title.Some? && date.Some? && slug.Some? && summary.Some? && description.Some?
       && tags.Some? && cover.Some? && draft.Some?
    then
      Some(PostFrontmatter(title.value, date.value, slug.value, summary.value, description.value,
                           tags.value, cover.value, draft.value, locale))
    else None
  }

  /** Whatever `lang` the file declares, the post's locale is the one requested. */
  lemma LangIsIgnored(data: Frontmatter, v: Value, locale: Locale)
    ensures ParseFrontmatter(data["lang" := v], locale) == ParseFrontmatter(data, locale)
  {
    var d := data["lang" := v];
    assert forall k :: k != "lang" ==> (k in d <==> k in data) && (k in data ==> d[k] == data[k]);
  }

  // ---------------------------------------------------------------------
  // Derived metadata
  // ---------------------------------------------------------------------

  /** `content.trim().split(/\s+/).filter(Boolean).length`. */
  function WordCount(body: string): (n: nat)
    ensures n == WordStarts(body, true)
  {
    TrimThenSplit(body, IsSpace);
    PiecesCountWordStarts(body, true);
    |NonEmpty(Split(Trim(body, IsSpace), IsSpace))|
  }

  /** Reference count of words: the positions where a non-space character
      follows white space or the start (`afterSpace`) of the text. */
  function WordStarts(s: string, afterSpace: bool): nat
    decreases |s|
  {
    if s == [] then 0
    else (if afterSpace && !IsSpace(s[0]) then 1 else 0) + WordStarts(s[1..], IsSpace(s[0]))
  }

  lemma {:induction false} PiecesCountWordStarts(s: string, afterSpace: bool)
    ensures WordStarts(s, afterSpace)
            == |NonEmpty(Split(s, IsSpace))| - (if !afterSpace && s != [] && !IsSpace(s[0]) then 1 else 0)
    decreases |s|
  {
    if s != [] {
      var rest := Split(s[1..], IsSpace);
      PiecesCountWordStarts(s[1..], IsSpace(s[0]));
      assert rest[0] == [] <==> s[1..] == [] || IsSpace(s[1..][0]) by {
        FirstPieceEmpty(s[1..]);
      }
      if IsSpace(s[0]) {
        assert Split(s, IsSpace) == [""] + rest;
        NonEmptyAppend([""], rest);
        assert NonEmpty([""]) == [];
      } else {
        var first := [s[0]] + rest[0];
        assert Split(s, IsSpace) == [first] + rest[1..];
        assert rest == [rest[0]] + rest[1..];
        NonEmptyAppend([first], rest[1..]);
        NonEmptyAppend([rest[0]], rest[1..]);
        assert NonEmpty([first]) == [first];
        if rest[0] == [] {
          assert NonEmpty([rest[0]]) == [];
        } else {
          assert NonEmpty([rest[0]]) == [rest[0]];
        }
      }
    }
  }

  lemma {:induction false} FirstPieceEmpty(s: string)
    ensures Split(s, IsSpace)[0] == [] <==> s == [] || IsSpace(s[0])
  {
  }

  /** The word count is the number of maximal runs of non-space
      characters; in particular a blank body has no words. */
  lemma WordCountIsRunCount(body: string)
    ensures WordCount(body) == WordStarts(body, true)
    ensures (forall i :: 0 <= i < |body| ==> IsSpace(body[i])) ==> WordCount(body) == 0
  {
    TrimThenSplit(body, IsSpace);
    PiecesCountWordStarts(body, true);
    if forall i :: 0 <= i < |body| ==> IsSpace(body[i]) {
      AllSpaceHasNoWordStarts(body, true);
    }
  }

  lemma {:induction false} AllSpaceHasNoWordStarts(s: string, afterSpace: bool)
    requires forall i :: 0 <= i < |s| ==> IsSpace(s[i])
    ensures WordStarts(s, afterSpace) == 0
    decreases |s|
  {
    if s != [] {
      AllSpaceHasNoWordStarts(s[1..], true);
    }
  }

  /** `Math.max(1, Math.round(words / 200))`: half a unit rounds up, so
      for a non-negative count this is `max(1, (words + 100) / 200)`. */
  function ReadingTime(words: nat): (r: nat)
    ensures r >= 1
    ensures words >= 100 ==> 200 * r - 100 <= words < 200 * r + 100
    ensures words < 100 ==> r == 1
  {
    var rounded := (words + 100) / 200;
    if rounded < 1 then 1 else rounded
  }

  /** Reading time never decreases as the word count grows. */
  lemma ReadingTimeMonotone(w1: nat, w2: nat)
    requires w1 <= w2
    ensures ReadingTime(w1) <= ReadingTime(w2)
  {
  }

  /** Anything shorter than 300 words is a one-minute read. */
  lemma ReadingTimeShort(words: nat)
    requires words < 300
    ensures ReadingTime(words) == 1
  {
  }

  // ---------------------------------------------------------------------
  // Collection
  // ---------------------------------------------------------------------

  /** The record built for one accepted file. */
  function ToPostMeta(fm: PostFrontmatter, body: string, filepath: string): (p: PostMeta)
    ensures p.description == (if fm.description.Some? then fm.description else fm.summary)
  {
    var words := WordCount(body);
    PostMeta(fm.title, fm.date, fm.slug, fm.summary,
             if fm.description.Some? then fm.description else fm.summary,
             fm.tags, fm.cover, fm.draft, fm.lang,
             words, ReadingTime(words), filepath)
  }

  /** An entry the loop turns into a post: a `.md`/`.mdx` file that was
      read and parsed and whose frontmatter the schema accepts. */
  predicate IsPostFile(e: DirEntry) {
    HasPostExtension(e.name) && e.source.Some? && ConformsToSchema(e.source.value.data)
  }

  /** One iteration of the loop over directory entries: the post it adds,
      or `None` when the entry is skipped (wrong extension) or its
      processing throws (unreadable file, bad frontmatter). */
  function Accept(content: Content, locale: Locale, e: DirEntry): (r: Option<PostMeta>)
    ensures r.Some? <==> IsPostFile(e)
    ensures r.Some? ==> r.value.lang == locale && r.value.slug != []
  {
    if !HasPostExtension(e.name) then None
    else
      match e.source
      case None => None
      case Some(parsed) =>
        match ParseFrontmatter(parsed.data, locale)
        case None => None
        case Some(fm) => Some(ToPostMeta(fm, parsed.content, PostsDir(content, locale) + "/" + e.name))
  }

  /** What an accepted entry becomes: a post in the requested locale
      whose title and slug passed the schema, whose description falls
      back to the summary, whose word count is the number of words of the
      body and whose file path is the entry's path in the locale's posts
      directory. */
  lemma AcceptedPost(content: Content, locale: Locale, e: DirEntry)
    requires IsPostFile(e)
    ensures var p := Accept(content, locale, e).value;
            var data := e.source.value.data;
            && p.lang == locale
            && p.title == data["title"].s && Utf16Length(p.title) >= 3
            && p.slug == data["slug"].s && p.slug != []
            && p.date == data["date"].s
            && p.draft == ("draft" in data && data["draft"].b)
            && (p.description.Some? <==> "description" in data || "summary" in data)
            && ("description" !in data && "summary" in data ==> p.description == Some(data["summary"].s))
            && ("description" in data ==> p.description == Some(data["description"].s))
            && p.summary == (if "summary" in data then Some(data["summary"].s) else None)
            && p.cover == (if "cover" in data then Some(data["cover"].s) else None)
            && (p.tags.Some? <==> "tags" in data)
            && ("tags" in data ==> |p.tags.value| == |data["tags"].items|
                                   && forall i :: 0 <= i < |data["tags"].items| ==> p.tags.value[i] == data["tags"].items[i].s)
            && p.words == WordStarts(e.source.value.content, true)
            && p.readingTime == ReadingTime(p.words)
            && p.filepath == PostsDir(content, locale) + "/" + e.name
  {
    WordCountIsRunCount(e.source.value.content);
  }

  /** The `out` array after the loop: accepted posts in directory order. */
  function Collect(content: Content, locale: Locale, entries: seq<DirEntry>): (r: seq<PostMeta>)
    ensures |r| <= |entries|
    ensures forall i :: 0 <= i < |r| ==> r[i].lang == locale && r[i].slug != []
    decreases |entries|
  {
    if entries == [] then []
    else
      match Accept(content, locale, entries[0])
      case Some(p) => [p] + Collect(content, locale, entries[1..])
      case None => Collect(content, locale, entries[1..])
  }

  predicate IsPublished(p: PostMeta) {
    !p.draft
  }

  function DateKey(content: Content): PostMeta -> int {
    (p: PostMeta) => content.timeOf(p.date)
  }

  /** `getAllPosts(locale)`: the accepted, non-draft posts, newest first. */
  function GetAllPosts(content: Content, locale: Locale): (r: seq<PostMeta>)
    ensures forall i :: 0 <= i < |r| ==> !r[i].draft && r[i].lang == locale && r[i].slug != []
    ensures forall i, j :: 0 <= i < j < |r| ==> content.timeOf(r[i].date) >= content.timeOf(r[j].date)
    ensures multiset(r) == multiset(Filter(Collect(content, locale, Listing(content, locale)), IsPublished))
  {
    var published := Filter(Collect(content, locale, Listing(content, locale)), IsPublished);
    var r := Sorting.SortDesc(published, DateKey(content));
    assert forall i :: 0 <= i < |r| ==> !r[i].draft && r[i].lang == locale && r[i].slug != [] by {
      forall i | 0 <= i < |r|
        ensures !r[i].draft && r[i].lang == locale && r[i].slug != []
      {
        assert r[i] in multiset(r);
        assert r[i] in published;
      }
    }
    r
  }

  /** `posts.find((p) => p.slug === slug) ?? null`. */
  function FindBySlug(posts: seq<PostMeta>, slug: string): (r: Option<PostMeta>)
    ensures r.None? <==> forall i :: 0 <= i < |posts| ==> posts[i].slug != slug
    ensures r.Some? ==> exists k :: 0 <= k < |posts| && posts[k] == r.value && r.value.slug == slug
                                    && forall i :: 0 <= i < k ==> posts[i].slug != slug
    decreases |posts|
  {
    if posts == [] then None
    else if posts[0].slug == slug then Some(posts[0])
    else
      var r := FindBySlug(posts[1..], slug);
      if r.Some? then
        assert exists k :: 0 <= k < |posts| && posts[k] == r.value && r.value.slug == slug
                           && forall i :: 0 <= i < k ==> posts[i].slug != slug by {
          var k :| 0 <= k < |posts| - 1 && posts[1..][k] == r.value && r.value.slug == slug
                   && forall i :: 0 <= i < k ==> posts[1..][i].slug != slug;
          assert posts[k + 1] == r.value;
          assert forall i :: 1 <= i < k + 1 ==> posts[i] == posts[1..][i - 1];
        }
        r
      else r
  }

  /** `getPostBySlug(locale, slug)`. */
  function GetPostBySlug(content: Content, locale: Locale, slug: string): (r: Option<PostMeta>)
    ensures r.None? <==> forall i :: 0 <= i < |GetAllPosts(content, locale)| ==> GetAllPosts(content, locale)[i].slug != slug
    ensures r.Some? ==> r.value in GetAllPosts(content, locale) && r.value.slug == slug
                        && !r.value.draft && r.value.lang == locale
  {
    FindBySlug(GetAllPosts(content, locale), slug)
  }

  // ---------------------------------------------------------------------
  // Lemmas about the collection
  // ---------------------------------------------------------------------

  /** The loop handles each entry on its own: an entry that is skipped or
      throws adds nothing, and processing carries on with the rest. */
  lemma {:induction false} CollectAppend(content: Content, locale: Locale, a: seq<DirEntry>, b: seq<DirEntry>)
    ensures Collect(content, locale, a + b) == Collect(content, locale, a) + Collect(content, locale, b)
    decreases |a|
  {
    if a == [] {
      assert a + b == b;
    } else {
      assert (a + b)[0] == a[0];
      assert (a + b)[1..] == a[1..] + b;
      CollectAppend(content, locale, a[1..], b);
    }
  }

  /** An entry that is rejected contributes nothing to the result. */
  lemma RejectedEntryIsSkipped(content: Content, locale: Locale, a: seq<DirEntry>, e: DirEntry, b: seq<DirEntry>)
    requires !IsPostFile(e)
    ensures Collect(content, locale, a + [e] + b) == Collect(content, locale, a + b)
  {
    RejectedEntryAlone(content, locale, e);
    CollectAppend(content, locale, a + [e], b);
    CollectAppend(content, locale, a, [e]);
    CollectAppend(content, locale, a, b);
    assert Collect(content, locale, a) + [] == Collect(content, locale, a);
  }

  lemma RejectedEntryAlone(content: Content, locale: Locale, e: DirEntry)
    requires !IsPostFile(e)
    ensures Collect(content, locale, [e]) == []
  {
    assert [e][1..] == [];
  }

  /** Every collected post is the post of some accepted entry. */
  lemma {:induction false} CollectSound(content: Content, locale: Locale, entries: seq<DirEntry>, p: PostMeta)
    requires p in Collect(content, locale, entries)
    ensures exists k :: 0 <= k < |entries| && Accept(content, locale, entries[k]) == Some(p)
    decreases |entries|
  {
    var a := Accept(content, locale, entries[0]);
    if a == Some(p) {
      assert Accept(content, locale, entries[0]) == Some(p);
    } else {
      assert p in Collect(content, locale, entries[1..]);
      CollectSound(content, locale, entries[1..], p);
      var k :| 0 <= k < |entries[1..]| && Accept(content, locale, entries[1..][k]) == Some(p);
      assert entries[k + 1] == entries[1..][k];
    }
  }

  /** Every accepted entry's post is in the collection. */
  lemma {:induction false} CollectComplete(content: Content, locale: Locale, entries: seq<DirEntry>, k: nat)
    requires k < |entries| && Accept(content, locale, entries[k]).Some?
    ensures Accept(content, locale, entries[k]).value in Collect(content, locale, entries)
    decreases |entries|
  {
    if k > 0 {
      assert entries[k] == entries[1..][k - 1];
      CollectComplete(content, locale, entries[1..], k - 1);
    }
  }

  /** A post is listed exactly when some entry of the locale's directory
      is accepted as that post and it is not a draft. */
  lemma AllPostsMembers(content: Content, locale: Locale, p: PostMeta)
    ensures p in GetAllPosts(content, locale) <==>
              !p.draft && exists k :: 0 <= k < |Listing(content, locale)|
                                      && Accept(content, locale, Listing(content, locale)[k]) == Some(p)
  {
    var entries := Listing(content, locale);
    var collected := Collect(content, locale, entries);
    var r := GetAllPosts(content, locale);
    FilterMembers(collected, IsPublished, p);
    assert p in r <==> p in multiset(Filter(collected, IsPublished));
    if !p.draft && exists k :: 0 <= k < |entries| && Accept(content, locale, entries[k]) == Some(p) {
      var k :| 0 <= k < |entries| && Accept(content, locale, entries[k]) == Some(p);
      CollectComplete(content, locale, entries, k);
    }
    if p in collected {
      CollectSound(content, locale, entries, p);
    }
  }

  /** A locale whose directory cannot be read has no posts. */
  lemma MissingDirectoryHasNoPosts(content: Content, locale: Locale)
    requires locale !in content.dirs
    ensures GetAllPosts(content, locale) == []
  {
    assert Filter(Collect(content, locale, []), IsPublished) == [];
  }

  /** `getPostBySlug` answers `null` exactly when no accepted, published
      post of the locale has the slug. */
  lemma PostBySlugNull(content: Content, locale: Locale, slug: string)
    ensures GetPostBySlug(content, locale, slug).None? <==>
              forall k :: 0 <= k < |Listing(content, locale)| ==>
                var a := Accept(content, locale, Listing(content, locale)[k]);
                a.None? || a.value.draft || a.value.slug != slug
  {
    var entries := Listing(content, locale);
    var posts := GetAllPosts(content, locale);
    if GetPostBySlug(content, locale, slug).None? {
      forall k | 0 <= k < |entries|
        ensures var a := Accept(content, locale, entries[k]); a.None? || a.value.draft || a.value.slug != slug
      {
        var a := Accept(content, locale, entries[k]);
        if a.Some? && !a.value.draft {
          AllPostsMembers(content, locale, a.value);
        }
      }
    } else {
      var p := GetPostBySlug(content, locale, slug).value;
      AllPostsMembers(content, locale, p);
    }
  }

  /** In a newest-first list, the first post with a slug is a newest one. */
  lemma FirstMatchIsNewest(posts: seq<PostMeta>, timeOf: string -> int, slug: string)
    requires forall i, j :: 0 <= i < j < |posts| ==> timeOf(posts[i].date) >= timeOf(posts[j].date)
    requires FindBySlug(posts, slug).Some?
    ensures forall q :: q in posts && q.slug == slug ==>
              timeOf(q.date) <= timeOf(FindBySlug(posts, slug).value.date)
  {
    var p := FindBySlug(posts, slug).value;
    var j :| 0 <= j < |posts| && posts[j] == p && forall i :: 0 <= i < j ==> posts[i].slug != slug;
    forall q | q in posts && q.slug == slug
      ensures timeOf(q.date) <= timeOf(p.date)
    {
      var m :| 0 <= m < |posts| && posts[m] == q;
      assert m >= j;
      if m > j {
        assert timeOf(posts[j].date) >= timeOf(posts[m].date);
      }
    }
  }

  /** Otherwise it is a published post with that slug, and the first one
      in newest-first order: no other post with the slug is newer. */
  lemma PostBySlugIsNewest(content: Content, locale: Locale, slug: string)
    requires GetPostBySlug(content, locale, slug).Some?
    ensures var p := GetPostBySlug(content, locale, slug).value;
            && p in GetAllPosts(content, locale) && p.slug == slug && !p.draft
            && forall q :: q in GetAllPosts(content, locale) && q.slug == slug ==>
                 content.timeOf(q.date) <= content.timeOf(p.date)
  {
    var posts := GetAllPosts(content, locale);
    FirstMatchIsNewest(posts, content.timeOf, slug);
  }
}
