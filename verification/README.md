# Multi-locale blog: content pipeline, routing helpers and sitemaps in Dafny

This project models the non-visual core of a Next.js blog that serves the same
site in three locales: Korean (`ko`), English (`en`) and Uzbek (`uz`).

- **Post collection** (`src/lib/posts.ts`). The model covers:
  - the extension filter;
  - the frontmatter schema (`fmSchema`), with `lang` overwritten by the requested locale;
  - the derived word count and reading time;
  - the `description` to `summary` fallback;
  - the draft filter and the newest-first sort;
  - slug lookup;
  - the empty result for a missing directory.
- **Heading anchors** (`src/lib/mdx.tsx`): `slugify`, written as its five string rewrites, and the id `HeadingAnchor` computes.
- **Header** (`src/components/layout/Header.tsx`): segment labels, locale detection and the breadcrumb trail.
- **Locale switcher** (`src/components/layout/LocaleSwitcher.tsx`): the current/rest split, the three links and the active link.
- **SEO helpers**:
  - the absolute `getBaseUrl` and `altLocales` in `src/lib/seo.ts`;
  - the relative `altLocales` in `src/lib/seo.tsx`;
  - the second `getBaseUrl` in `src/lib/site.ts`.

  The source has two functions named `getBaseUrl` and two named `altLocales`, with different rules. Each is modelled separately.
- **Sitemaps**: the metadata sitemap (`src/app/sitemap.ts`) and the hand-written XML route (`src/app/sitemap.xml/route.ts`). The XML route includes `encodeURIComponent` with UTF-8 percent escapes, and a decoder as its partner.
- **Locale normalisation** (`src/i18n/request.ts`). Its fallback is `en`, while the header, the switcher and the SEO helpers default to `ko`.
- **Theme toggle** (`src/components/layout/ThemeToggle.tsx`).

The environment is a `map<string, string>`; a variable is defined exactly when its name is a key. The file system is a `Content` value:
- the content root;
- for each locale whose `posts` directory can be read, its entries in directory order;
- for each entry, the parsed frontmatter and body, or `None` when reading or parsing throws;
- a function `timeOf` standing for `+new Date(date)`.

Shared pieces:
- `Wrappers`: `Option`.
- `Text`: `split`, `filter(Boolean)`, `join` and `trim` on strings.
- `Unicode`: character classes, case mapping and UTF-16 length.
- `Locales`: the locale list `['ko', 'en', 'uz']`.
- `Env`: the `a || b || c` chain over environment variables.
- `Sorting`: the descending sort.

## Model

| member | source | states |
|---|---|---|
| Posts.Listing | src/lib/posts.ts:83-90 | A locale without a readable directory lists no entries; otherwise its entries are listed in directory order |
| Posts.ParseFrontmatter | src/lib/posts.ts:8-18 | The schema accepts exactly the frontmatter that has a title of at least 3 UTF-16 units, a string date and a non-empty slug, and whose optional fields have their declared types. The result keeps title, date and slug, defaults `draft` to false, and takes `lang` from the requested locale. `summary`, `description` and `cover` are the given strings when present and absent otherwise; `tags` is present exactly when given, with the same strings in the same order |
| Posts.LangIsIgnored | src/lib/posts.ts:56 | Whatever `lang` the file declares, validation gives the same result, because the locale overwrites it |
| Posts.Strings | src/lib/posts.ts:14 | `tags` is accepted exactly when every item is a string, and then the items are kept in order |
| Posts.WordCountIsRunCount | src/lib/posts.ts:57 | `trim().split(/\s+/).filter(Boolean).length` equals the number of maximal non-white-space runs; a white-space-only body has 0 words |
| Posts.WordCount | src/lib/posts.ts:57 | The word count equals the reference count of positions where a non-space character starts a word |
| Posts.PiecesCountWordStarts | src/lib/posts.ts:57 | The non-empty pieces of a white-space split are counted by the word starts of the string |
| Posts.FirstPieceEmpty | src/lib/posts.ts:57 | The first split piece is empty exactly when the string is empty or starts with white space |
| Posts.AllSpaceHasNoWordStarts | src/lib/posts.ts:57 | A string made only of white space has no word starts |
| Posts.ReadingTime | src/lib/posts.ts:58 | `max(1, round(words / 200))`: at least 1; from 100 words on it is the nearest whole number to `words / 200`, with halves rounded up (`200r - 100 <= words < 200r + 100`); below 100 words it is 1 |
| Posts.ReadingTimeMonotone | src/lib/posts.ts:58 | More words never give a shorter reading time |
| Posts.ReadingTimeShort | src/lib/posts.ts:58 | Fewer than 300 words read in one minute |
| Posts.ToPostMeta | src/lib/posts.ts:60-66 | `description` is the frontmatter description when present, else the summary |
| Posts.Accept | src/lib/posts.ts:48-70 | An entry yields a post exactly when it is a `.md`/`.mdx` file that was read and whose frontmatter the schema accepts; the post is in the requested locale and has a slug |
| Posts.AcceptedPost | src/lib/posts.ts:52-66 | An accepted post carries the validated title, slug, date and draft flag, and the frontmatter's summary, cover and tags. Its description is the frontmatter's description when given, else its summary, else absent. It also carries the word count, the reading time of that count and the file path inside the locale's posts directory |
| Posts.GetPostBySlug | src/lib/posts.ts:78-81 | No post is found exactly when no published post of the locale has the slug; a found post is one of them, has the slug, is not a draft and is in the requested locale |
| Posts.Collect | src/lib/posts.ts:46-71 | The loop output has at most one post per entry, each in the requested locale with a slug |
| Posts.CollectAppend | src/lib/posts.ts:48-71 | Entries are handled independently: collecting a concatenation concatenates the collections |
| Posts.RejectedEntryIsSkipped | src/lib/posts.ts:67-70 | An entry that is skipped or throws leaves the collection as if it were absent, and the loop carries on |
| Posts.RejectedEntryAlone | src/lib/posts.ts:49-70 | A rejected entry on its own yields no post |
| Posts.CollectSound | src/lib/posts.ts:48-71 | Every collected post comes from an accepted entry |
| Posts.CollectComplete | src/lib/posts.ts:48-71 | Every accepted entry's post is collected |
| Posts.GetAllPosts | src/lib/posts.ts:73-75 | The result holds no drafts, is in non-increasing date order, and is a permutation of the collected non-draft posts |
| Posts.AllPostsMembers | src/lib/posts.ts:43-75 | A post is listed exactly when it is not a draft and some directory entry is accepted as that post |
| Posts.MissingDirectoryHasNoPosts | src/lib/posts.ts:83-90 | A missing directory gives an empty list |
| Posts.FindBySlug | src/lib/posts.ts:80 | `find` returns null exactly when no post has the slug, and otherwise the first post that has it |
| Posts.PostBySlugNull | src/lib/posts.ts:78-81 | `getPostBySlug` is null exactly when no entry is accepted as a non-draft post with that slug |
| Posts.FirstMatchIsNewest | src/lib/posts.ts:80 | In a newest-first list the first post with a slug is at least as new as every other post with it |
| Posts.PostBySlugIsNewest | src/lib/posts.ts:78-81 | A found post is a listed, non-draft post with the slug, and no other listed post with that slug is newer |
| Sorting.Insert | src/lib/posts.ts:75 | Inserting into a newest-first list keeps it newest first and adds only the new element |
| Sorting.InsertPermutes | src/lib/posts.ts:75 | Insertion adds exactly one copy of the element |
| Sorting.SortDesc | src/lib/posts.ts:75 | The comparator `b - a` sorts into non-increasing key order, and the result is a permutation of the input |
| Unicode.Utf16Length | src/lib/posts.ts:9 | A string's UTF-16 length lies between its code-point count and twice that count |
| Text.TrimThenSplit | src/lib/posts.ts:57 | Trimming before a split changes nothing once empty pieces are dropped |
| Text.Trim | src/lib/posts.ts:57 | The trimmed string neither starts nor ends with white space, and is empty exactly when the string is all white space |
| Text.NoPiecesIffAllSeparators | src/lib/posts.ts:57 | A split has no non-empty piece exactly when every character is a separator |
| Mdx.Lower | src/lib/mdx.tsx:13 | `toLowerCase` maps every character through `Unicode.ToLower` and keeps the length |
| Unicode.ToLower | src/lib/mdx.tsx:13 | Lower-casing never yields an ASCII capital. On the mapped ranges it yields an ASCII small letter only from an ASCII letter; JavaScript also maps the Kelvin sign, which is outside them, to `k` |
| Unicode.LowerThenUpper | src/lib/mdx.tsx:13 | Every character that lower-casing changes is the upper-case form of the character it becomes |
| Unicode.ModifierLetterExamples | src/lib/mdx.tsx:15 | The modifier letters `ˈ`, `ː`, `ˠ` and `ˮ` are letters, so `slugify` keeps them; the modifier symbols between them are not |
| Unicode.CaseExamples | src/lib/mdx.tsx:13 | `Ł` lower-cases to `ł`, `Ā` to `ā`, `Ÿ` to `ÿ` and back; `ß` upper-cases to `SS` and `ı` to `I`; `İ` and `ĸ` stay as they are |
| Unicode.ToLowerIdempotent | src/lib/mdx.tsx:13 | Lower-casing twice is lower-casing once |
| Mdx.LowerIsLower | src/lib/mdx.tsx:13 | Every character of a lower-cased string is already lower case |
| Mdx.TrimChars | src/lib/mdx.tsx:14 | `trim` keeps only characters of its input |
| Mdx.TrimKeepsAlnum | src/lib/mdx.tsx:14 | `trim` drops no letter or digit |
| Mdx.SymbolRemovalKeepsAlnum | src/lib/mdx.tsx:15 | Removing everything but letters, digits, white space and `-` keeps every letter and digit in order |
| Mdx.SkipRun | src/lib/mdx.tsx:16-17 | Skipping a run leaves a suffix whose dropped prefix is all in the class and whose first character is not |
| Mdx.ReplaceRuns | src/lib/mdx.tsx:16-17 | Replacing runs yields only the replacement or non-class characters of the input, and starts with a class character only when the input does |
| Mdx.NoAdjacentCons | src/lib/mdx.tsx:17 | A character that is outside the class, or that precedes a non-class character, keeps a string free of adjacent class characters |
| Mdx.ReplaceRunsNoAdjacent | src/lib/mdx.tsx:16-17 | When the replacement is itself in the class, no two class characters are adjacent afterwards |
| Mdx.SkipRunKeepsAlnum | src/lib/mdx.tsx:16-17 | Skipping a run of non-alphanumerics keeps every letter and digit |
| Mdx.ReplaceRunsKeepsAlnum | src/lib/mdx.tsx:16-17 | Replacing runs of non-alphanumerics by a non-alphanumeric keeps every letter and digit in order |
| Mdx.SpaceReplaceKeepsAlnum | src/lib/mdx.tsx:16 | `replace(/\s+/g, '-')` keeps every letter and digit |
| Mdx.HyphenCollapseKeepsAlnum | src/lib/mdx.tsx:17 | `replace(/-+/g, '-')` keeps every letter and digit |
| Mdx.SlugPipelineIsSlug | src/lib/mdx.tsx:11-18 | The five rewrites produce only lower-case letters, digits and single hyphens, and no white space or ASCII capital |
| Mdx.Slugify | src/lib/mdx.tsx:11-18 | `slugify` returns a slug with no white space and no ASCII capital |
| Mdx.ReplaceRunsFixpoint | src/lib/mdx.tsx:16-17 | A string whose class characters are already single replacements is left alone |
| Mdx.SlugIsFixpoint | src/lib/mdx.tsx:11-18 | A slug is its own `slugify` |
| Mdx.SlugifyIdempotent | src/lib/mdx.tsx:11-18 | `slugify(slugify(s)) == slugify(s)` |
| Mdx.LowerAlnumUnchanged | src/lib/mdx.tsx:12-17 | A string of lower-case letters and digits is returned unchanged |
| Mdx.SlugifyKeepsLettersAndDigits | src/lib/mdx.tsx:11-18 | The letters and digits of the slug are those of the lower-cased input, in order |
| Mdx.HeadingId | src/lib/mdx.tsx:86-89 | A heading id is always a slug |
| Mdx.ChildrenTextAppend | src/lib/mdx.tsx:86-88 | The text of concatenated children is the concatenation of their texts |
| Mdx.ChildrenText | src/lib/mdx.tsx:86-88 | The text of the children is empty exactly when every child is a non-string node or an empty string |
| Mdx.OtherChildIgnored | src/lib/mdx.tsx:87 | A non-string child does not change the id |
| Mdx.EmptyHeadingIsSection | src/lib/mdx.tsx:89 | A heading without text gets the id `section` |
| Mdx.SymbolHeadingHasEmptyId | src/lib/mdx.tsx:89 | The fallback is applied before `slugify`, so a symbol-only heading gets the empty id, not `section` |
| Text.Segments | src/components/layout/Header.tsx:28 | `split('/').filter(Boolean)` yields non-empty pieces without `/` |
| Header.Capitalize | src/components/layout/Header.tsx:22 | The first character is replaced by its upper-case form, which may be two characters, and the rest are kept |
| Unicode.ToUpper | src/components/layout/Header.tsx:22 | Upper-casing one character never yields an ASCII small letter |
| Unicode.Upper | src/components/layout/Header.tsx:22 | The upper-case form has one character, or two exactly for `ß` and `ŉ`; no character of it is an ASCII small letter |
| Unicode.UpperThenLower | src/components/layout/Header.tsx:22 | Every character that upper-casing changes, other than `µ`, `ı` and `ſ`, is the lower-case form of the character it becomes |
| Text.Split | src/components/layout/Header.tsx:20 | A split has at least one piece, and no piece contains a separator; what the pieces hold is fixed by Text.JoinSplit and Text.SplitJoin |
| Text.JoinSplit | src/components/layout/Header.tsx:28 | Joining the pieces of a split on a single separator character with that character gives the string back |
| Text.SplitJoin | src/components/layout/Header.tsx:20-23 | Splitting a join of separator-free pieces gives the pieces back |
| Text.Join | src/components/layout/Header.tsx:23 | Joining no pieces gives the empty string; otherwise the length is the pieces' total length plus one separator between each pair |
| Text.JoinEnds | src/components/layout/Header.tsx:23 | A join starts with its first piece and ends with its last |
| Header.CapitalizeAll | src/components/layout/Header.tsx:22 | Each chunk is capitalized in place |
| Unicode.UpperKeepsSeparators | src/components/layout/Header.tsx:22 | Upper-casing neither creates nor removes `-`, `_` or a space |
| Header.Chunks | src/components/layout/Header.tsx:20-21 | The chunks are non-empty and contain neither `-` nor `_` |
| Header.ChunkCharsFromSegment | src/components/layout/Header.tsx:20-21 | Every character of a chunk comes from the segment |
| Header.SplitPiecesFromString | src/components/layout/Header.tsx:20 | Every character of a split piece comes from the split string |
| Header.CapitalizedChunksHaveNoSeparator | src/components/layout/Header.tsx:20-22 | Capitalized chunks stay non-empty and free of `-` and `_` |
| Header.JoinKeepsClass | src/components/layout/Header.tsx:23 | Joining pieces and a separator that avoid a class gives a string that avoids it |
| Header.FormatSegmentLabel | src/components/layout/Header.tsx:18-24 | The label contains no `-` or `_`, and is empty exactly when the segment is made only of separators |
| Header.LabelSplitsIntoChunks | src/components/layout/Header.tsx:18-24 | For a segment without spaces, splitting the label at spaces gives back the capitalized chunks |
| Header.HeaderLocale | src/components/layout/Header.tsx:28-31 | The locale is the first segment when that names a locale, otherwise `ko` |
| Header.RestParts | src/components/layout/Header.tsx:33 | `restParts` is the segments after the first, whether or not the first was a locale |
| Header.Breadcrumbs | src/components/layout/Header.tsx:34-49 | The trail starts with Home at `/locale`, has 1 to 3 crumbs, has more than one exactly when `restParts[0]` is `blog`, and has a third (the formatted `restParts[1]` linking to the pathname) exactly when a second rest part exists |
| Header.BreadcrumbsShownOnBlogPages | src/components/layout/Header.tsx:88 | The trail is shown exactly when the second path segment is `blog` |
| Header.PostPageTrail | src/components/layout/Header.tsx:35-45 | A post page `/l/blog/slug` shows Home, Blog and the formatted slug |
| Header.UnprefixedBlogPathHasNoTrail | src/components/layout/Header.tsx:33-37 | `/blog/hello-world` shows no trail, because its first segment is dropped as if it were a locale |
| Locales.FromCode | src/components/layout/LocaleSwitcher.tsx:21-23 | `isLocale` holds exactly for `ko`, `en` and `uz`, and names that locale |
| Locales.FromCodeOfCode | src/components/layout/LocaleSwitcher.tsx:21-23 | Every locale code is recognised as its own locale |
| Locales.AllListsEachLocaleOnce | src/components/layout/LocaleSwitcher.tsx:7 | `LOCALES` lists every locale exactly once |
| LocaleSwitcher.ParseRoute | src/components/layout/LocaleSwitcher.tsx:27-33 | A leading locale segment becomes `current` and is removed from `rest`; otherwise `current` is `ko` and every segment is kept |
| LocaleSwitcher.Links | src/components/layout/LocaleSwitcher.tsx:37-42 | There are three links in the order ko, en, uz; each href is `/` + `[l, ...rest].join('/')`; a link is active exactly when its locale is `current` |
| LocaleSwitcher.ExactlyOneActive | src/components/layout/LocaleSwitcher.tsx:41-42 | Exactly one link is active |
| Text.SegmentsOfJoin | src/components/layout/LocaleSwitcher.tsx:40 | Splitting `/` + a join of segments gives the segments back |
| LocaleSwitcher.HrefShape | src/components/layout/LocaleSwitcher.tsx:40 | An href starts with `/l` and its segments are `l` followed by `rest` |
| LocaleSwitcher.Href | src/components/layout/LocaleSwitcher.tsx:40 | An href starts with `/` and the locale code, and is exactly `/l` when the rest is empty |
| LocaleSwitcher.HrefRoundTrip | src/components/layout/LocaleSwitcher.tsx:27-40 | Parsing an emitted href gives back its locale and the same rest |
| LocaleSwitcher.SwitchTwice | src/components/layout/LocaleSwitcher.tsx:27-40 | Switching to one locale and then another is switching straight to the second |
| LocaleSwitcher.CurrentLinkIsSamePage | src/components/layout/LocaleSwitcher.tsx:40 | On a locale-prefixed page the current locale's link points at the same segments |
| LocaleSwitcher.AgreesWithHeader | src/components/layout/LocaleSwitcher.tsx:27-33 | Switcher and header detect the same locale; their rests agree on prefixed paths and differ by the first segment otherwise |
| Env.FirstSetIndex | src/lib/seo.ts:12-15 | The chain stops at the first variable that is defined and non-empty |
| Env.FirstSet | src/lib/seo.ts:12-15 | `a \|\| b \|\| c` is falsy exactly when no variable is set, and otherwise is the first set value |
| Seo.StripTrailingSlash | src/lib/seo.ts:29-31 | The result is a prefix of the URL, does not end in `/`, and only `/` characters were removed |
| Seo.StripTrailingSlashUnique | src/lib/seo.ts:30 | Any prefix with those three properties is the result |
| Seo.StripTrailingSlashIdempotent | src/lib/seo.ts:29-31 | Stripping twice is stripping once |
| Seo.GetBaseUrl | src/lib/seo.ts:11-27 | The base URL never ends in `/` |
| Seo.ExplicitBaseWins | src/lib/seo.ts:12-17 | The first non-empty of `NEXT_PUBLIC_BASE_URL`, `NEXT_PUBLIC_SITE_URL` and `SITE_URL` is used, stripped |
| Seo.NetlifyBase | src/lib/seo.ts:19-24 | Otherwise the first non-empty of `URL`, `DEPLOY_PRIME_URL` and `CONTEXT` is used, stripped, only if it starts with `http`, and localhost is used if it does not |
| Seo.NonHttpUrlShadowsDeployUrl | src/lib/seo.ts:19-24 | A non-http `URL` hides an http `DEPLOY_PRIME_URL` |
| Seo.DefaultBase | src/lib/seo.ts:26 | With none of the six variables set the base is `http://localhost:3000` |
| Seo.CleanPath | src/lib/seo.ts:35 | The clean path starts with `/`, and a `/` is prepended only when missing |
| Seo.LanguageUrlsOfAll | src/lib/seo.ts:37-40 | The loop maps each locale code to `base/l` + clean path |
| Seo.LanguageUrlsSpec | src/lib/seo.ts:37-40 | For any locale list, the record has one key per listed code, each mapped to `base/l` + clean path |
| Seo.EveryLocaleHasItsUrl | src/lib/seo.ts:39 | A map holding the three codes' URLs holds each locale's URL |
| Seo.AltLocales | src/lib/seo.ts:33-48 | The keys are exactly ko, en, uz and x-default; each locale maps to `base/l` + clean path; canonical is the requested locale's URL; x-default is ko's |
| SeoRelative.RelativeUrlsOfAll | src/lib/seo.tsx:2-4 | The loop maps each locale code to `/l` + path |
| SeoRelative.RelativeUrlsSpec | src/lib/seo.tsx:2-4 | For any locale list, the record has one key per listed code, each mapped to `/l` + path |
| SeoRelative.AltLocales | src/lib/seo.tsx:1-7 | The keys are exactly ko, en, uz and x-default; each locale maps to `/l` + path verbatim; x-default is ko's; there is no canonical |
| SeoRelative.AbsoluteIsBasePlusRelative | src/lib/seo.tsx:4 | For a path starting with `/`, each absolute alternate is the base URL followed by the relative alternate |
| SeoRelative.RelativePathIsNotNormalised | src/lib/seo.tsx:4 | The relative map does not normalise the path: `blog` gives `/enblog`, where the absolute map gives `/en/blog` |
| SeoRelative.AbsoluteBlogAlternate | src/lib/seo.ts:35 | The absolute map prepends the missing `/` |
| Site.GetBaseUrl | src/lib/site.ts:1-10 | Development gives localhost; otherwise a non-empty `NEXT_PUBLIC_BASE_URL` is used verbatim, then `URL`, then `DEPLOY_PRIME_URL`, with no http check and no stripping; otherwise the Netlify production URL |
| Site.BaseUrlNonEmpty | src/lib/site.ts:1-10 | The base URL is never empty |
| Sitemap.PostEntries | src/app/sitemap.ts:30-37 | One entry per post, in order, at `base/l/blog/slug`, dated by the post, monthly at 0.6 |
| Sitemap.LocaleBlock | src/app/sitemap.ts:11-37 | A locale contributes its home page (weekly, 0.8, now), its blog index (daily, 0.7, now) and then its post entries |
| Sitemap.Entries | src/app/sitemap.ts:11-38 | The list has `2 + posts(l)` entries summed over the locales |
| Sitemap.SitemapOf | src/app/sitemap.ts:5-41 | The sitemap has 6 entries plus one per listed post of each locale |
| Sitemap.SizeOfAll | src/app/sitemap.ts:9-40 | Over ko, en and uz the size is 6 plus the three post counts |
| Sitemap.EntriesOfAll | src/app/sitemap.ts:11-38 | The list is the ko block, then en, then uz |
| Sitemap.BlockAt | src/app/sitemap.ts:11-38 | Every entry of a locale's block sits at that block's offset |
| Sitemap.BlockLayout | src/app/sitemap.ts:13-36 | At a locale's offset come its home page, its blog index and then its `k`-th post at `offset + 2 + k` |
| Sitemap.PostAt | src/app/sitemap.ts:30-36 | The `k`-th post of a locale is at `offset + 2 + k`, with its URL and date |
| Sitemap.PostsNewestFirst | src/app/sitemap.ts:29-36 | Posts listed newest first give post entries whose dates do not increase |
| Sitemap.EntriesWellFormed | src/app/sitemap.ts:13-36 | Weekly goes with 0.8, daily with 0.7 and monthly with 0.6, and only monthly entries have their own date |
| Sitemap.SitemapWellFormed | src/app/sitemap.ts:5-41 | Every sitemap entry is well formed in that sense |
| Sitemap.BlogIndexIsAlternate | src/app/sitemap.ts:22 | A blog index URL is the absolute alternate of `/blog` for the same locale |
| SitemapXml.Base | src/app/sitemap.xml/route.ts:5 | `??` uses `NEXT_PUBLIC_BASE_URL` whenever it is defined, even when empty, and localhost otherwise |
| SitemapXml.EmptyBaseIsKept | src/app/sitemap.xml/route.ts:5 | An empty base is kept here, while `getBaseUrl` falls back to localhost |
| SitemapXml.PostUrls | src/app/sitemap.xml/route.ts:12 | One URL per post, in order, ending in the encoded slug |
| SitemapXml.Urls | src/app/sitemap.xml/route.ts:8-13 | The route lists as many URLs as the metadata sitemap has entries |
| SitemapXml.Lines | src/app/sitemap.xml/route.ts:17 | One `<url><loc>` line per URL, in order |
| SitemapXml.Get | src/app/sitemap.xml/route.ts:20-22 | The response is served as `application/xml; charset=utf-8` |
| SitemapXml.Parse | src/app/sitemap.xml/route.ts:15-18 | A body that parses starts with the declaration and `urlset` line and ends with the closing tag |
| SitemapXml.LocOfLine | src/app/sitemap.xml/route.ts:17 | The URL can be read back from its line |
| SitemapXml.LineHasNoNewline | src/app/sitemap.xml/route.ts:17 | A line built from a URL without a newline has no newline |
| SitemapXml.BodyParts | src/app/sitemap.xml/route.ts:15-18 | The body is the header, the lines joined by newlines, and the footer |
| SitemapXml.Body | src/app/sitemap.xml/route.ts:15-18 | The body starts with the XML declaration and the `urlset` opening tag, and ends with the closing tag |
| SitemapXml.MiddleLines | src/app/sitemap.xml/route.ts:17 | Splitting the joined lines at newlines gives the lines back |
| SitemapXml.ParseBody | src/app/sitemap.xml/route.ts:15-18 | Parsing the body gives back the URL list, so there is one `<url>` element per URL |
| SitemapXml.PostUrlHasNoNewline | src/app/sitemap.xml/route.ts:12 | An encoded post URL on a newline-free base has no newline |
| SitemapXml.LocaleUrlsHaveNoNewline | src/app/sitemap.xml/route.ts:10-12 | No URL of a locale has a newline |
| SitemapXml.LocaleUrls | src/app/sitemap.xml/route.ts:10-12 | A locale contributes two URLs plus one per post, each under `base/l` |
| SitemapXml.UrlsHaveNoNewline | src/app/sitemap.xml/route.ts:9-13 | No listed URL has a newline |
| SitemapXml.GetRoundTrip | src/app/sitemap.xml/route.ts:4-23 | The served body parses back to exactly the URL list of the loop |
| SitemapXml.PostUrlAgrees | src/app/sitemap.xml/route.ts:12 | For a slug of unreserved characters the route's post URL equals the metadata sitemap's |
| SitemapXml.LocaleUrlsMatchBlock | src/app/sitemap.xml/route.ts:10-12 | For such slugs a locale's URLs are the URLs of its metadata sitemap block |
| SitemapXml.SameUrlsAppend | src/app/sitemap.xml/route.ts:9-13 | Matching URL lists concatenate to matching lists |
| SitemapXml.SameUrlsAsSitemap | src/app/sitemap.xml/route.ts:9-13 | With unreserved slugs the two sitemaps list the same URLs in the same order |
| UriEncoding.HexDigit | src/app/sitemap.xml/route.ts:12 | A nibble becomes an upper-case hex digit that reads back as the nibble |
| UriEncoding.Utf8 | src/app/sitemap.xml/route.ts:12 | One code point is 1 to 4 bytes, one byte exactly for ASCII, which is its own code |
| UriEncoding.Utf8Bytes | src/app/sitemap.xml/route.ts:12 | A string has between one and four bytes per character |
| UriEncoding.Percents | src/app/sitemap.xml/route.ts:12 | Each byte becomes three characters `%XX` |
| UriEncoding.EncodeChar | src/app/sitemap.xml/route.ts:12 | A character is kept exactly when it is unreserved, and is otherwise escaped |
| UriEncoding.Encode | src/app/sitemap.xml/route.ts:12 | `encodeURIComponent` yields only unreserved characters, `%` and upper-case hex, and never shortens |
| UriEncoding.Prefixed | src/app/sitemap.xml/route.ts:12 | Bytes in front of a decoded result; a failure stays a failure |
| UriEncoding.PrefixedTwice | src/app/sitemap.xml/route.ts:12 | Prefixing twice is prefixing the concatenation |
| UriEncoding.EncodeAppend | src/app/sitemap.xml/route.ts:12 | Encoding works character by character |
| UriEncoding.EncodeUnreserved | src/app/sitemap.xml/route.ts:12 | A string of unreserved characters is its own encoding |
| UriEncoding.EncodeChangesReserved | src/app/sitemap.xml/route.ts:12 | Any reserved character lengthens the encoding by at least two |
| UriEncoding.HexRoundTrip | src/app/sitemap.xml/route.ts:12 | The two hex digits of a byte read back as the byte |
| UriEncoding.DecodeEscape | src/app/sitemap.xml/route.ts:12 | One `%XX` escape decodes to its byte |
| UriEncoding.DecodePercents | src/app/sitemap.xml/route.ts:12 | Decoding escaped bytes gives the bytes back |
| UriEncoding.DecodeEncodedChar | src/app/sitemap.xml/route.ts:12 | Decoding an encoded character gives its UTF-8 bytes |
| UriEncoding.DecodeEncode | src/app/sitemap.xml/route.ts:12 | Decoding an encoded string gives its UTF-8 bytes, so the encoding loses nothing |
| UriEncoding.EncodeIsInjective | src/app/sitemap.xml/route.ts:12 | Strings with the same encoding have the same UTF-8 bytes |
| I18nRequest.Normalize | src/i18n/request.ts:7-8 | A supported locale passes unchanged; an absent, empty or unsupported one becomes `en` |
| I18nRequest.NormalizeIdempotent | src/i18n/request.ts:7-8 | Normalising a normalised locale changes nothing |
| I18nRequest.NormalizeKeepsExactlySupported | src/i18n/request.ts:7-8 | A locale comes through unchanged exactly when it is supported |
| I18nRequest.RequestConfig | src/i18n/request.ts:10-16 | The configuration succeeds when the normalised or the fallback messages load; it uses the normalised locale when its messages load and `en` otherwise, always with that locale's messages |
| I18nRequest.AllMessagesPresent | src/i18n/request.ts:10-12 | With every message file present the normalised locale is used |
| I18nRequest.FallbacksDiffer | src/i18n/request.ts:4-8 | An unsupported locale falls back to `en` here, while the header falls back to `ko` |
| ThemeToggle.Effective | src/components/layout/ThemeToggle.tsx:11 | The effective theme is the system theme when the theme is `system`, else the theme |
| ThemeToggle.Next | src/components/layout/ThemeToggle.tsx:12 | The next theme is `light` exactly when the effective theme is dark, else `dark`, never `system` |
| ThemeToggle.Label | src/components/layout/ThemeToggle.tsx:21 | The label is the light label exactly when the effective theme is dark, else the dark label |
| ThemeToggle.Render | src/components/layout/ThemeToggle.tsx:9-21 | Nothing is rendered before mount; the button never sets `system` |
| ThemeToggle.ClickChangesEffectiveTheme | src/components/layout/ThemeToggle.tsx:11-12 | A click always changes the effective theme |
| ThemeToggle.TwoClicksRestore | src/components/layout/ThemeToggle.tsx:11-12 | Two clicks from an explicit light or dark theme restore it |
| ThemeToggle.LabelNamesTheNextTheme | src/components/layout/ThemeToggle.tsx:12-21 | The label names the theme a click switches to |

## Left out

- File system access is not modelled: `readFile`, `readdir` and `accessSync`, and the `getContentDir` probing with its warning (`src/lib/posts.ts:20-41`). The directory is part of the `Content` input, and a missing key is a directory that cannot be read. Console warnings are dropped.
- `gray-matter` and `zod` are foreign libraries. A file arrives as an already parsed frontmatter map and body, or as a failure; only the schema's rules are encoded.
- Posts.GetAllPosts: dates are compared through the given `timeOf`, which stands for `+new Date(date)`. Invalid dates giving `NaN`, which leaves the comparator inconsistent, are not modelled.
- Sorting.SortDesc: the order of posts that share a date is not stated; JavaScript's sort keeps their directory order.
- Unicode.IsLetter: `\p{L}` and `\p{N}` cover ASCII, Latin-1, Latin Extended-A and -B, the spacing modifier letters, Cyrillic up to U+0481 and Hangul syllables, not all of Unicode. `\s` is the exact ECMAScript set.
- Unicode.ToLower, Unicode.ToUpper: the case mappings cover ASCII, Latin-1, Latin Extended-A and Cyrillic up to U+0481. Latin Extended-B, Greek, the Kelvin and Ångström signs and all other scripts are left unchanged, although JavaScript maps them.
- Mdx.Lower: lower-cases one code point at a time through Unicode.ToLower. `İ` (U+0130), whose lower case is two code points, is left unchanged, and so is every letter outside the ranges above.
- Header.Capitalize: upper-cases through Unicode.Upper. It covers `ß` to `SS` and `ŉ` to `ʼN`, but not the other multi-character upper-case forms (`ǰ`, the Greek letters with iota, the ligatures), nor any letter outside the ranges above.
- `path.join` is string concatenation with `/`; normalisation of `..` or duplicate slashes is not modelled.
- UriEncoding.Encode: a lone surrogate, for which `encodeURIComponent` throws, cannot occur in a Dafny `char`. The decoder stops at bytes and does not turn UTF-8 back into characters.
- Sitemap.SitemapOf, SitemapXml.Get: the sitemap lemmas take the post lists as a function from locale to posts. `getAllPosts` supplies it in the source; the link is `Sitemap.PostsOf`. The request time `new Date()` is the parameter `now`.
- SitemapXml.SameUrlsAsSitemap: the two sitemaps agree only for slugs of unreserved characters. For any other slug the XML route's URL is longer (UriEncoding.EncodeChangesReserved).
- The `URL` class and `ogImageUrl` (`src/lib/seo.ts:51-56`) are not modelled; they are a foreign call.
- The dynamic `import()` of message files is modelled as the set of locales whose messages load; the message contents are not modelled. The stray `gg` after `src/i18n/request.ts:17` is a syntax defect, not behaviour.
- The header's `LOCALE_LABELS` text and all markup are not modelled. Neither are React rendering, the MDX pipeline, framer-motion, the copy button's clipboard and timers, or Next.js routing and metadata objects.
- Not modelled, as presentation or configuration:
  - `ReadingProgress` (floating-point scrolling), `PostCard`, `TableOfContents`, `Footer` and `src/app/layout.tsx`;
  - `robots.ts`, `middleware.ts` and the build configuration files;
  - the neighbour and related-post queries of the post pages.
