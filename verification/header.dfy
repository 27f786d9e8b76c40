/** The site header (src/components/layout/Header.tsx): the locale read
    from the pathname, the breadcrumb trail and the labels of its
    segments. Rendering is left out; the model computes what the
    component renders from. */
module Header {
  import opened Wrappers
  import opened Text
  import opened Unicode
  import opened Locales

  predicate IsLabelSeparator(c: char) {
    c == '-' || c == '_'
  }

  predicate IsBlank(c: char) {
    c == ' '
  }

  /** `chunk[0].toUpperCase() + chunk.slice(1)` for a non-empty chunk. The
      first code point is upper-cased, possibly into two (`ß` into `SS`). A
      code point outside the Basic Multilingual Plane has no case mapping
      here, which agrees with the source upper-casing only its first UTF-16
      code unit and gluing the rest back on. */
  function Capitalize(chunk: string): (r: string)
    requires chunk != []
    ensures |r| == |Upper(chunk[0])| + |chunk| - 1
    ensures r[..|Upper(chunk[0])|] == Upper(chunk[0]) && r[|Upper(chunk[0])|..] == chunk[1..]
  {
    Upper(chunk[0]) + chunk[1..]
  }

  function CapitalizeAll(chunks: seq<string>): (r: seq<string>)
    requires forall i :: 0 <= i < |chunks| ==> chunks[i] != []
    ensures |r| == |chunks|
    ensures forall i :: 0 <= i < |r| ==> r[i] == Capitalize(chunks[i])
    decreases |chunks|
  {
    if chunks == [] then [] else [Capitalize(chunks[0])] + CapitalizeAll(chunks[1..])
  }

  /** `segment.split(/[-_]+/).filter(Boolean)`. */
  function Chunks(segment: string): (r: seq<string>)
    ensures forall i :: 0 <= i < |r| ==> r[i] != [] && forall j :: 0 <= j < |r[i]| ==> !IsLabelSeparator(r[i][j])
  {
    var r := NonEmpty(Split(segment, IsLabelSeparator));
    assert forall i :: 0 <= i < |r| ==> r[i] in Split(segment, IsLabelSeparator);
    r
  }

  /** `formatSegmentLabel(segment)`: the chunks between runs of `-` and
      `_`, each with its first character upper-cased, joined by single
      spaces. */
  function FormatSegmentLabel(segment: string): (r: string)
    ensures forall i :: 0 <= i < |r| ==> !IsLabelSeparator(r[i])
    ensures r == [] <==> forall i :: 0 <= i < |segment| ==> IsLabelSeparator(segment[i])
  {
    var chunks := Chunks(segment);
    var caps := CapitalizeAll(chunks);
    CapitalizedChunksHaveNoSeparator(chunks);
    NoPiecesIffAllSeparators(segment, IsLabelSeparator);
    JoinEmpty(caps, " ");
    JoinKeepsClass(caps, " ", IsLabelSeparator);
    Join(caps, " ")
  }

  lemma CapitalizedChunksHaveNoSeparator(chunks: seq<string>)
    requires forall i :: 0 <= i < |chunks| ==> chunks[i] != [] && forall j :: 0 <= j < |chunks[i]| ==> !IsLabelSeparator(chunks[i][j])
    ensures forall i :: 0 <= i < |chunks| ==> CapitalizeAll(chunks)[i] != []
    ensures forall i, j :: 0 <= i < |chunks| && 0 <= j < |CapitalizeAll(chunks)[i]| ==> !IsLabelSeparator(CapitalizeAll(chunks)[i][j])
  {
    forall i, j | 0 <= i < |chunks| && 0 <= j < |CapitalizeAll(chunks)[i]|
      ensures !IsLabelSeparator(CapitalizeAll(chunks)[i][j])
    {
      var u := Upper(chunks[i][0]);
      if j < |u| {
        assert CapitalizeAll(chunks)[i][j] in u;
        UpperKeepsSeparators(chunks[i][0]);
      } else {
        assert CapitalizeAll(chunks)[i][j] == chunks[i][j - |u| + 1];
      }
    }
  }

  /** A join of pieces without class characters, with a separator string
      without them, has none either. */
  lemma {:induction false} JoinKeepsClass(xs: seq<string>, sep: string, p: char -> bool)
    requires forall i, j :: 0 <= i < |xs| && 0 <= j < |xs[i]| ==> !p(xs[i][j])
    requires forall j :: 0 <= j < |sep| ==> !p(sep[j])
    ensures forall k :: 0 <= k < |Join(xs, sep)| ==> !p(Join(xs, sep)[k])
    decreases |xs|
  {
    if |xs| > 1 {
      JoinKeepsClass(xs[1..], sep, p);
      var tail := Join(xs[1..], sep);
      assert Join(xs, sep) == xs[0] + sep + tail;
      forall k | 0 <= k < |Join(xs, sep)|
        ensures !p(Join(xs, sep)[k])
      {
        if k < |xs[0]| {
        } else if k < |xs[0]| + |sep| {
          assert Join(xs, sep)[k] == sep[k - |xs[0]|];
        } else {
          assert Join(xs, sep)[k] == tail[k - |xs[0]| - |sep|];
        }
      }
    }
  }

  /** Read back on its spaces, the label of a segment without spaces gives
      the capitalised chunks one by one. */
  lemma LabelSplitsIntoChunks(segment: string)
    requires forall i :: 0 <= i < |segment| ==> segment[i] != ' '
    requires Chunks(segment) != []
    ensures Split(FormatSegmentLabel(segment), IsBlank) == CapitalizeAll(Chunks(segment))
  {
    var chunks := Chunks(segment);
    var caps := CapitalizeAll(chunks);
    forall i, j | 0 <= i < |caps| && 0 <= j < |caps[i]|
      ensures !IsBlank(caps[i][j])
    {
      assert chunks[i] in Split(segment, IsLabelSeparator);
      ChunkCharsFromSegment(segment, i);
      var u := Upper(chunks[i][0]);
      if j < |u| {
        assert caps[i][j] in u;
        UpperKeepsSeparators(chunks[i][0]);
      } else {
        assert caps[i][j] == chunks[i][j - |u| + 1];
      }
    }
    SplitJoin(caps, ' ', IsBlank);
  }

  lemma ChunkCharsFromSegment(segment: string, i: nat)
    requires i < |Chunks(segment)|
    ensures forall j :: 0 <= j < |Chunks(segment)[i]| ==> Chunks(segment)[i][j] in segment
  {
    var pieces := Split(segment, IsLabelSeparator);
    assert Chunks(segment)[i] in pieces;
    SplitPiecesFromString(segment, IsLabelSeparator);
  }

  lemma {:induction false} SplitPiecesFromString(s: string, sep: char -> bool)
    ensures forall i, j :: 0 <= i < |Split(s, sep)| && 0 <= j < |Split(s, sep)[i]| ==> Split(s, sep)[i][j] in s
    decreases |s|
  {
    if s != [] {
      SplitPiecesFromString(s[1..], sep);
    }
  }

  // ---------------------------------------------------------------------
  // Locale and breadcrumbs
  // ---------------------------------------------------------------------

  /** The first path segment if it is a supported locale, otherwise
      `SUPPORTED_LOCALES[0]`, which is `ko`. */
  function HeaderLocale(pathname: string): (l: Locale)
    ensures var parts := Segments(pathname);
            if parts != [] && parts[0] in {"ko", "en", "uz"} then l.Code() == parts[0] else l == Ko
  {
    var parts := Segments(pathname);
    if parts != [] then FromCode(parts[0]).GetOr(Ko) else Ko
  }

  /** `parts.slice(1)`: everything after the first segment, whatever the
      first segment is. */
  function RestParts(pathname: string): (rest: seq<string>)
    ensures var parts := Segments(pathname);
            parts != [] ==> parts == [parts[0]] + rest
    ensures Segments(pathname) == [] ==> rest == []
    ensures AreSegments(rest)
  {
    var parts := Segments(pathname);
    if parts == [] then [] else parts[1..]
  }

  datatype Crumb = Crumb(text: string, href: string)

  /** The `breadcrumbs` array. */
  function Breadcrumbs(pathname: string): (r: seq<Crumb>)
    ensures 1 <= |r| <= 3
    ensures r[0] == Crumb("Home", "/" + HeaderLocale(pathname).Code())
    ensures |r| > 1 <==> RestParts(pathname) != [] && RestParts(pathname)[0] == "blog"
    ensures |r| > 1 ==> r[1] == Crumb("Blog", "/" + HeaderLocale(pathname).Code() + "/blog")
    ensures |r| == 3 <==> |r| > 1 && |RestParts(pathname)| >= 2
    ensures |r| == 3 ==> r[2] == Crumb(FormatSegmentLabel(RestParts(pathname)[1]), pathname)
  {
    var locale := HeaderLocale(pathname).Code();
    var rest := RestParts(pathname);
    var home := Crumb("Home", "/" + locale);
    if rest != [] && rest[0] == "blog" then
      var blog := Crumb("Blog", "/" + locale + "/blog");
      if |rest| > 1 && rest[1] != "" then [home, blog, Crumb(FormatSegmentLabel(rest[1]), pathname)]
      else [home, blog]
    else [home]
  }

  /** The breadcrumb `nav` is rendered only for a trail of more than one crumb. */
  predicate ShowsBreadcrumbs(pathname: string) {
    |Breadcrumbs(pathname)| > 1
  }

  /** The trail is shown exactly on the blog pages. */
  lemma BreadcrumbsShownOnBlogPages(pathname: string)
    ensures ShowsBreadcrumbs(pathname) <==> |Segments(pathname)| >= 2 && Segments(pathname)[1] == "blog"
  {
  }

  /** A post page under a locale gets the full three-crumb trail ending in
      the page itself. */
  lemma PostPageTrail(l: Locale, slug: string)
    requires slug != [] && '/' !in slug
    ensures var path := "/" + Join([l.Code(), "blog", slug], "/");
            Breadcrumbs(path) == [Crumb("Home", "/" + l.Code()),
                                  Crumb("Blog", "/" + l.Code() + "/blog"),
                                  Crumb(FormatSegmentLabel(slug), path)]
  {
    var path := "/" + Join([l.Code(), "blog", slug], "/");
    SegmentsOfJoin([l.Code(), "blog", slug]);
    assert Segments(path) == [l.Code(), "blog", slug];
  }

  /** The header drops the first segment even when it is not a locale, so
      on an unprefixed blog path the trail loses the `blog` step. */
  lemma UnprefixedBlogPathHasNoTrail()
    ensures !ShowsBreadcrumbs("/blog/hello-world")
  {
    var path := "/blog/hello-world";
    assert path == "/" + Join(["blog", "hello-world"], "/");
    SegmentsOfJoin(["blog", "hello-world"]);
  }
}
