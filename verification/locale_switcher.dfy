/** The locale switcher (src/components/layout/LocaleSwitcher.tsx): it
    splits the pathname into the current locale and the rest of the path
    and offers one link per locale that keeps the rest of the path. */
module LocaleSwitcher {
  import opened Wrappers
  import opened Text
  import opened Locales
  import Header

  /** `isLocale(v)`: `v` is a string naming a supported locale. */
  predicate IsLocale(v: Option<string>) {
    v.Some? && FromCode(v.value).Some?
  }

  /** The two halves of a pathname the switcher works with. */
  datatype Route = Route(current: Locale, rest: seq<string>)

  /** `current` and `rest`: a leading locale segment is the current
      locale and is removed; without one the locale is `ko` and every
      segment is kept. */
  function ParseRoute(pathname: string): (r: Route)
    ensures AreSegments(r.rest)
    ensures var parts := Segments(pathname);
            if parts != [] && parts[0] in {"ko", "en", "uz"}
            then r.current.Code() == parts[0] && parts == [parts[0]] + r.rest
            else r.current == Ko && r.rest == parts
  {
    var parts := Segments(pathname);
    var first := if parts != [] then Some(parts[0]) else None;
    if IsLocale(first) then Route(FromCode(first.value).value, parts[1..])
    else Route(Ko, parts)
  }

  /** `` `/${[l, ...rest].join('/')}` ``. */
  function Href(l: Locale, rest: seq<string>): (r: string)
    ensures StartsWith(r, "/" + l.Code())
    ensures rest == [] ==> r == "/" + l.Code()
  {
    "/" + Join([l.Code()] + rest, "/")
  }

  datatype LocaleLink = LocaleLink(locale: Locale, href: string, active: bool)

  /** The links, one per locale in `LOCALES` order; the active one is the
      current locale's. */
  function Links(pathname: string): (r: seq<LocaleLink>)
    ensures |r| == |All| == 3
    ensures forall i :: 0 <= i < |r| ==> r[i].locale == All[i]
    ensures forall i :: 0 <= i < |r| ==> r[i].href == Href(All[i], ParseRoute(pathname).rest)
    ensures forall i :: 0 <= i < |r| ==> (r[i].active <==> All[i] == ParseRoute(pathname).current)
  {
    var route := ParseRoute(pathname);
    seq(|All|, i requires 0 <= i < |All| =>
      LocaleLink(All[i], Href(All[i], route.rest), All[i] == route.current))
  }

  /** Exactly one link is marked active. */
  lemma ExactlyOneActive(pathname: string)
    ensures exists i :: 0 <= i < |Links(pathname)| && Links(pathname)[i].active
    ensures forall i, j :: 0 <= i < j < |Links(pathname)| ==> !(Links(pathname)[i].active && Links(pathname)[j].active)
  {
    var links := Links(pathname);
    var current := ParseRoute(pathname).current;
    match current
    case Ko => assert links[0].active;
    case En => assert links[1].active;
    case Uz => assert links[2].active;
  }

  /** Every link starts with its locale and ends with the unchanged rest
      of the path. */
  lemma HrefShape(l: Locale, rest: seq<string>)
    requires AreSegments(rest)
    ensures StartsWith(Href(l, rest), "/" + l.Code())
    ensures Segments(Href(l, rest)) == [l.Code()] + rest
  {
    var xs := [l.Code()] + rest;
    if rest == [] {
      assert Join(xs, "/") == l.Code();
    } else {
      assert xs[1..] == rest;
      assert Join(xs, "/") == l.Code() + "/" + Join(rest, "/");
    }
    assert Href(l, rest) == "/" + l.Code() + (Href(l, rest)[|"/" + l.Code()|..]);
    assert AreSegments(xs);
    SegmentsOfJoin(xs);
  }

  /** Following a link and reading the pathname again gives the link's
      locale and the same rest of the path. */
  lemma HrefRoundTrip(l: Locale, rest: seq<string>)
    requires AreSegments(rest)
    ensures ParseRoute(Href(l, rest)) == Route(l, rest)
  {
    HrefShape(l, rest);
    FromCodeOfCode(l);
  }

  /** Switching twice is switching once to the final locale. */
  lemma SwitchTwice(pathname: string, l1: Locale, l2: Locale)
    ensures var once := Href(l1, ParseRoute(pathname).rest);
            Href(l2, ParseRoute(once).rest) == Href(l2, ParseRoute(pathname).rest)
  {
    HrefRoundTrip(l1, ParseRoute(pathname).rest);
  }

  /** The link of the current locale leads to the same segments as the
      pathname whenever the pathname starts with a locale. */
  lemma CurrentLinkIsSamePage(pathname: string)
    requires var parts := Segments(pathname); parts != [] && parts[0] in {"ko", "en", "uz"}
    ensures var route := ParseRoute(pathname);
            Segments(Href(route.current, route.rest)) == Segments(pathname)
  {
    var route := ParseRoute(pathname);
    HrefShape(route.current, route.rest);
  }

  /** The header and the switcher read the same locale from a pathname.
      On an unprefixed path they disagree about the rest: the switcher
      keeps the first segment, the header's trail drops it. */
  lemma AgreesWithHeader(pathname: string)
    ensures ParseRoute(pathname).current == Header.HeaderLocale(pathname)
    ensures var parts := Segments(pathname);
            parts != [] && parts[0] in {"ko", "en", "uz"} ==> ParseRoute(pathname).rest == Header.RestParts(pathname)
    ensures var parts := Segments(pathname);
            parts != [] && parts[0] !in {"ko", "en", "uz"} ==> ParseRoute(pathname).rest == [parts[0]] + Header.RestParts(pathname)
  {
    var parts := Segments(pathname);
    var r := ParseRoute(pathname);
    if parts != [] && parts[0] in {"ko", "en", "uz"} {
      FromCodeOfCode(r.current);
      FromCodeOfCode(Header.HeaderLocale(pathname));
    }
  }
}
