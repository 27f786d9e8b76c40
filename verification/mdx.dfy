/** Heading anchors of the MDX renderer (src/lib/mdx.tsx): `slugify` and
    the id that `HeadingAnchor` gives an `h2`/`h3`. `slugify` is a chain
    of five string rewrites, each modelled by its own function:
    `toLowerCase`, `trim`, removal of everything but letters, numbers,
    white space and `-`, `\s+` to `-`, and `-+` to `-`. */
module Mdx {
  import opened Text
  import opened Unicode

  function Lower(s: string): (r: string)
    ensures |r| == |s|
    ensures forall i :: 0 <= i < |s| ==> r[i] == ToLower(s[i])
  {
    seq(|s|, i requires 0 <= i < |s| => ToLower(s[i]))
  }

  /** The characters `[^\p{L}\p{N}\s-]` does not match. */
  predicate IsSlugSource(c: char) {
    IsLetter(c) || IsDigit(c) || IsSpace(c) || c == '-'
  }

  predicate IsHyphen(c: char) {
    c == '-'
  }

  /** The rest of `s` after its leading run of `p` characters. */
  function SkipRun(s: string, p: char -> bool): (r: string)
    ensures |r| <= |s| && r == s[|s| - |r|..]
    ensures forall i :: 0 <= i < |s| - |r| ==> p(s[i])
    ensures r == [] || !p(r[0])
    decreases |s|
  {
    if s != [] && p(s[0]) then SkipRun(s[1..], p) else s
  }

  /** `s.replace(/P+/g, rep)` for the class `p`: every maximal run of `p`
      characters becomes one `rep`. */
  function ReplaceRuns(s: string, p: char -> bool, rep: char): (r: string)
    ensures forall i :: 0 <= i < |r| ==> r[i] == rep || (!p(r[i]) && r[i] in s)
    ensures r != [] && p(r[0]) ==> s != [] && p(s[0])
    decreases |s|
  {
    if s == [] then []
    else if p(s[0]) then
      var rest := SkipRun(s[1..], p);
      assert forall c :: c in rest ==> c in s;
      [rep] + ReplaceRuns(rest, p, rep)
    else
      [s[0]] + ReplaceRuns(s[1..], p, rep)
  }

  /** No two characters of class `p` stand next to each other. */
  predicate NoAdjacent(r: string, p: char -> bool) {
    forall i :: 0 <= i < |r| - 1 && p(r[i]) ==> !p(r[i + 1])
  }

  /** One character in front of a string without adjacent class
      characters keeps that property when it or the string's first
      character is outside the class. */
  lemma NoAdjacentCons(c: char, t: string, p: char -> bool)
    requires NoAdjacent(t, p)
    requires !p(c) || t == [] || !p(t[0])
    ensures NoAdjacent([c] + t, p)
  {
    var r := [c] + t;
    forall i | 0 <= i < |r| - 1 && p(r[i])
      ensures !p(r[i + 1])
    {
      if i > 0 {
        assert r[i] == t[i - 1] && r[i + 1] == t[i];
      }
    }
  }

  /** When the replacement is itself in the class, no two class
      characters are adjacent afterwards: each run became one `rep`. */
  lemma {:induction false} ReplaceRunsNoAdjacent(s: string, p: char -> bool, rep: char)
    requires p(rep)
    ensures NoAdjacent(ReplaceRuns(s, p, rep), p)
    decreases |s|
  {
    if s != [] {
      if p(s[0]) {
        var rest := SkipRun(s[1..], p);
        ReplaceRunsNoAdjacent(rest, p, rep);
        NoAdjacentCons(rep, ReplaceRuns(rest, p, rep), p);
      } else {
        ReplaceRunsNoAdjacent(s[1..], p, rep);
        NoAdjacentCons(s[0], ReplaceRuns(s[1..], p, rep), p);
      }
    }
  }

  /** The five rewrites of `slugify(input)`, in order. */
  function SlugPipeline(s: string): string {
    var trimmed := Trim(Lower(s), IsSpace);
    ReplaceRuns(ReplaceRuns(Filter(trimmed, IsSlugSource), IsSpace, '-'), IsHyphen, '-')
  }

  /** `slugify(input)`: a slug, so every character is a letter, a digit
      or `-`, none is white space or an ASCII capital, and no two hyphens
      are adjacent. */
  function Slugify(s: string): (r: string)
    ensures IsSlug(r)
    ensures forall i :: 0 <= i < |r| ==> !IsSpace(r[i]) && !IsAsciiUpper(r[i])
  {
    SlugPipelineIsSlug(s);
    SlugPipeline(s)
  }

  lemma LowerIsLower(s: string)
    ensures forall c :: c in Lower(s) ==> ToLower(c) == c
  {
    LowerFacts();
    forall c | c in Lower(s)
      ensures ToLower(c) == c
    {
      var i :| 0 <= i < |s| && Lower(s)[i] == c;
    }
  }

  lemma TrimChars(s: string, p: char -> bool)
    ensures forall c :: c in Trim(s, p) ==> c in s
  {
    var a := TrimStartIndex(s, p);
    var b := TrimEndIndex(s, p, a);
    forall c | c in Trim(s, p)
      ensures c in s
    {
      var i :| 0 <= i < |s[a..b]| && s[a..b][i] == c;
      assert s[a + i] == c;
    }
  }

  lemma SlugPipelineIsSlug(s: string)
    ensures IsSlug(SlugPipeline(s))
    ensures forall i :: 0 <= i < |SlugPipeline(s)| ==> !IsSpace(SlugPipeline(s)[i]) && !IsAsciiUpper(SlugPipeline(s)[i])
  {
    var lowered := Lower(s);
    var trimmed := Trim(lowered, IsSpace);
    var kept := Filter(trimmed, IsSlugSource);
    var hyphened := ReplaceRuns(kept, IsSpace, '-');
    var r := ReplaceRuns(hyphened, IsHyphen, '-');
    assert r == SlugPipeline(s);
    ReplaceRunsNoAdjacent(hyphened, IsHyphen, '-');
    LowerIsLower(s);
    TrimChars(lowered, IsSpace);
    SpaceFacts();
    LowerFacts();
    assert forall c :: c in kept ==> IsSlugSource(c) && ToLower(c) == c;
    assert forall c :: c in hyphened ==> c == '-' || (c in kept && !IsSpace(c));
    assert forall c :: c in hyphened ==> (IsLetterOrDigit(c) || c == '-') && ToLower(c) == c;
    forall i | 0 <= i < |r|
      ensures (IsLetter(r[i]) || IsDigit(r[i]) || r[i] == '-') && ToLower(r[i]) == r[i]
      ensures !IsSpace(r[i]) && !IsAsciiUpper(r[i])
    {
      assert r[i] == '-' || r[i] in hyphened;
    }
  }

  /** A slug: lower-case letters, digits and single hyphens. */
  predicate IsSlug(t: string) {
    && (forall i :: 0 <= i < |t| ==> (IsLetter(t[i]) || IsDigit(t[i]) || t[i] == '-') && ToLower(t[i]) == t[i])
    && (forall i :: 0 <= i < |t| - 1 ==> !(t[i] == '-' && t[i + 1] == '-'))
  }

  // ---------------------------------------------------------------------
  // Lemmas
  // ---------------------------------------------------------------------

  lemma {:induction false} ReplaceRunsFixpoint(s: string, p: char -> bool, rep: char)
    requires forall i :: 0 <= i < |s| && p(s[i]) ==> s[i] == rep && (i + 1 < |s| ==> !p(s[i + 1]))
    ensures ReplaceRuns(s, p, rep) == s
    decreases |s|
  {
    if s != [] {
      ReplaceRunsFixpoint(s[1..], p, rep);
      assert [s[0]] + s[1..] == s;
    }
  }

  /** Slugs are left alone. */
  lemma SlugIsFixpoint(t: string)
    requires IsSlug(t)
    ensures Slugify(t) == t
  {
    SpaceFacts();
    assert Lower(t) == t;
    var a := TrimStartIndex(t, IsSpace);
    var b := TrimEndIndex(t, IsSpace, a);
    assert forall i :: 0 <= i < |t| ==> !IsSpace(t[i]);
    assert a == 0 && b == |t|;
    assert Trim(t, IsSpace) == t;
    FilterKeepsAll(t, IsSlugSource);
    ReplaceRunsFixpoint(t, IsSpace, '-');
    ReplaceRunsFixpoint(t, IsHyphen, '-');
  }

  /** `slugify(slugify(s)) == slugify(s)`. */
  lemma SlugifyIdempotent(s: string)
    ensures Slugify(Slugify(s)) == Slugify(s)
  {
    SlugIsFixpoint(Slugify(s));
  }

  /** A string of lower-case letters and digits is its own slug. */
  lemma LowerAlnumUnchanged(s: string)
    requires forall i :: 0 <= i < |s| ==> IsLetterOrDigit(s[i]) && ToLower(s[i]) == s[i]
    ensures Slugify(s) == s
  {
    SlugIsFixpoint(s);
  }

  lemma SkipRunKeepsAlnum(s: string, p: char -> bool)
    requires forall c :: p(c) ==> !IsLetterOrDigit(c)
    ensures Filter(SkipRun(s, p), IsLetterOrDigit) == Filter(s, IsLetterOrDigit)
  {
    var r := SkipRun(s, p);
    var pre := s[..|s| - |r|];
    assert s == pre + r;
    FilterAppend(pre, r, IsLetterOrDigit);
    FilterNone(pre, IsLetterOrDigit);
  }

  lemma {:induction false} ReplaceRunsKeepsAlnum(s: string, p: char -> bool, rep: char)
    requires forall c :: p(c) ==> !IsLetterOrDigit(c)
    requires !IsLetterOrDigit(rep)
    ensures Filter(ReplaceRuns(s, p, rep), IsLetterOrDigit) == Filter(s, IsLetterOrDigit)
    decreases |s|
  {
    if s != [] {
      if p(s[0]) {
        var rest := SkipRun(s[1..], p);
        ReplaceRunsKeepsAlnum(rest, p, rep);
        SkipRunKeepsAlnum(s[1..], p);
        assert ([rep] + ReplaceRuns(rest, p, rep))[1..] == ReplaceRuns(rest, p, rep);
      } else {
        ReplaceRunsKeepsAlnum(s[1..], p, rep);
        assert ([s[0]] + ReplaceRuns(s[1..], p, rep))[1..] == ReplaceRuns(s[1..], p, rep);
      }
    }
  }

  lemma TrimKeepsAlnum(s: string)
    ensures Filter(Trim(s, IsSpace), IsLetterOrDigit) == Filter(s, IsLetterOrDigit)
  {
    var a := TrimStartIndex(s, IsSpace);
    var b := TrimEndIndex(s, IsSpace, a);
    SpaceFacts();
    FilterIgnoresMargins(s, a, b, IsLetterOrDigit);
  }

  /** Apart from case, `slugify` keeps every letter and digit of its
      input, in order, and drops nothing else that is a letter or digit. */
  lemma SlugifyKeepsLettersAndDigits(s: string)
    ensures Filter(Slugify(s), IsLetterOrDigit) == Filter(Lower(s), IsLetterOrDigit)
  {
    var lowered := Lower(s);
    var trimmed := Trim(lowered, IsSpace);
    var kept := Filter(trimmed, IsSlugSource);
    var hyphened := ReplaceRuns(kept, IsSpace, '-');
    assert Slugify(s) == ReplaceRuns(hyphened, IsHyphen, '-');
    HyphenCollapseKeepsAlnum(hyphened);
    SpaceReplaceKeepsAlnum(kept);
    SymbolRemovalKeepsAlnum(trimmed);
    TrimKeepsAlnum(lowered);
  }

  lemma HyphenCollapseKeepsAlnum(hyphened: string)
    ensures Filter(ReplaceRuns(hyphened, IsHyphen, '-'), IsLetterOrDigit) == Filter(hyphened, IsLetterOrDigit)
  {
    ReplaceRunsKeepsAlnum(hyphened, IsHyphen, '-');
  }
  lemma SpaceReplaceKeepsAlnum(kept: string)
    ensures Filter(ReplaceRuns(kept, IsSpace, '-'), IsLetterOrDigit) == Filter(kept, IsLetterOrDigit)
  {
    SpaceFacts();
    ReplaceRunsKeepsAlnum(kept, IsSpace, '-');
  }
  lemma SymbolRemovalKeepsAlnum(trimmed: string)
    ensures Filter(Filter(trimmed, IsSlugSource), IsLetterOrDigit) == Filter(trimmed, IsLetterOrDigit)
  {
    FilterFilter(trimmed, IsSlugSource, IsLetterOrDigit);
  }

  // ---------------------------------------------------------------------
  // Heading ids
  // ---------------------------------------------------------------------

  /** A React child of a heading: a string, or any other node. */
  datatype Child = StringChild(s: string) | OtherChild

  /** A child that contributes no text: a non-string node or an empty string. */
  predicate IsTextless(c: Child) {
    c.OtherChild? || c.s == []
  }

  /** `Children.toArray(children).map(c => typeof c === 'string' ? c : '').join('')`. */
  function ChildrenText(children: seq<Child>): (r: string)
    ensures r == [] <==> forall i :: 0 <= i < |children| ==> IsTextless(children[i])
    decreases |children|
  {
    if children == [] then ""
    else
      (match children[0]
       case StringChild(s) => s
       case OtherChild => "") + ChildrenText(children[1..])
  }

  /** `slugify(text || 'section')`. */
  function HeadingId(children: seq<Child>): (id: string)
    ensures IsSlug(id)
  {
    var text := ChildrenText(children);
    Slugify(if text == "" then "section" else text)
  }

  lemma {:induction false} ChildrenTextAppend(a: seq<Child>, b: seq<Child>)
    ensures ChildrenText(a + b) == ChildrenText(a) + ChildrenText(b)
    decreases |a|
  {
    if a == [] {
      assert a + b == b;
    } else {
      assert (a + b)[1..] == a[1..] + b;
      ChildrenTextAppend(a[1..], b);
    }
  }

  /** Non-string children do not contribute to the id. */
  lemma OtherChildIgnored(a: seq<Child>, b: seq<Child>)
    ensures HeadingId(a + [OtherChild] + b) == HeadingId(a + b)
  {
    ChildrenTextAppend(a + [OtherChild], b);
    ChildrenTextAppend(a, [OtherChild]);
    ChildrenTextAppend(a, b);
    assert ChildrenText([OtherChild]) == "";
    assert ChildrenText(a + [OtherChild] + b) == ChildrenText(a + b);
  }

  /** A heading without text is anchored at `section`. */
  lemma EmptyHeadingIsSection(children: seq<Child>)
    requires ChildrenText(children) == ""
    ensures HeadingId(children) == "section"
  {
    SlugIsFixpoint("section");
  }

  /** The fallback is applied before `slugify`, so a heading made only of
      symbols gets an empty id rather than `section`. */
  lemma SymbolHeadingHasEmptyId()
    ensures HeadingId([StringChild("!?")]) == ""
  {
    assert ChildrenText([StringChild("!?")]) == "!?";
    SymbolsHaveEmptySlug();
  }

  lemma SymbolsHaveEmptySlug()
    ensures SlugPipeline("!?") == ""
  {
    SymbolsStayAfterLowerAndTrim();
    var f := Filter("!?", IsSlugSource);
    assert f == "";
    assert ReplaceRuns(f, IsSpace, '-') == "";
  }

  lemma SymbolsStayAfterLowerAndTrim()
    ensures Trim(Lower("!?"), IsSpace) == "!?"
  {
    assert Lower("!?") == "!?" by {
      assert Lower("!?")[0] == '!' && Lower("!?")[1] == '?';
    }
    assert TrimStartIndex("!?", IsSpace) == 0;
    assert TrimEndIndex("!?", IsSpace, 0) == 2;
  }
}
