/** String and sequence helpers shared by the model: JavaScript's
    `split` with a one-character-class separator, `filter(Boolean)`,
    `join`, `startsWith` and `endsWith`, and the `/`-separated path
    segments that the layout components compute from a pathname. */
module Text {

  /** Cuts `s` at every character for which `sep` holds, keeping empty
      pieces, as `s.split(re)` does for a single-character class `re`.
      (`s.split(/c+/).filter(Boolean)` equals
      `NonEmpty(Split(s, c))`: the extra pieces are all empty.) */
  function Split(s: string, sep: char -> bool): (r: seq<string>)
    ensures |r| >= 1
    ensures forall i, j :: 0 <= i < |r| && 0 <= j < |r[i]| ==> !sep(r[i][j])
    decreases |s|
  {
    if s == [] then [""]
    else
      var rest := Split(s[1..], sep);
      if sep(s[0]) then [""] + rest
      else [[s[0]] + rest[0]] + rest[1..]
  }

  /** Keeps the elements for which `keep` holds, in order. */
  function Filter<T>(xs: seq<T>, keep: T -> bool): (r: seq<T>)
    ensures |r| <= |xs|
    ensures forall i :: 0 <= i < |r| ==> keep(r[i]) && r[i] in xs
    decreases |xs|
  {
    if xs == [] then []
    else if keep(xs[0]) then [xs[0]] + Filter(xs[1..], keep)
    else Filter(xs[1..], keep)
  }

  predicate IsNonEmpty(s: string) {
    s != []
  }

  /** `pieces.filter(Boolean)`: drops the empty strings. */
  function NonEmpty(pieces: seq<string>): (r: seq<string>)
    ensures forall i :: 0 <= i < |r| ==> r[i] != [] && r[i] in pieces
  {
    Filter(pieces, IsNonEmpty)
  }

  /** `xs.join(sep)`. */
  function Join(xs: seq<string>, sep: string): (r: string)
    ensures xs == [] ==> r == []
    ensures xs != [] ==> |r| == JoinedLength(xs) + (|xs| - 1) * |sep|
    decreases |xs|
  {
    if xs == [] then ""
    else if |xs| == 1 then xs[0]
    else xs[0] + sep + Join(xs[1..], sep)
  }

  /** Total length of the pieces. */
  function JoinedLength(xs: seq<string>): nat
    decreases |xs|
  {
    if xs == [] then 0 else |xs[0]| + JoinedLength(xs[1..])
  }

  predicate StartsWith(s: string, prefix: string) {
    |prefix| <= |s| && s[..|prefix|] == prefix
  }

  predicate EndsWith(s: string, suffix: string) {
    |suffix| <= |s| && s[|s| - |suffix|..] == suffix
  }

  /** Length of the leading run of `p` characters. */
  function TrimStartIndex(s: string, p: char -> bool): (a: nat)
    ensures a <= |s|
    ensures forall i :: 0 <= i < a ==> p(s[i])
    ensures a == |s| || !p(s[a])
    decreases |s|
  {
    if s != [] && p(s[0]) then 1 + TrimStartIndex(s[1..], p) else 0
  }

  /** Where the trailing run of `p` characters of `s` starts, looking no
      further left than `from`. */
  function TrimEndIndex(s: string, p: char -> bool, from: nat): (b: nat)
    requires from <= |s|
    ensures from <= b <= |s|
    ensures forall i :: b <= i < |s| ==> p(s[i])
    ensures b == from || !p(s[b - 1])
    decreases |s|
  {
    if |s| > from && p(s[|s| - 1]) then TrimEndIndex(s[..|s| - 1], p, from) else |s|
  }

  /** `s.trim()` for the character class `p`: what is left after removing
      the run of `p` characters at each end. */
  function Trim(s: string, p: char -> bool): (r: string)
    ensures var a := TrimStartIndex(s, p);
            r == s[a..TrimEndIndex(s, p, a)]
    ensures r == [] || (!p(r[0]) && !p(r[|r| - 1]))
    ensures r == [] <==> forall i :: 0 <= i < |s| ==> p(s[i])
  {
    var a := TrimStartIndex(s, p);
    s[a..TrimEndIndex(s, p, a)]
  }

  predicate IsSlash(c: char) {
    c == '/'
  }

  /** `pathname.split('/').filter(Boolean)`. */
  function Segments(path: string): (r: seq<string>)
    ensures forall i :: 0 <= i < |r| ==> r[i] != [] && '/' !in r[i]
  {
    var r := NonEmpty(Split(path, IsSlash));
    assert forall i :: 0 <= i < |r| ==> r[i] in Split(path, IsSlash);
    r
  }

  /** A segment list that `Segments` can produce: no empty and no
      slash-bearing element. */
  predicate AreSegments(xs: seq<string>) {
    forall i :: 0 <= i < |xs| ==> xs[i] != [] && '/' !in xs[i]
  }

  // ---------------------------------------------------------------------
  // Lemmas
  // ---------------------------------------------------------------------

  lemma {:induction false} FilterAppend<T>(a: seq<T>, b: seq<T>, keep: T -> bool)
    ensures Filter(a + b, keep) == Filter(a, keep) + Filter(b, keep)
    decreases |a|
  {
    if a == [] {
      assert a + b == b;
    } else {
      assert (a + b)[1..] == a[1..] + b;
      FilterAppend(a[1..], b, keep);
    }
  }

  lemma {:induction false} FilterKeepsAll<T>(xs: seq<T>, keep: T -> bool)
    requires forall i :: 0 <= i < |xs| ==> keep(xs[i])
    ensures Filter(xs, keep) == xs
    decreases |xs|
  {
    if xs != [] {
      FilterKeepsAll(xs[1..], keep);
      assert [xs[0]] + xs[1..] == xs;
    }
  }

  lemma {:induction false} FilterFilter<T>(xs: seq<T>, outer: T -> bool, inner: T -> bool)
    requires forall x :: inner(x) ==> outer(x)
    ensures Filter(Filter(xs, outer), inner) == Filter(xs, inner)
    decreases |xs|
  {
    if xs != [] {
      FilterFilter(xs[1..], outer, inner);
    }
  }

  lemma {:induction false} FilterNone<T>(xs: seq<T>, keep: T -> bool)
    requires forall i :: 0 <= i < |xs| ==> !keep(xs[i])
    ensures Filter(xs, keep) == []
    decreases |xs|
  {
    if xs != [] {
      FilterNone(xs[1..], keep);
    }
  }

  lemma FilterIgnoresMargins<T>(xs: seq<T>, a: nat, b: nat, keep: T -> bool)
    requires a <= b <= |xs|
    requires forall i :: 0 <= i < a ==> !keep(xs[i])
    requires forall i :: b <= i < |xs| ==> !keep(xs[i])
    ensures Filter(xs[a..b], keep) == Filter(xs, keep)
  {
    FilterIgnoresTail(xs, b, keep);
    FilterIgnoresHead(xs[..b], a, keep);
    assert xs[..b][a..] == xs[a..b];
  }

  lemma FilterIgnoresHead<T>(xs: seq<T>, a: nat, keep: T -> bool)
    requires a <= |xs|
    requires forall i :: 0 <= i < a ==> !keep(xs[i])
    ensures Filter(xs[a..], keep) == Filter(xs, keep)
  {
    assert xs == xs[..a] + xs[a..];
    FilterAppend(xs[..a], xs[a..], keep);
    FilterNone(xs[..a], keep);
  }

  lemma FilterIgnoresTail<T>(xs: seq<T>, b: nat, keep: T -> bool)
    requires b <= |xs|
    requires forall i :: b <= i < |xs| ==> !keep(xs[i])
    ensures Filter(xs[..b], keep) == Filter(xs, keep)
  {
    assert xs == xs[..b] + xs[b..];
    FilterAppend(xs[..b], xs[b..], keep);
    FilterNone(xs[b..], keep);
    assert Filter(xs[..b], keep) + [] == Filter(xs[..b], keep);
  }

  lemma {:induction false} FilterMembers<T>(xs: seq<T>, keep: T -> bool, x: T)
    ensures x in Filter(xs, keep) <==> x in xs && keep(x)
    decreases |xs|
  {
    if xs != [] {
      FilterMembers(xs[1..], keep, x);
      assert xs == [xs[0]] + xs[1..];
    }
  }

  /** A string without separator characters is one piece. */
  lemma {:induction false} SplitNoSeparator(s: string, sep: char -> bool)
    requires forall i :: 0 <= i < |s| ==> !sep(s[i])
    ensures Split(s, sep) == [s]
    decreases |s|
  {
    if s != [] {
      SplitNoSeparator(s[1..], sep);
      assert [s[0]] + s[1..] == s;
    }
  }

  /** Cutting at one separator character splits the piece list in two. */
  lemma {:induction false} SplitAtSeparator(a: string, c: char, b: string, sep: char -> bool)
    requires sep(c)
    ensures Split(a + [c] + b, sep) == Split(a, sep) + Split(b, sep)
    decreases |a|
  {
    if a == [] {
      assert a + [c] + b == [c] + b;
      assert ([c] + b)[1..] == b;
    } else {
      assert (a + [c] + b)[0] == a[0];
      assert (a + [c] + b)[1..] == a[1..] + [c] + b;
      SplitAtSeparator(a[1..], c, b, sep);
    }
  }

  /** A join starts with the first piece and ends with the last. */
  lemma {:induction false} JoinEnds(xs: seq<string>, sep: string)
    requires xs != []
    ensures StartsWith(Join(xs, sep), xs[0])
    ensures EndsWith(Join(xs, sep), xs[|xs| - 1])
    decreases |xs|
  {
    if |xs| > 1 {
      JoinEnds(xs[1..], sep);
      var tail := Join(xs[1..], sep);
      assert Join(xs, sep) == xs[0] + (sep + tail);
      assert xs[|xs| - 1] == xs[1..][|xs[1..]| - 1];
    }
  }

  /** Joining the pieces of a split with the (only) separator character
      gives back the original string. */
  lemma {:induction false} JoinSplit(s: string, c: char, sep: char -> bool)
    requires forall x :: sep(x) <==> x == c
    ensures Join(Split(s, sep), [c]) == s
    decreases |s|
  {
    if s != [] {
      var rest := Split(s[1..], sep);
      JoinSplit(s[1..], c, sep);
      if sep(s[0]) {
        assert s == [c] + s[1..];
      } else {
        var r := [[s[0]] + rest[0]] + rest[1..];
        assert r[1..] == rest[1..];
        if |rest| == 1 {
          assert Join(rest, [c]) == rest[0];
        } else {
          assert Join(rest, [c]) == rest[0] + [c] + Join(rest[1..], [c]);
        }
      }
    }
  }

  /** Splitting a join recovers its parts when no part holds a separator. */
  lemma {:induction false} SplitJoin(xs: seq<string>, c: char, sep: char -> bool)
    requires |xs| >= 1
    requires sep(c)
    requires forall i, j :: 0 <= i < |xs| && 0 <= j < |xs[i]| ==> !sep(xs[i][j])
    ensures Split(Join(xs, [c]), sep) == xs
    decreases |xs|
  {
    SplitNoSeparator(xs[0], sep);
    if |xs| > 1 {
      SplitJoin(xs[1..], c, sep);
      SplitAtSeparator(xs[0], c, Join(xs[1..], [c]), sep);
      assert [xs[0]] + xs[1..] == xs;
    }
  }

  lemma NonEmptyAppend(a: seq<string>, b: seq<string>)
    ensures NonEmpty(a + b) == NonEmpty(a) + NonEmpty(b)
  {
    FilterAppend(a, b, IsNonEmpty);
  }

  lemma {:induction false} NonEmptyOfNonEmpty(xs: seq<string>)
    requires forall i :: 0 <= i < |xs| ==> xs[i] != []
    ensures NonEmpty(xs) == xs
    decreases |xs|
  {
    if xs != [] {
      NonEmptyOfNonEmpty(xs[1..]);
      assert [xs[0]] + xs[1..] == xs;
    }
  }

  /** The segments of `"/" + xs.join("/")` are `xs` again. */
  lemma SegmentsOfJoin(xs: seq<string>)
    requires AreSegments(xs)
    ensures Segments("/" + Join(xs, "/")) == xs
  {
    var s := "/" + Join(xs, "/");
    assert s == [] + ['/'] + Join(xs, "/");
    SplitAtSeparator([], '/', Join(xs, "/"), IsSlash);
    var pieces := Split(Join(xs, "/"), IsSlash);
    if xs == [] {
      assert pieces == [""];
    } else {
      SplitJoin(xs, '/', IsSlash);
    }
    NonEmptyAppend([""], pieces);
    NonEmptyOfNonEmpty(xs);
  }

  /** Leading separators only add empty pieces. */
  lemma {:induction false} SplitAfterSeparators(pre: string, x: string, sep: char -> bool)
    requires forall i :: 0 <= i < |pre| ==> sep(pre[i])
    ensures NonEmpty(Split(pre + x, sep)) == NonEmpty(Split(x, sep))
    decreases |pre|
  {
    if pre != [] {
      assert pre + x == [] + [pre[0]] + (pre[1..] + x);
      SplitAtSeparator([], pre[0], pre[1..] + x, sep);
      NonEmptyAppend([""], Split(pre[1..] + x, sep));
      SplitAfterSeparators(pre[1..], x, sep);
      assert Split([], sep) == [""];
      assert NonEmpty([""]) == [];
    } else {
      assert pre + x == x;
    }
  }

  /** Trailing separators only add empty pieces. */
  lemma {:induction false} SplitBeforeSeparators(x: string, post: string, sep: char -> bool)
    requires forall i :: 0 <= i < |post| ==> sep(post[i])
    ensures NonEmpty(Split(x + post, sep)) == NonEmpty(Split(x, sep))
    decreases |post|
  {
    if post != [] {
      var last := post[|post| - 1];
      var init := post[..|post| - 1];
      assert x + post == (x + init) + [last] + [];
      SplitAtSeparator(x + init, last, [], sep);
      NonEmptyAppend(Split(x + init, sep), [""]);
      SplitBeforeSeparators(x, init, sep);
      assert Split([], sep) == [""];
      assert NonEmpty([""]) == [];
      assert NonEmpty(Split(x + init, sep)) + [] == NonEmpty(Split(x + init, sep));
    } else {
      assert x + post == x;
    }
  }

  /** Trimming the separator class first does not change the non-empty
      pieces. */
  lemma TrimThenSplit(s: string, sep: char -> bool)
    ensures NonEmpty(Split(Trim(s, sep), sep)) == NonEmpty(Split(s, sep))
  {
    var a := TrimStartIndex(s, sep);
    var b := TrimEndIndex(s, sep, a);
    assert s == s[..a] + (s[a..b] + s[b..]);
    SplitAfterSeparators(s[..a], s[a..b] + s[b..], sep);
    SplitBeforeSeparators(s[a..b], s[b..], sep);
  }

  /** A string has no non-empty pieces exactly when it is made of
      separators only. */
  lemma {:induction false} NoPiecesIffAllSeparators(s: string, sep: char -> bool)
    ensures NonEmpty(Split(s, sep)) == [] <==> forall i :: 0 <= i < |s| ==> sep(s[i])
    decreases |s|
  {
    if s != [] {
      var rest := Split(s[1..], sep);
      NoPiecesIffAllSeparators(s[1..], sep);
      if sep(s[0]) {
        NonEmptyAppend([""], rest);
        assert NonEmpty([""]) == [];
        assert forall i :: 1 <= i < |s| ==> s[i] == s[1..][i - 1];
      } else {
        NonEmptyAppend([[s[0]] + rest[0]], rest[1..]);
        assert NonEmpty([[s[0]] + rest[0]]) == [[s[0]] + rest[0]];
      }
    }
  }

  /** Joining non-empty strings gives the empty string only for no strings. */
  lemma JoinEmpty(xs: seq<string>, sep: string)
    requires forall i :: 0 <= i < |xs| ==> xs[i] != []
    ensures Join(xs, sep) == [] <==> xs == []
  {
    if |xs| > 1 {
      assert |Join(xs, sep)| >= |xs[0]|;
    }
  }

  /** Joining a concatenation puts one separator between the two parts. */
  lemma {:induction false} JoinAppend(a: seq<string>, b: seq<string>, sep: string)
    requires a != [] && b != []
    ensures Join(a + b, sep) == Join(a, sep) + sep + Join(b, sep)
    decreases |a|
  {
    assert (a + b)[1..] == a[1..] + b;
    if |a| > 1 {
      JoinAppend(a[1..], b, sep);
    }
  }
}
