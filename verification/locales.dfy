/** The three locales of the blog (`Locale` in src/lib/types.ts) and the
    string codes that stand for them in paths, frontmatter and maps. */
module Locales {
  import opened Wrappers

  datatype Locale = Ko | En | Uz {
    /** The path and map key of the locale. */
    function Code(): string {
      match this
      case Ko => "ko"
      case En => "en"
      case Uz => "uz"
    }
  }

  /** `['ko', 'en', 'uz']`, the order every locale loop of the source uses. */
  const All: seq<Locale> := [Ko, En, Uz]

  /** The locale a string names, if any: the `includes` membership test
      against the locale list. */
  function FromCode(s: string): (r: Option<Locale>)
    ensures r.Some? <==> s in {"ko", "en", "uz"}
    ensures r.Some? ==> r.value.Code() == s
  {
    if s == "ko" then Some(Ko)
    else if s == "en" then Some(En)
    else if s == "uz" then Some(Uz)
    else None
  }

  /** Reading back a locale's code gives the locale. */
  lemma FromCodeOfCode(l: Locale)
    ensures FromCode(l.Code()) == Some(l)
  {
  }

  /** Every locale occurs in `All`, exactly once. */
  lemma AllListsEachLocaleOnce(l: Locale)
    ensures l in All
    ensures forall i, j :: 0 <= i < j < |All| ==> All[i] != All[j]
  {
  }
}
