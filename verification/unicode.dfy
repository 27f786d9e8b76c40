/** Character classes used by the regular expressions and case mappings
    of the source. `IsSpace` is exactly ECMAScript's `\s` (the WhiteSpace
    and LineTerminator code points, which `String.prototype.trim` also
    strips). `IsLetter` and `IsDigit` stand for `\p{L}` and `\p{N}` on a
    subset of Unicode (ASCII, Latin-1, Latin Extended-A/B, the spacing
    modifier letters, Cyrillic up to U+0481 and Hangul syllables) and treat
    every other code point as neither letter nor digit. `ToLower`,
    `ToUpper` and `Upper` stand for `toLowerCase` and `toUpperCase` of one
    code point; they map ASCII, Latin-1, Latin Extended-A and Cyrillic up
    to U+0481 as Unicode's case tables do, except that U+0130, whose lower
    case is two code points, is left unmapped, and they leave every other
    code point unchanged. */
module Unicode {

  predicate IsSpace(c: char) {
    || c == '\t' || c == '\n' || c == '\U{000B}' || c == '\U{000C}' || c == '\r'
    || c == ' ' || c == '\U{00A0}' || c == '\U{1680}'
    || ('\U{2000}' <= c <= '\U{200A}')
    || c == '\U{2028}' || c == '\U{2029}' || c == '\U{202F}' || c == '\U{205F}'
    || c == '\U{3000}' || c == '\U{FEFF}'
  }

  predicate IsAsciiUpper(c: char) {
    'A' <= c <= 'Z'
  }

  predicate IsAsciiLower(c: char) {
    'a' <= c <= 'z'
  }

  predicate IsLetter(c: char) {
    || IsAsciiUpper(c) || IsAsciiLower(c)
    || c == '\U{00AA}' || c == '\U{00B5}' || c == '\U{00BA}'
    || ('\U{00C0}' <= c <= '\U{00D6}') || ('\U{00D8}' <= c <= '\U{00F6}')
    || ('\U{00F8}' <= c <= '\U{024F}')
    || ('\U{02B0}' <= c <= '\U{02C1}') || ('\U{02C6}' <= c <= '\U{02D1}')
    || ('\U{02E0}' <= c <= '\U{02E4}') || c == '\U{02EC}' || c == '\U{02EE}'
    || ('\U{0400}' <= c <= '\U{0481}')
    || ('\U{AC00}' <= c <= '\U{D7A3}')
  }

  predicate IsDigit(c: char) {
    || ('0' <= c <= '9')
    || c == '\U{00B2}' || c == '\U{00B3}' || c == '\U{00B9}'
    || ('\U{00BC}' <= c <= '\U{00BE}')
  }

  predicate IsLetterOrDigit(c: char) {
    IsLetter(c) || IsDigit(c)
  }

  /** Code points of Latin Extended-A and Cyrillic whose case pairs are an
      even upper-case letter followed by its lower-case letter. */
  predicate InEvenPairBlock(c: char) {
    || ('\U{0100}' <= c <= '\U{012F}') || ('\U{0132}' <= c <= '\U{0137}')
    || ('\U{014A}' <= c <= '\U{0177}') || ('\U{0460}' <= c <= '\U{0481}')
  }

  /** Code points of Latin Extended-A whose case pairs are an odd upper-case
      letter followed by its lower-case letter. */
  predicate InOddPairBlock(c: char) {
    ('\U{0139}' <= c <= '\U{0148}') || ('\U{0179}' <= c <= '\U{017E}')
  }

  /** The upper-case half of a pair in the two blocks above. */
  predicate IsPairUpper(c: char) {
    (InEvenPairBlock(c) && c as int % 2 == 0) || (InOddPairBlock(c) && c as int % 2 == 1)
  }

  /** The lower-case half of a pair in the two blocks above. */
  predicate IsPairLower(c: char) {
    (InEvenPairBlock(c) && c as int % 2 == 1) || (InOddPairBlock(c) && c as int % 2 == 0)
  }

  /** Lower-case mapping of one code point. */
  function ToLower(c: char): (r: char)
    ensures !IsAsciiUpper(r)
    ensures IsAsciiLower(r) ==> IsAsciiLower(c) || IsAsciiUpper(c)
  {
    if IsAsciiUpper(c) || ('\U{00C0}' <= c <= '\U{00DE}' && c != '\U{00D7}')
       || ('\U{0410}' <= c <= '\U{042F}') then
      (c as int + 32) as char
    else if '\U{0400}' <= c <= '\U{040F}' then
      (c as int + 80) as char
    else if c == '\U{0178}' then
      '\U{00FF}'
    else if IsPairUpper(c) then
      (c as int + 1) as char
    else c
  }

  /** Upper-case mapping of one code point, where it is a single code point. */
  function ToUpper(c: char): (r: char)
    ensures !IsAsciiLower(r)
  {
    if IsAsciiLower(c) || ('\U{00E0}' <= c <= '\U{00FE}' && c != '\U{00F7}')
       || ('\U{0430}' <= c <= '\U{044F}') then
      (c as int - 32) as char
    else if '\U{0450}' <= c <= '\U{045F}' then
      (c as int - 80) as char
    else if c == '\U{00FF}' then
      '\U{0178}'
    else if c == '\U{00B5}' then
      '\U{039C}'
    else if c == '\U{0131}' then
      'I'
    else if c == '\U{017F}' then
      'S'
    else if IsPairLower(c) then
      (c as int - 1) as char
    else c
  }

  /** `toUpperCase` of one code point: `ß` and `ŉ` become two code points,
      every other one its single upper-case form. */
  function Upper(c: char): (r: string)
    ensures 1 <= |r| <= 2
    ensures |r| == 2 <==> c == '\U{00DF}' || c == '\U{0149}'
    ensures |r| == 1 ==> r[0] == ToUpper(c)
    ensures forall i :: 0 <= i < |r| ==> !IsAsciiLower(r[i])
  {
    if c == '\U{00DF}' then "SS"
    else if c == '\U{0149}' then "\U{02BC}N"
    else [ToUpper(c)]
  }

  /** Number of UTF-16 code units of `s`: JavaScript's `s.length`. */
  function Utf16Length(s: string): (n: nat)
    ensures |s| <= n <= 2 * |s|
  {
    if s == [] then 0
    else (if s[0] as int > 0xFFFF then 2 else 1) + Utf16Length(s[1..])
  }

  /** Lower-casing a lower-cased character changes nothing. */
  lemma ToLowerIdempotent(c: char)
    ensures ToLower(ToLower(c)) == ToLower(c)
  {
  }

  /** White space is neither a letter nor a digit. */
  lemma SpaceIsNotLetterOrDigit(c: char)
    requires IsSpace(c)
    ensures !IsLetterOrDigit(c)
  {
  }

  /** Upper-casing never produces `-`, `_` or a space from another character. */
  lemma UpperKeepsSeparators(c: char)
    ensures '-' in Upper(c) <==> c == '-'
    ensures '_' in Upper(c) <==> c == '_'
    ensures ' ' in Upper(c) <==> c == ' '
  {
  }

  /** Every character the lower-case mapping changes is the upper-case form
      of the character it becomes. */
  lemma {:induction false} LowerThenUpper(c: char)
    requires ToLower(c) != c
    ensures ToUpper(ToLower(c)) == c
  {
  }

  /** Every character the upper-case mapping changes, other than `µ`, `ı`
      and `ſ`, whose upper-case forms lower-case to other letters, is the
      lower-case form of the character it becomes. */
  lemma {:induction false} UpperThenLower(c: char)
    requires ToUpper(c) != c
    requires c != '\U{00B5}' && c != '\U{0131}' && c != '\U{017F}'
    ensures ToLower(ToUpper(c)) == c
  {
  }

  /** The modifier letters of the spacing modifier block are letters, and
      the modifier symbols between them are not. */
  lemma ModifierLetterExamples()
    ensures IsLetter('\U{02C8}') && IsLetter('\U{02D0}') && IsLetter('\U{02E0}') && IsLetter('\U{02EE}')
    ensures !IsLetterOrDigit('\U{02C2}') && !IsLetterOrDigit('\U{02D2}') && !IsLetterOrDigit('\U{02ED}')
  {
  }

  /** The case pairs the model adds beyond ASCII, one of each kind. */
  lemma CaseExamples()
    ensures ToLower('\U{0141}') == '\U{0142}' && ToUpper('\U{0142}') == '\U{0141}'
    ensures ToLower('\U{0100}') == '\U{0101}' && ToUpper('\U{017E}') == '\U{017D}'
    ensures ToLower('\U{0178}') == '\U{00FF}' && ToUpper('\U{00FF}') == '\U{0178}'
    ensures Upper('\U{00DF}') == "SS" && ToUpper('\U{0131}') == 'I'
    ensures ToLower('\U{0130}') == '\U{0130}' && ToLower('\U{0138}') == '\U{0138}'
  {
  }

  /** White space is neither a letter, a digit nor `-`, for every character. */
  lemma SpaceFacts()
    ensures forall c :: IsSpace(c) ==> !IsLetterOrDigit(c) && c != '-'
  {
    forall c | IsSpace(c)
      ensures !IsLetterOrDigit(c) && c != '-'
    {
      SpaceIsNotLetterOrDigit(c);
    }
  }

  /** Lower-casing is idempotent, for every character. */
  lemma LowerFacts()
    ensures forall c {:trigger ToLower(ToLower(c))} :: ToLower(ToLower(c)) == ToLower(c)
    ensures ToLower('-') == '-'
  {
    forall c
      ensures ToLower(ToLower(c)) == ToLower(c)
    {
      ToLowerIdempotent(c);
    }
  }
}
