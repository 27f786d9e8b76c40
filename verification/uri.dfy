/** `encodeURIComponent`, as the sitemap route applies it to slugs: an
    unreserved character stays as it is, every other character becomes
    the `%XX` escapes of its UTF-8 bytes, with upper-case hex digits.
    A byte-level `decodeURIComponent` is its partner. */
module UriEncoding {
  import opened Wrappers

  /** The characters `encodeURIComponent` leaves alone:
      `A-Z a-z 0-9 - _ . ! ~ * ' ( )`. */
  predicate IsUnreserved(c: char) {
    ('A' <= c <= 'Z') || ('a' <= c <= 'z') || ('0' <= c <= '9')
    || c == '-' || c == '_' || c == '.' || c == '!' || c == '~' || c == '*' || c == '\'' || c == '(' || c == ')'
  }

  predicate IsUpperHex(c: char) {
    ('0' <= c <= '9') || ('A' <= c <= 'F')
  }

  predicate IsHex(c: char) {
    IsUpperHex(c) || ('a' <= c <= 'f')
  }

  /** What an encoded string can contain. */
  predicate IsEncodedChar(c: char) {
    IsUnreserved(c) || c == '%' || IsUpperHex(c)
  }

  predicate IsByte(b: int) {
    0 <= b < 256
  }

  function HexDigit(n: nat): (c: char)
    requires n < 16
    ensures IsUpperHex(c)
    ensures HexValue(c) == n
  {
    if n < 10 then ('0' as int + n) as char else ('A' as int + n - 10) as char
  }

  function HexValue(c: char): (v: nat)
    requires IsHex(c)
    ensures v < 16
  {
    if '0' <= c <= '9' then c as int - '0' as int
    else if 'A' <= c <= 'F' then c as int - 'A' as int + 10
    else c as int - 'a' as int + 10
  }

  /** The UTF-8 encoding of one Unicode scalar value. */
  function Utf8(c: char): (bs: seq<int>)
    ensures 1 <= |bs| <= 4
    ensures forall i :: 0 <= i < |bs| ==> IsByte(bs[i])
    ensures |bs| == 1 <==> c as int < 0x80
    ensures |bs| == 1 ==> bs[0] == c as int
  {
    var cp := c as int;
    if cp < 0x80 then [cp]
    else if cp < 0x800 then [0xC0 + cp / 64, 0x80 + cp % 64]
    else if cp < 0x1_0000 then [0xE0 + cp / 4096, 0x80 + (cp / 64) % 64, 0x80 + cp % 64]
    else [0xF0 + cp / 262144, 0x80 + (cp / 4096) % 64, 0x80 + (cp / 64) % 64, 0x80 + cp % 64]
  }

  /** The UTF-8 bytes of a whole string. */
  function Utf8Bytes(s: string): (bs: seq<int>)
    ensures |s| <= |bs| <= 4 * |s|
    ensures forall i :: 0 <= i < |bs| ==> IsByte(bs[i])
  {
    if s == [] then [] else Utf8(s[0]) + Utf8Bytes(s[1..])
  }

  /** `%XX` for each byte. */
  function Percents(bs: seq<int>): (r: string)
    requires forall i :: 0 <= i < |bs| ==> IsByte(bs[i])
    ensures |r| == 3 * |bs|
    ensures forall i :: 0 <= i < |r| ==> r[i] == '%' || IsUpperHex(r[i])
  {
    if bs == [] then []
    else
      assert IsByte(bs[0]);
      ['%', HexDigit(bs[0] / 16), HexDigit(bs[0] % 16)] + Percents(bs[1..])
  }

  function EncodeChar(c: char): (r: string)
    ensures forall i :: 0 <= i < |r| ==> IsEncodedChar(r[i])
    ensures IsUnreserved(c) <==> r == [c]
  {
    if IsUnreserved(c) then [c] else Percents(Utf8(c))
  }

  /** `encodeURIComponent(s)`. */
  function Encode(s: string): (r: string)
    ensures forall i :: 0 <= i < |r| ==> IsEncodedChar(r[i])
    ensures |s| <= |r|
  {
    if s == [] then [] else EncodeChar(s[0]) + Encode(s[1..])
  }

  /** `decodeURIComponent` down to bytes: `%XX` (either case) gives its
      byte, any other character its own code; a `%` not followed by two
      hex digits is malformed. */
  function DecodeBytes(t: string): (r: Option<seq<int>>)
    decreases |t|
  {
    if t == [] then Some([])
    else if t[0] == '%' then
      if |t| >= 3 && IsHex(t[1]) && IsHex(t[2]) then
        match DecodeBytes(t[3..])
        case Some(rest) => Some([16 * HexValue(t[1]) + HexValue(t[2])] + rest)
        case None => None
      else None
    else
      match DecodeBytes(t[1..])
      case Some(rest) => Some([t[0] as int] + rest)
      case None => None
  }

  /** `bs` in front of a decoded result; a failure stays a failure. */
  function Prefixed(bs: seq<int>, o: Option<seq<int>>): (r: Option<seq<int>>)
    ensures r.Some? <==> o.Some?
    ensures o.Some? ==> r.value == bs + o.value
  {
    match o
    case Some(rest) => Some(bs + rest)
    case None => None
  }

  lemma PrefixedTwice(a: seq<int>, b: seq<int>, o: Option<seq<int>>)
    ensures Prefixed(a, Prefixed(b, o)) == Prefixed(a + b, o)
  {
    if o.Some? {
      assert a + (b + o.value) == (a + b) + o.value;
    }
  }

  /** Encoding works character by character. */
  lemma {:induction false} EncodeAppend(a: string, b: string)
    ensures Encode(a + b) == Encode(a) + Encode(b)
    decreases |a|
  {
    if a == [] {
      assert a + b == b;
    } else {
      assert (a + b)[1..] == a[1..] + b;
      EncodeAppend(a[1..], b);
    }
  }

  /** A string of unreserved characters is its own encoding. */
  lemma {:induction false} EncodeUnreserved(s: string)
    requires forall i :: 0 <= i < |s| ==> IsUnreserved(s[i])
    ensures Encode(s) == s
    decreases |s|
  {
    if s != [] {
      EncodeUnreserved(s[1..]);
    }
  }

  /** Any character outside the unreserved set lengthens the encoding by
      at least two, so the string is not its own encoding. */
  lemma {:induction false} EncodeChangesReserved(s: string, k: nat)
    requires k < |s| && !IsUnreserved(s[k])
    ensures |Encode(s)| >= |s| + 2
    ensures Encode(s) != s
    decreases |s|
  {
    if k == 0 {
      assert |EncodeChar(s[0])| >= 3;
    } else {
      EncodeChangesReserved(s[1..], k - 1);
    }
  }

  lemma HexRoundTrip(b: int)
    requires IsByte(b)
    ensures 16 * HexValue(HexDigit(b / 16)) + HexValue(HexDigit(b % 16)) == b
  {
  }

  /** One escape in front of `u`. */
  lemma DecodeEscape(h: char, l: char, u: string)
    requires IsHex(h) && IsHex(l)
    ensures DecodeBytes(['%', h, l] + u)
            == Prefixed([16 * HexValue(h) + HexValue(l)], DecodeBytes(u))
  {
    assert (['%', h, l] + u)[3..] == u;
  }

  /** Decoding `%XX` escapes gives back their bytes. */
  lemma {:induction false} DecodePercents(bs: seq<int>, rest: string)
    requires forall i :: 0 <= i < |bs| ==> IsByte(bs[i])
    ensures DecodeBytes(Percents(bs) + rest)
            == Prefixed(bs, DecodeBytes(rest))
    decreases |bs|
  {
    if bs == [] {
      assert Percents(bs) + rest == rest;
      if DecodeBytes(rest).Some? {
        assert bs + DecodeBytes(rest).value == DecodeBytes(rest).value;
      }
    } else {
      var head := ['%', HexDigit(bs[0] / 16), HexDigit(bs[0] % 16)];
      assert Percents(bs) + rest == head + (Percents(bs[1..]) + rest);
      DecodeEscape(HexDigit(bs[0] / 16), HexDigit(bs[0] % 16), Percents(bs[1..]) + rest);
      HexRoundTrip(bs[0]);
      DecodePercents(bs[1..], rest);
      PrefixedTwice([bs[0]], bs[1..], DecodeBytes(rest));
      assert [bs[0]] + bs[1..] == bs;
    }
  }

  /** Decoding one encoded character gives back its UTF-8 bytes. */
  lemma DecodeEncodedChar(c: char, rest: string)
    ensures DecodeBytes(EncodeChar(c) + rest)
            == Prefixed(Utf8(c), DecodeBytes(rest))
  {
    if IsUnreserved(c) {
      assert ([c] + rest)[1..] == rest;
    } else {
      DecodePercents(Utf8(c), rest);
    }
  }

  /** Round trip: decoding an encoded string yields its UTF-8 bytes, so
      encoding loses nothing. */
  lemma {:induction false} DecodeEncode(s: string)
    ensures DecodeBytes(Encode(s)) == Some(Utf8Bytes(s))
    decreases |s|
  {
    if s != [] {
      DecodeEncode(s[1..]);
      DecodeEncodedChar(s[0], Encode(s[1..]));
    }
  }

  /** Two strings with the same encoding are the same string at the byte
      level. */
  lemma EncodeIsInjective(a: string, b: string)
    requires Encode(a) == Encode(b)
    ensures Utf8Bytes(a) == Utf8Bytes(b)
  {
    DecodeEncode(a);
    DecodeEncode(b);
  }
}
