/**
 * Character-level helpers that the converter relies on: Rust's `char::is_whitespace`
 * and `str::trim`, the UTF-8 byte length `str::len`, counting a character, ASCII
 * hex digits and ASCII case mapping.
 */
module Text {

  /** Rust's `char::is_whitespace`: the Unicode White_Space property. */
  predicate IsWhitespace(c: char) {
    || ('\t' <= c <= '\r')
    || c == ' '
    || c == '\U{85}'
    || c == '\U{A0}'
    || c == '\U{1680}'
    || ('\U{2000}' <= c <= '\U{200A}')
    || c == '\U{2028}'
    || c == '\U{2029}'
    || c == '\U{202F}'
    || c == '\U{205F}'
    || c == '\U{3000}'
  }

  /** `str::trim_start`: drops the leading run of whitespace. */
  function TrimStart(s: string): (r: string)
    ensures |r| <= |s|
    ensures r != [] ==> !IsWhitespace(r[0])
    ensures forall i :: 0 <= i < |s| - |r| ==> IsWhitespace(s[i])
  {
    if s != [] && IsWhitespace(s[0]) then TrimStart(s[1..]) else s
  }

  /** What `str::trim_start` leaves is a suffix of its input. */
  lemma {:induction false} TrimStartSuffix(s: string)
    ensures TrimStart(s) == s[|s| - |TrimStart(s)|..]
  {
    if s != [] && IsWhitespace(s[0]) {
      TrimStartSuffix(s[1..]);
      assert s[1..][|s| - 1 - |TrimStart(s)|..] == s[|s| - |TrimStart(s)|..];
    }
  }

  /** `str::trim_end`: drops the trailing run of whitespace. */
  function TrimEnd(s: string): (r: string)
    ensures |r| <= |s| && r == s[..|r|]
    ensures r != [] ==> !IsWhitespace(r[|r| - 1])
    ensures forall i :: |r| <= i < |s| ==> IsWhitespace(s[i])
  {
    if s != [] && IsWhitespace(s[|s| - 1]) then TrimEnd(s[..|s| - 1]) else s
  }

  /** A string that neither begins nor ends with whitespace. */
  predicate Unpadded(s: string) {
    s == [] || (!IsWhitespace(s[0]) && !IsWhitespace(s[|s| - 1]))
  }

  /** Whitespace only (possibly empty). */
  predicate AllWhitespace(s: string) {
    forall i :: 0 <= i < |s| ==> IsWhitespace(s[i])
  }

  /** `str::trim`: drops leading and trailing whitespace. */
  function Trim(s: string): (r: string)
    ensures |r| <= |s| && Unpadded(r)
  {
    TrimEnd(TrimStart(s))
  }

  /** An unpadded string is its own trim. */
  lemma TrimUnpadded(s: string)
    requires Unpadded(s)
    ensures Trim(s) == s
  {
  }

  /**
   * Trim removes exactly the whitespace padding: whatever whitespace surrounds an
   * unpadded string, trimming gives that string back.
   */
  lemma {:induction false} TrimPadding(lead: string, s: string, trail: string)
    requires AllWhitespace(lead) && AllWhitespace(trail) && Unpadded(s)
    ensures Trim(lead + s + trail) == s
  {
    if s == [] {
      assert lead + s + trail == lead + trail;
      assert AllWhitespace(lead + trail) by {
        forall i | 0 <= i < |lead + trail|
          ensures IsWhitespace((lead + trail)[i])
        {
          if i < |lead| {
            assert (lead + trail)[i] == lead[i];
          } else {
            assert (lead + trail)[i] == trail[i - |lead|];
          }
        }
      }
      TrimStartAll(lead + trail);
      assert TrimStart(lead + s + trail) == [];
    } else {
      assert lead + s + trail == lead + (s + trail);
      assert (s + trail)[0] == s[0];
      TrimStartPrefix(lead, s + trail);
      assert TrimStart(lead + s + trail) == s + trail;
      TrimEndSuffix(s, trail);
    }
  }

  lemma {:induction false} TrimStartAll(w: string)
    requires AllWhitespace(w)
    ensures TrimStart(w) == []
  {
    if w != [] {
      TrimStartAll(w[1..]);
    }
  }

  lemma {:induction false} TrimStartPrefix(w: string, s: string)
    requires AllWhitespace(w) && s != [] && !IsWhitespace(s[0])
    ensures TrimStart(w + s) == s
  {
    if w != [] {
      assert (w + s)[1..] == w[1..] + s;
      TrimStartPrefix(w[1..], s);
    }
  }

  lemma {:induction false} TrimEndSuffix(s: string, w: string)
    requires AllWhitespace(w) && s != [] && !IsWhitespace(s[|s| - 1])
    ensures TrimEnd(s + w) == s
  {
    if w != [] {
      assert (s + w)[..|s + w| - 1] == s + w[..|w| - 1];
      TrimEndSuffix(s, w[..|w| - 1]);
    } else {
      assert s + w == s;
    }
  }

  /** Trimming twice is trimming once (the converter trims a line that is already trimmed). */
  lemma TrimIdempotent(s: string)
    ensures Trim(Trim(s)) == Trim(s)
  {
    TrimUnpadded(Trim(s));
  }

  /** Number of bytes in the UTF-8 encoding of one Unicode scalar value (`char::len_utf8`). */
  function Utf8Width(c: char): (n: nat)
    ensures 1 <= n <= 4
    ensures n == 1 <==> c as int < 0x80
  {
    if c as int < 0x80 then 1
    else if c as int < 0x800 then 2
    else if c as int < 0x1_0000 then 3
    else 4
  }

  predicate IsAscii(s: string) {
    forall i :: 0 <= i < |s| ==> s[i] as int < 0x80
  }

  /** Rust's `str::len`: the length of the UTF-8 encoding in bytes. */
  function Utf8Len(s: string): (n: nat)
    ensures |s| <= n <= 4 * |s|
    ensures n == |s| <==> IsAscii(s)
  {
    if s == [] then 0 else Utf8Width(s[0]) + Utf8Len(s[1..])
  }

  /** Rust's `chars().filter(|&c| c == x).count()`. */
  function Count(s: string, x: char): (n: nat)
    ensures n <= |s|
  {
    if s == [] then 0 else (if s[0] == x then 1 else 0) + Count(s[1..], x)
  }

  /** The count is zero exactly when `x` does not occur. */
  lemma {:induction false} CountZero(s: string, x: char)
    ensures Count(s, x) == 0 <==> forall i :: 0 <= i < |s| ==> s[i] != x
  {
    if s != [] {
      CountZero(s[1..], x);
      assert forall i :: 1 <= i < |s| ==> s[i] == s[1..][i - 1];
    }
  }

  /** `s` holds `-` at exactly the four indices `a < b < c < d`. */
  predicate HyphensExactlyAt(s: string, a: nat, b: nat, c: nat, d: nat) {
    && a < b < c < d < |s|
    && s[a] == '-' && s[b] == '-' && s[c] == '-' && s[d] == '-'
    && forall i :: 0 <= i < |s| && i != a && i != b && i != c && i != d ==> s[i] != '-'
  }

  /** The occurrences of `x` among the indices `lo..hi` of `s`. */
  function CountRange(s: string, lo: nat, hi: nat, x: char): (n: nat)
    requires lo <= hi <= |s|
    ensures n <= hi - lo
    decreases hi - lo
  {
    if lo == hi then 0 else (if s[lo] == x then 1 else 0) + CountRange(s, lo + 1, hi, x)
  }

  /** Counting a suffix is counting its index range. */
  lemma {:induction false} CountAsRange(s: string, lo: nat, x: char)
    requires lo <= |s|
    ensures Count(s[lo..], x) == CountRange(s, lo, |s|, x)
    decreases |s| - lo
  {
    if lo < |s| {
      assert s[lo..][0] == s[lo] && s[lo..][1..] == s[lo + 1..];
      CountAsRange(s, lo + 1, x);
    }
  }

  /** Indices without `x` at the start of a range add nothing. */
  lemma {:induction false} CountRangeSkip(s: string, lo: nat, q: nat, hi: nat, x: char)
    requires lo <= q <= hi <= |s| && forall i :: lo <= i < q ==> s[i] != x
    ensures CountRange(s, lo, hi, x) == CountRange(s, q, hi, x)
    decreases q - lo
  {
    if lo < q {
      CountRangeSkip(s, lo + 1, q, hi, x);
    }
  }

  lemma CountFourHyphens(s: string, a: nat, b: nat, c: nat, d: nat)
    requires HyphensExactlyAt(s, a, b, c, d)
    ensures Count(s, '-') == 4
  {
    var n := |s|;
    assert s[0..] == s;
    CountAsRange(s, 0, '-');
    CountRangeSkip(s, 0, a, n, '-');
    CountRangeSkip(s, a + 1, b, n, '-');
    CountRangeSkip(s, b + 1, c, n, '-');
    CountRangeSkip(s, c + 1, d, n, '-');
    CountRangeSkip(s, d + 1, n, n, '-');
  }

  /** Rust's `char::is_ascii_hexdigit`. */
  predicate IsHexDigit(c: char) {
    ('0' <= c <= '9') || ('a' <= c <= 'f') || ('A' <= c <= 'F')
  }

  predicate AllHex(s: string) {
    forall i :: 0 <= i < |s| ==> IsHexDigit(s[i])
  }

  /** ASCII text has one byte per character. */
  lemma AsciiLen(s: string)
    requires IsAscii(s)
    ensures Utf8Len(s) == |s|
  {
  }

  /** Hex digits are ASCII, one byte each. */
  lemma HexIsAscii(s: string)
    requires AllHex(s)
    ensures IsAscii(s) && Utf8Len(s) == |s|
  {
  }

  /** The upper-case hex alphabet `0-9A-F` that `{:02X}` produces. */
  predicate IsUpperHexDigit(c: char) {
    ('0' <= c <= '9') || ('A' <= c <= 'F')
  }

  /** The lower-case hex alphabet `0-9a-f` that the hyphenated form uses. */
  predicate IsLowerHexDigit(c: char) {
    ('0' <= c <= '9') || ('a' <= c <= 'f')
  }

  /** `char::to_ascii_uppercase`. */
  function AsciiUpper(c: char): (u: char)
    ensures IsHexDigit(c) ==> IsUpperHexDigit(u)
  {
    if 'a' <= c <= 'z' then (c as int - 'a' as int + 'A' as int) as char else c
  }

  /** `char::to_ascii_lowercase`. */
  function AsciiLower(c: char): (l: char)
    ensures IsHexDigit(c) ==> IsLowerHexDigit(l)
  {
    if 'A' <= c <= 'Z' then (c as int - 'A' as int + 'a' as int) as char else c
  }

  function Upper(s: string): (r: string)
    ensures |r| == |s| && forall i :: 0 <= i < |s| ==> r[i] == AsciiUpper(s[i])
  {
    seq(|s|, i requires 0 <= i < |s| => AsciiUpper(s[i]))
  }

  function Lower(s: string): (r: string)
    ensures |r| == |s| && forall i :: 0 <= i < |s| ==> r[i] == AsciiLower(s[i])
  {
    seq(|s|, i requires 0 <= i < |s| => AsciiLower(s[i]))
  }
}
