/**
 * The 128-bit identifier and its hyphenated text form, as RFC 9562 section 4 gives it:
 * 32 hex digits in groups of 8-4-4-4-12 separated by hyphens at character indices
 * 8, 13, 18 and 23, accepted in either case and written in lower case. This is the
 * form `Uuid::parse_str` accepts at length 36 and the form `Uuid`'s `Display` writes.
 */
module Uuids {
  import opened Wrappers
  import opened Text
  import opened Hex

  type Bytes16 = b: seq<uint8> | |b| == 16 witness [0, 0, 0, 0, 0, 0, 0, 0, 0, 0, 0, 0, 0, 0, 0, 0]

  /** An identifier is its 16 bytes in natural (network) order: `Uuid::from_bytes`, `as_bytes`. */
  datatype Uuid = Uuid(bytes: Bytes16)

  /** The character indices that hold a hyphen in the hyphenated form. */
  predicate IsHyphenPos(i: int) {
    i == 8 || i == 13 || i == 18 || i == 23
  }

  /** The number of the digit at a non-hyphen index `i` of the hyphenated form. */
  function DigitIndex(i: nat): (k: nat)
    requires i < 36 && !IsHyphenPos(i)
    ensures k < 32
  {
    if i < 8 then i else if i < 13 then i - 1 else if i < 18 then i - 2 else if i < 23 then i - 3 else i - 4
  }

  /** Where digit `k` sits in the hyphenated form; the inverse of DigitIndex. */
  function DigitPos(k: nat): (i: nat)
    requires k < 32
    ensures i < 36 && !IsHyphenPos(i) && DigitIndex(i) == k
  {
    if k < 8 then k else if k < 12 then k + 1 else if k < 16 then k + 2 else if k < 20 then k + 3 else k + 4
  }

  /** The hyphenated grammar: 36 characters, hyphens exactly at 8, 13, 18, 23, hex digits elsewhere. */
  predicate IsHyphenated(s: string) {
    && |s| == 36
    && forall i :: 0 <= i < 36 ==> if IsHyphenPos(i) then s[i] == '-' else IsHexDigit(s[i])
  }

  /** The hyphenated form is ASCII, one byte per character. */
  lemma HyphenatedIsAscii(s: string)
    requires IsHyphenated(s)
    ensures IsAscii(s) && Utf8Len(s) == 36
  {
    assert forall i :: 0 <= i < 36 ==> s[i] == '-' || IsHexDigit(s[i]);
  }

  /** The 32 digits of a 36-character string, hyphen positions left out. */
  function Digits(s: string): (t: string)
    requires |s| == 36
    ensures |t| == 32
    ensures forall k :: 0 <= k < 32 ==> t[k] == s[DigitPos(k)]
  {
    s[..8] + s[9..13] + s[14..18] + s[19..23] + s[24..]
  }

  /** 32 digits split into groups of 8-4-4-4-12 joined by hyphens. */
  function Grouped(t: string): (s: string)
    requires |t| == 32
    ensures |s| == 36
    ensures forall i :: 0 <= i < 36 && IsHyphenPos(i) ==> s[i] == '-'
    ensures forall i :: 0 <= i < 36 && !IsHyphenPos(i) ==> s[i] == t[DigitIndex(i)]
  {
    t[..8] + "-" + t[8..12] + "-" + t[12..16] + "-" + t[16..20] + "-" + t[20..]
  }

  lemma DigitsOfGrouped(t: string)
    requires |t| == 32
    ensures Digits(Grouped(t)) == t
  {
  }

  lemma GroupedOfDigits(s: string)
    requires IsHyphenated(s)
    ensures Grouped(Digits(s)) == s
  {
    var g := Grouped(Digits(s));
    forall i | 0 <= i < 36
      ensures g[i] == s[i]
    {
      if !IsHyphenPos(i) {
        assert DigitPos(DigitIndex(i)) == i;
      }
    }
  }

  /** `Uuid::parse_str` on a 36-character input: the hyphenated grammar, or an error. */
  function ParseHyphenated(s: string): (r: Option<Uuid>)
    ensures r.Some? <==> IsHyphenated(s)
    ensures r.Some? ==> HexEncode(r.value.bytes, false) == Lower(Digits(s))
  {
    if IsHyphenated(s) then
      var t := Digits(s);
      assert AllHex(t);
      HexEncodeDecode(t, false);
      Some(Uuid(HexDecode(t)))
    else None
  }

  /** `Uuid`'s `Display`: the lower-case hyphenated form. */
  function Hyphenated(u: Uuid): (s: string)
    ensures IsHyphenated(s)
    ensures forall i :: 0 <= i < |s| ==> s[i] == '-' || IsLowerHexDigit(s[i])
  {
    Grouped(HexEncode(u.bytes, false))
  }

  /** Formatting then parsing gives the identifier back. */
  lemma ParseOfHyphenated(u: Uuid)
    ensures ParseHyphenated(Hyphenated(u)) == Some(u)
  {
    var t := HexEncode(u.bytes, false);
    DigitsOfGrouped(t);
    HexDecodeEncode(u.bytes, false);
  }

  lemma LowerOfGrouped(t: string)
    requires |t| == 32
    ensures Lower(Grouped(t)) == Grouped(Lower(t))
  {
  }

  /** Parsing then formatting gives the input back, lower-cased. */
  lemma HyphenatedOfParse(s: string)
    requires IsHyphenated(s)
    ensures Hyphenated(ParseHyphenated(s).value) == Lower(s)
  {
    LowerOfGrouped(Digits(s));
    GroupedOfDigits(s);
  }
}
