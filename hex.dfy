/**
 * Bytes and their two-digit hexadecimal forms: the `{:02X}` formatting used for raw
 * hex, the lower-case digits of the hyphenated form, strict pair decoding, and Rust's
 * `u8::from_str_radix(pair, 16)` which the raw-hex parser applies to each pair.
 */
module Hex {
  import opened Wrappers
  import opened Text

  newtype uint8 = x: int | 0 <= x < 256

  /** The value of one ASCII hex digit (either case); Rust's `char::to_digit(16)`. */
  function HexValue(c: char): (v: nat)
    requires IsHexDigit(c)
    ensures v < 16
  {
    if '0' <= c <= '9' then c as int - '0' as int
    else if 'a' <= c <= 'f' then c as int - 'a' as int + 10
    else c as int - 'A' as int + 10
  }

  /** The digit that denotes `v`, upper or lower case. */
  function HexDigit(v: nat, upper: bool): (c: char)
    requires v < 16
    ensures IsHexDigit(c) && HexValue(c) == v
    ensures upper ==> IsUpperHexDigit(c)
    ensures !upper ==> IsLowerHexDigit(c)
  {
    if v < 10 then ('0' as int + v) as char
    else if upper then ('A' as int + v - 10) as char
    else ('a' as int + v - 10) as char
  }

  /** Re-spelling a digit through its value only normalises its case. */
  lemma HexDigitOfValue(c: char, upper: bool)
    requires IsHexDigit(c)
    ensures HexDigit(HexValue(c), upper) == if upper then AsciiUpper(c) else AsciiLower(c)
  {
  }

  /** One byte as exactly two digits, high nibble first (`{:02X}` or `{:02x}`). */
  function HexByte(b: uint8, upper: bool): (r: string)
    ensures |r| == 2
  {
    [HexDigit(b as int / 16, upper), HexDigit(b as int % 16, upper)]
  }

  /** A byte string in hex, two digits per byte, no separators. */
  function HexEncode(bs: seq<uint8>, upper: bool): (r: string)
    ensures |r| == 2 * |bs|
    ensures forall i :: 0 <= i < |r| ==> IsHexDigit(r[i])
    ensures upper ==> forall i :: 0 <= i < |r| ==> IsUpperHexDigit(r[i])
    ensures !upper ==> forall i :: 0 <= i < |r| ==> IsLowerHexDigit(r[i])
    ensures forall i :: 0 <= i < |bs| ==> r[2 * i] == HexDigit(bs[i] as int / 16, upper)
    ensures forall i :: 0 <= i < |bs| ==> r[2 * i + 1] == HexDigit(bs[i] as int % 16, upper)
  {
    if bs == [] then [] else HexByte(bs[0], upper) + HexEncode(bs[1..], upper)
  }

  /** Characters `2i..2i+2` of the encoding are the two-digit form of byte `i`. */
  lemma HexEncodePairs(bs: seq<uint8>, upper: bool)
    ensures forall i :: 0 <= i < |bs| ==> PairAt(HexEncode(bs, upper), i) == HexByte(bs[i], upper)
  {
  }

  /** The byte denoted by two hex digits. */
  function PairValue(hi: char, lo: char): (b: uint8)
    requires IsHexDigit(hi) && IsHexDigit(lo)
    ensures b as int / 16 == HexValue(hi) && b as int % 16 == HexValue(lo)
  {
    (16 * HexValue(hi) + HexValue(lo)) as uint8
  }

  /** Strict decoding of an all-hex string of even length, two digits per byte. */
  function HexDecode(s: string): (bs: seq<uint8>)
    requires |s| % 2 == 0 && AllHex(s)
    ensures |bs| == |s| / 2
  {
    seq(|s| / 2, i requires 0 <= i < |s| / 2 => PairValue(s[2 * i], s[2 * i + 1]))
  }

  /** Decoding undoes encoding, in either case. */
  lemma HexDecodeEncode(bs: seq<uint8>, upper: bool)
    ensures HexDecode(HexEncode(bs, upper)) == bs
  {
    var s := HexEncode(bs, upper);
    var d := HexDecode(s);
    forall i | 0 <= i < |bs|
      ensures d[i] == bs[i]
    {
      assert d[i] == PairValue(s[2 * i], s[2 * i + 1]);
    }
  }

  /** Encoding undoes decoding up to case: the digits come back upper- or lower-cased. */
  lemma HexEncodeDecode(s: string, upper: bool)
    requires |s| % 2 == 0 && AllHex(s)
    ensures HexEncode(HexDecode(s), upper) == if upper then Upper(s) else Lower(s)
  {
    var r := HexEncode(HexDecode(s), upper);
    var want := if upper then Upper(s) else Lower(s);
    forall k | 0 <= k < |s|
      ensures r[k] == want[k]
    {
      HexEncodeDecodeAt(s, upper, k);
    }
  }

  lemma HexEncodeDecodeAt(s: string, upper: bool, k: nat)
    requires |s| % 2 == 0 && AllHex(s) && k < |s|
    ensures HexEncode(HexDecode(s), upper)[k] == (if upper then Upper(s) else Lower(s))[k]
  {
    var d := HexDecode(s);
    var i := k / 2;
    assert d[i] == PairValue(s[2 * i], s[2 * i + 1]);
    HexDigitOfValue(s[k], upper);
    if k % 2 == 0 {
      assert k == 2 * i;
    } else {
      assert k == 2 * i + 1;
    }
  }

  /**
   * Rust's `u8::from_str_radix(pair, 16)` on a two-character string: a leading `+`
   * is accepted before a single digit, a leading `-` is an invalid digit for an
   * unsigned type, and otherwise both characters must be hex digits of either case.
   */
  function FromStrRadix16(p: string): (r: Option<uint8>)
    requires |p| == 2
    ensures r.Some? <==> (IsHexDigit(p[0]) || p[0] == '+') && IsHexDigit(p[1])
    ensures r.Some? && IsHexDigit(p[0]) ==> r.value == PairValue(p[0], p[1])
    ensures r.Some? && p[0] == '+' ==> r.value as int == HexValue(p[1])
  {
    if p[0] == '+' then
      if IsHexDigit(p[1]) then Some(HexValue(p[1]) as uint8) else None
    else if IsHexDigit(p[0]) && IsHexDigit(p[1]) then Some(PairValue(p[0], p[1]))
    else None
  }

  /** The `+` quirk: `"+f"` is accepted as the byte 15 although it is not two hex digits. */
  lemma PlusSignAccepted()
    ensures FromStrRadix16("+f") == Some(15)
  {
  }

  /** The `i`-th adjacent pair of characters, `&s[2i..2i+2]`. */
  function PairAt(s: string, i: nat): (p: string)
    requires 2 * i + 2 <= |s|
    ensures |p| == 2 && p[0] == s[2 * i] && p[1] == s[2 * i + 1]
  {
    s[2 * i..2 * i + 2]
  }

  /** Dropping the first pair shifts the pair numbering by one. */
  lemma PairsOfTail(s: string)
    requires |s| % 2 == 0 && |s| >= 2
    ensures PairAt(s, 0) == s[..2]
    ensures forall i :: 1 <= i < |s| / 2 ==> PairAt(s, i) == PairAt(s[2..], i - 1)
  {
  }

  /**
   * `(0..n).map(|i| u8::from_str_radix(&s[2i..2i+2], 16).ok()).collect::<Option<Vec<u8>>>()`:
   * every adjacent pair is parsed, and any pair that fails makes the whole result `None`.
   */
  function ParsePairs(s: string): (r: Option<seq<uint8>>)
    requires |s| % 2 == 0
    ensures r.Some? <==> forall i :: 0 <= i < |s| / 2 ==> FromStrRadix16(PairAt(s, i)).Some?
    ensures r.Some? ==> |r.value| == |s| / 2
    ensures r.Some? ==> forall i :: 0 <= i < |s| / 2 ==> Some(r.value[i]) == FromStrRadix16(PairAt(s, i))
    decreases |s|
  {
    if s == [] then Some([])
    else
      PairsOfTail(s);
      match FromStrRadix16(s[..2])
      case None => None
      case Some(b) =>
        match ParsePairs(s[2..])
        case None =>
          var j :| 0 <= j < |s| / 2 - 1 && FromStrRadix16(PairAt(s[2..], j)).None?;
          assert FromStrRadix16(PairAt(s, j + 1)).None?;
          None
        case Some(rest) =>
          Some([b] + rest)
  }

  /** On all-hex input the pair parser is exactly strict decoding. */
  lemma ParsePairsOfHex(s: string)
    requires |s| % 2 == 0 && AllHex(s)
    ensures ParsePairs(s) == Some(HexDecode(s))
  {
    var d := HexDecode(s);
    forall i | 0 <= i < |s| / 2
      ensures FromStrRadix16(PairAt(s, i)) == Some(d[i])
    {
      var p := PairAt(s, i);
      assert IsHexDigit(p[0]) && IsHexDigit(p[1]);
      assert d[i] == PairValue(p[0], p[1]);
    }
    var r := ParsePairs(s).value;
    assert |r| == |d|;
    forall i | 0 <= i < |s| / 2
      ensures r[i] == d[i]
    {
      assert Some(r[i]) == FromStrRadix16(PairAt(s, i));
    }
    assert r == d;
  }
}
