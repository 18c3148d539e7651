/**
 * The conversion between an identifier and its raw hex form. Raw hex is the 16 bytes
 * of the Windows `GUID` struct as it lies in memory: `Data1` (u32), `Data2` (u16) and
 * `Data3` (u16) little-endian, `Data4` (8 bytes) as is, written as 32 upper-case hex
 * digits. Going either way applies the same 4-2-2-8 byte reorder.
 */
module Conversion {
  import opened Wrappers
  import opened Text
  import opened Hex
  import opened Uuids

  /** A sequence back to front. */
  function Reversed<T>(s: seq<T>): (r: seq<T>)
    ensures |r| == |s|
    ensures forall i :: 0 <= i < |s| ==> r[i] == s[|s| - 1 - i]
  {
    if s == [] then [] else [s[|s| - 1]] + Reversed(s[..|s| - 1])
  }

  /** Which input byte the reorder puts at position `i`. */
  function SwapIndex(i: nat): (j: nat)
    requires i < 16
    ensures j < 16
  {
    if i < 4 then 3 - i else if i < 6 then 9 - i else if i < 8 then 13 - i else i
  }

  /**
   * The 4-2-2-8 reorder: bytes 0..4, 4..6 and 6..8 each reversed, bytes 8..16 copied.
   * Position `i` of the result is input byte `SwapIndex(i)`.
   */
  function Reorder(b: Bytes16): (r: Bytes16)
    ensures forall i :: 0 <= i < 16 ==> r[i] == b[SwapIndex(i)]
  {
    Reversed(b[0..4]) + Reversed(b[4..6]) + Reversed(b[6..8]) + b[8..16]
  }

  /** The position map is its own inverse. */
  lemma SwapIndexInvolution(i: nat)
    requires i < 16
    ensures SwapIndex(SwapIndex(i)) == i
  {
  }

  /** Reordering twice gives back the original 16 bytes. */
  lemma ReorderInvolution(b: Bytes16)
    ensures Reorder(Reorder(b)) == b
  {
    var r := Reorder(Reorder(b));
    forall i | 0 <= i < 16
      ensures r[i] == b[i]
    {
      SwapIndexInvolution(i);
    }
  }

  // An independent description of the raw layout: the fields of the Windows GUID struct.

  /** The unsigned value of bytes read most significant first. */
  function BigEndian(bs: seq<uint8>): nat
  {
    if bs == [] then 0 else BigEndian(bs[..|bs| - 1]) * 256 + bs[|bs| - 1] as int
  }

  /** The `n` bytes of `v` stored least significant first (wrapping above `256^n`). */
  function LittleEndian(v: nat, n: nat): (r: seq<uint8>)
    ensures |r| == n
  {
    if n == 0 then [] else [(v % 256) as uint8] + LittleEndian(v / 256, n - 1)
  }

  /** The memory image of the GUID struct for an identifier: `Data1`, `Data2`, `Data3`, `Data4`. */
  function GuidStructBytes(u: Uuid): Bytes16
  {
    var data1 := BigEndian(u.bytes[0..4]);
    var data2 := BigEndian(u.bytes[4..6]);
    var data3 := BigEndian(u.bytes[6..8]);
    LittleEndian(data1, 4) + LittleEndian(data2, 2) + LittleEndian(data3, 2) + u.bytes[8..16]
  }

  /** Storing a big-endian field little-endian reverses its bytes. */
  lemma {:induction false} LittleEndianOfBigEndian(bs: seq<uint8>)
    ensures LittleEndian(BigEndian(bs), |bs|) == Reversed(bs)
  {
    if bs != [] {
      var init, last := bs[..|bs| - 1], bs[|bs| - 1];
      var v := BigEndian(bs);
      assert v == BigEndian(init) * 256 + last as int;
      assert v % 256 == last as int;
      assert v / 256 == BigEndian(init);
      LittleEndianOfBigEndian(init);
    }
  }

  /** The reorder is exactly the GUID struct layout. */
  lemma ReorderIsGuidStruct(u: Uuid)
    ensures Reorder(u.bytes) == GuidStructBytes(u)
  {
    LittleEndianOfBigEndian(u.bytes[0..4]);
    LittleEndianOfBigEndian(u.bytes[4..6]);
    LittleEndianOfBigEndian(u.bytes[6..8]);
  }

  // The array steps of the Rust code.

  /** `dst[at..at+|src|].copy_from_slice(src)`. */
  method CopyFromSlice(dst: array<uint8>, at: nat, src: seq<uint8>)
    requires at + |src| <= dst.Length
    modifies dst
    ensures forall k :: 0 <= k < |src| ==> dst[at + k] == src[k]
    ensures forall k :: 0 <= k < dst.Length && !(at <= k < at + |src|) ==> dst[k] == old(dst[k])
  {
    var k := 0;
    while k < |src|
      invariant 0 <= k <= |src|
      invariant forall j :: 0 <= j < k ==> dst[at + j] == src[j]
      invariant forall j :: 0 <= j < dst.Length && !(at <= j < at + k) ==> dst[j] == old(dst[j])
    {
      dst[at + k] := src[k];
      k := k + 1;
    }
  }

  /** `a[lo..hi].reverse()`. */
  method ReverseRange(a: array<uint8>, lo: nat, hi: nat)
    requires lo <= hi <= a.Length
    modifies a
    ensures forall k :: lo <= k < hi ==> a[k] == old(a[lo + hi - 1 - k])
    ensures forall k :: 0 <= k < a.Length && !(lo <= k < hi) ==> a[k] == old(a[k])
  {
    var i, j := lo, hi;
    while i + 1 < j
      invariant lo <= i && j <= hi && i <= j && i - lo == hi - j
      invariant forall k :: lo <= k < i ==> a[k] == old(a[lo + hi - 1 - k])
      invariant forall k :: j <= k < hi ==> a[k] == old(a[lo + hi - 1 - k])
      invariant forall k :: 0 <= k < a.Length && !(lo <= k < i) && !(j <= k < hi) ==> a[k] == old(a[k])
    {
      a[i], a[j - 1] := a[j - 1], a[i];
      i, j := i + 1, j - 1;
    }
  }

  /** `dst[at..at+|src|].copy_from_slice(src)` followed by `.reverse()` on the same range. */
  method CopyReversed(dst: array<uint8>, at: nat, src: seq<uint8>)
    requires at + |src| <= dst.Length
    modifies dst
    ensures forall k :: at <= k < at + |src| ==> dst[k] == src[at + |src| - 1 - k]
    ensures forall k :: 0 <= k < dst.Length && !(at <= k < at + |src|) ==> dst[k] == old(dst[k])
  {
    CopyFromSlice(dst, at, src);
    ReverseRange(dst, at, at + |src|);
  }

  /** The reorder as the Rust code performs it, on a fresh 16-byte array. */
  method ReorderBytes(bytes: array<uint8>) returns (reordered: array<uint8>)
    requires bytes.Length == 16
    ensures fresh(reordered) && reordered.Length == 16
    ensures reordered[..] == Reorder(bytes[..])
  {
    var b := bytes[..];
    reordered := new uint8[16];
    CopyReversed(reordered, 0, b[0..4]);
    CopyReversed(reordered, 4, b[4..6]);
    CopyReversed(reordered, 6, b[6..8]);
    CopyFromSlice(reordered, 8, b[8..16]);
    assert forall i :: 0 <= i < 16 ==> reordered[i] == b[SwapIndex(i)];
  }

  // The two conversions.

  /**
   * The inputs on which `raw_hex_to_guid` does not panic: it slices `hex` at byte
   * offsets 0, 2, ..., 32 once the byte length is 32, which is safe on ASCII text.
   */
  predicate RawHexArgument(hex: string) {
    Utf8Len(hex) == 32 ==> IsAscii(hex)
  }

  /** `raw_hex_to_guid`: `None` unless the byte length is 32 and all 16 pairs parse; then the reordered bytes. */
  function DecodeRawHex(hex: string): (r: Option<Uuid>)
    requires RawHexArgument(hex)
    ensures Utf8Len(hex) != 32 ==> r == None
    ensures r.Some? <==> Utf8Len(hex) == 32 && forall i :: 0 <= i < 16 ==> FromStrRadix16(PairAt(hex, i)).Some?
    ensures r.Some? ==> forall i :: 0 <= i < 16 ==> Some(r.value.bytes[SwapIndex(i)]) == FromStrRadix16(PairAt(hex, i))
  {
    if Utf8Len(hex) != 32 then None
    else
      match ParsePairs(hex)
      case None => None
      case Some(raw) =>
        ReorderInvolution(raw);
        Some(Uuid(Reorder(raw)))
  }

  /** `guid_to_raw_hex`: 32 upper-case hex digits, pair `i` the `{:02X}` form of reordered byte `i`. */
  function EncodeRawHex(u: Uuid): (s: string)
    ensures |s| == 32 && forall i :: 0 <= i < 32 ==> IsUpperHexDigit(s[i])
    ensures forall i :: 0 <= i < 16 ==> PairAt(s, i) == HexByte(u.bytes[SwapIndex(i)], true)
  {
    HexEncodePairs(Reorder(u.bytes), true);
    HexEncode(Reorder(u.bytes), true)
  }

  /** The Rust `raw_hex_to_guid`, with its fixed-size arrays. */
  method RawHexToGuid(hex: string) returns (r: Option<Uuid>)
    requires RawHexArgument(hex)
    ensures r == DecodeRawHex(hex)
  {
    if Utf8Len(hex) != 32 {
      return None;
    }
    var rawBytes := ParsePairs(hex);
    if rawBytes.None? {
      return None;
    }
    var bytes := new uint8[16];
    CopyFromSlice(bytes, 0, rawBytes.value);
    assert bytes[..] == rawBytes.value;
    var reordered := ReorderBytes(bytes);
    r := Some(Uuid(reordered[..]));
  }

  /** The Rust `guid_to_raw_hex`, with its fixed-size arrays. */
  method GuidToRawHex(u: Uuid) returns (s: string)
    ensures s == EncodeRawHex(u)
  {
    var bytes := new uint8[16];
    CopyFromSlice(bytes, 0, u.bytes);
    assert bytes[..] == u.bytes;
    var reordered := ReorderBytes(bytes);
    s := HexEncode(reordered[..], true);
  }

  /** Raw hex round trip: any 32 hex digits decode, and encode back to the same digits upper-cased. */
  lemma RawHexRoundTrip(s: string)
    requires |s| == 32 && AllHex(s)
    ensures RawHexArgument(s)
    ensures DecodeRawHex(s).Some?
    ensures EncodeRawHex(DecodeRawHex(s).value) == Upper(s)
  {
    var raw := HexDecode(s);
    DecodeRawHexOfHex(s);
    ReorderInvolution(raw);
    HexEncodeDecode(s, true);
    assert EncodeRawHex(Uuid(Reorder(raw))) == HexEncode(raw, true);
  }

  /** Identifier round trip: encoding to raw hex and decoding gives the identifier back. */
  lemma IdentifierRoundTrip(u: Uuid)
    ensures RawHexArgument(EncodeRawHex(u))
    ensures DecodeRawHex(EncodeRawHex(u)) == Some(u)
  {
    var raw := Reorder(u.bytes);
    var h := HexEncode(raw, true);
    assert EncodeRawHex(u) == h;
    DecodeRawHexOfHex(h);
    HexDecodeEncode(raw, true);
    ReorderInvolution(u.bytes);
  }

  /** On 32 hex digits `raw_hex_to_guid` is strict decoding followed by the reorder. */
  lemma DecodeRawHexOfHex(s: string)
    requires |s| == 32 && AllHex(s)
    ensures RawHexArgument(s)
    ensures DecodeRawHex(s) == Some(Uuid(Reorder(HexDecode(s))))
  {
    HexIsAscii(s);
    ParsePairsOfHex(s);
  }

  /** Raw hex `h` denotes identifier `u` exactly when `h`, upper-cased, is the raw hex encoding of `u`. */
  lemma RawHexDenotes(h: string, u: Uuid)
    requires |h| == 32 && AllHex(h)
    ensures RawHexArgument(h)
    ensures DecodeRawHex(h) == Some(u) <==> Upper(h) == EncodeRawHex(u)
  {
    RawHexRoundTrip(h);
    IdentifierRoundTrip(u);
    IdentifierRoundTrip(DecodeRawHex(h).value);
  }
}
