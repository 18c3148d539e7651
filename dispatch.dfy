/**
 * What happens to one submitted line: it is trimmed, sorted into one of three shapes
 * by length and character set alone, converted if it has a recognised shape, and
 * turned into exactly one fixed status message.
 */
module Dispatch {
  import opened Wrappers
  import opened Text
  import opened Hex
  import opened Uuids
  import opened Conversion

  /** The three tags `"Guid"`, `"RawHex"` and `"None"` of the Rust code. */
  datatype InputType = Guid | RawHex | Unrecognized

  /**
   * `input_type_validation`: byte length 36 with exactly four hyphens anywhere is `Guid`;
   * otherwise byte length 32 with only ASCII hex digits is `RawHex`; anything else is
   * unrecognised. Only the shape is looked at.
   */
  function InputTypeValidation(input: string): (r: InputType)
    ensures r == Guid <==> Utf8Len(Trim(input)) == 36 && Count(Trim(input), '-') == 4
    ensures r == RawHex <==> r != Guid && Utf8Len(Trim(input)) == 32 && AllHex(Trim(input))
    ensures r == RawHex ==> |Trim(input)| == 32
  {
    var trimmed := Trim(input);
    if Utf8Len(trimmed) == 36 && Count(trimmed, '-') == 4 then Guid
    else if Utf8Len(trimmed) == 32 && AllHex(trimmed) then RawHex
    else Unrecognized
  }

  const RawHexPrefix: string := "\U{2705} Raw Hex: "
  const GuidPrefix: string := "\U{2705} GUID: "
  const InvalidGuidMessage: string := "\U{274C} Invalid GUID"
  const InvalidRawHexMessage: string := "\U{274C} Invalid Raw Hex."
  const NeitherMessage: string := "\U{274C} Invalid input. It's neither raw hex nor guid."

  /** A trimmed line sorted as `RawHex` is safe to hand to `raw_hex_to_guid`. */
  lemma TaggedRawHexArgument(trimmed: string)
    requires Unpadded(trimmed) && InputTypeValidation(trimmed) == RawHex
    ensures RawHexArgument(trimmed)
  {
    TrimUnpadded(trimmed);
    HexIsAscii(trimmed);
  }

  /** The message for a `Guid`-shaped line: its raw hex form, or the invalid-GUID error. */
  function GuidResponse(trimmed: string): string
  {
    match ParseHyphenated(trimmed)
    case Some(u) => RawHexPrefix + EncodeRawHex(u)
    case None => InvalidGuidMessage
  }

  /** The message for a `RawHex`-shaped line: its hyphenated form, or the invalid-raw-hex error. */
  function RawHexResponse(trimmed: string): string
    requires RawHexArgument(trimmed)
  {
    match DecodeRawHex(trimmed)
    case Some(u) => GuidPrefix + Hyphenated(u)
    case None => InvalidRawHexMessage
  }

  /** The message `submit_message` records, from the trimmed line. */
  function Respond(trimmed: string): string
    requires Unpadded(trimmed)
  {
    match InputTypeValidation(trimmed)
    case Guid => GuidResponse(trimmed)
    case RawHex => TaggedRawHexArgument(trimmed); RawHexResponse(trimmed)
    case Unrecognized => NeitherMessage
  }

  /**
   * The branch of `submit_message` that computes the message for the trimmed line,
   * through the array-based conversions.
   */
  method Convert(trimmed: string) returns (result: string)
    requires Unpadded(trimmed)
    ensures result == Respond(trimmed)
  {
    var inputType := InputTypeValidation(trimmed);
    if inputType == Guid {
      result := ConvertGuid(trimmed);
    } else if inputType == RawHex {
      TaggedRawHexArgument(trimmed);
      result := ConvertRawHex(trimmed);
    } else {
      result := NeitherMessage;
    }
  }

  /** The `"Guid"` arm of `submit_message`: parse, then `guid_to_raw_hex`. */
  method ConvertGuid(trimmed: string) returns (result: string)
    ensures result == GuidResponse(trimmed)
  {
    var parsed := ParseHyphenated(trimmed);
    if parsed.Some? {
      var rawHex := GuidToRawHex(parsed.value);
      result := RawHexPrefix + rawHex;
    } else {
      result := InvalidGuidMessage;
    }
  }

  /** The `"RawHex"` arm of `submit_message`: `raw_hex_to_guid`, then the hyphenated form. */
  method ConvertRawHex(trimmed: string) returns (result: string)
    requires RawHexArgument(trimmed)
    ensures result == RawHexResponse(trimmed)
  {
    var guid := RawHexToGuid(trimmed);
    if guid.Some? {
      result := GuidPrefix + Hyphenated(guid.value);
    } else {
      result := InvalidRawHexMessage;
    }
  }

  /** The message `submit_message` records for a line. */
  function Response(line: string): string
  {
    Respond(Trim(line))
  }

  /**
   * Every message is one of the three fixed errors, the raw-hex success (prefix and 32
   * digits) or the GUID success (prefix and the 36-character hyphenated form).
   */
  lemma ResponseShape(line: string)
    ensures var msg := Response(line);
            || msg == InvalidGuidMessage || msg == InvalidRawHexMessage || msg == NeitherMessage
            || (RawHexPrefix <= msg && |msg| == |RawHexPrefix| + 32)
            || (GuidPrefix <= msg && |msg| == |GuidPrefix| + 36)
  {
    var t := Trim(line);
    var tag := InputTypeValidation(t);
    if tag == Guid && ParseHyphenated(t).Some? {
      PrefixOfAppend(RawHexPrefix, EncodeRawHex(ParseHyphenated(t).value));
    } else if tag == RawHex {
      TrimIdempotent(line);
      HexIsAscii(t);
      if DecodeRawHex(t).Some? {
        PrefixOfAppend(GuidPrefix, Hyphenated(DecodeRawHex(t).value));
      }
    }
  }

  lemma PrefixOfAppend(p: string, x: string)
    ensures p <= p + x && |p + x| == |p| + |x|
  {
    assert (p + x)[..|p|] == p;
  }

  /** A hyphenated string holds exactly four hyphens. */
  lemma HyphenCount(s: string)
    requires IsHyphenated(s)
    ensures Count(s, '-') == 4
  {
    assert HyphensExactlyAt(s, 8, 13, 18, 23);
    CountFourHyphens(s, 8, 13, 18, 23);
  }

  /** Every well-formed hyphenated string is sorted as `Guid`. */
  lemma HyphenatedIsGuidShaped(s: string)
    requires IsHyphenated(s)
    ensures Trim(s) == s
    ensures InputTypeValidation(s) == Guid
  {
    TrimUnpadded(s);
    HyphenatedIsAscii(s);
    HyphenCount(s);
  }

  /** Every string of 32 hex digits is sorted as `RawHex`. */
  lemma HexIsRawHexShaped(s: string)
    requires |s| == 32 && AllHex(s)
    ensures Trim(s) == s
    ensures InputTypeValidation(s) == RawHex
  {
    TrimUnpadded(s);
    HexIsAscii(s);
  }

  /** A line whose trimmed text is hyphenated is answered with its raw hex form. */
  lemma ResponseOfHyphenated(line: string)
    requires IsHyphenated(Trim(line))
    ensures Response(line) == RawHexPrefix + EncodeRawHex(ParseHyphenated(Trim(line)).value)
  {
    HyphenatedIsGuidShaped(Trim(line));
  }

  /** A line whose trimmed text is 32 hex digits is answered with its hyphenated form. */
  lemma ResponseOfRawHex(line: string)
    requires |Trim(line)| == 32 && AllHex(Trim(line))
    ensures RawHexArgument(Trim(line)) && DecodeRawHex(Trim(line)).Some?
    ensures Response(line) == GuidPrefix + Hyphenated(DecodeRawHex(Trim(line)).value)
  {
    HexIsRawHexShaped(Trim(line));
    RawHexRoundTrip(Trim(line));
  }

  lemma MessagesDistinct(x: string)
    ensures !(RawHexPrefix <= InvalidGuidMessage) && !(RawHexPrefix <= InvalidRawHexMessage)
    ensures !(RawHexPrefix <= NeitherMessage) && !(RawHexPrefix <= GuidPrefix + x)
    ensures !(GuidPrefix <= InvalidGuidMessage) && !(GuidPrefix <= InvalidRawHexMessage)
    ensures !(GuidPrefix <= NeitherMessage) && !(GuidPrefix <= RawHexPrefix + x)
    ensures NeitherMessage != InvalidGuidMessage
  {
    assert RawHexPrefix[2] != (GuidPrefix + x)[2];
    assert GuidPrefix[2] != (RawHexPrefix + x)[2];
    assert NeitherMessage[10] != InvalidGuidMessage[10];
  }

  /**
   * The message tells the outcome apart: success towards raw hex exactly for hyphenated
   * input, success towards the hyphenated form exactly for 32 hex digits, the invalid-GUID
   * error exactly for `Guid`-shaped input that is not hyphenated, and the "neither" error
   * exactly for unrecognised input, where nothing is parsed.
   */
  lemma ResponseOutcome(line: string)
    ensures RawHexPrefix <= Response(line) <==> IsHyphenated(Trim(line))
    ensures GuidPrefix <= Response(line) <==> |Trim(line)| == 32 && AllHex(Trim(line))
    ensures Response(line) == InvalidGuidMessage <==>
              InputTypeValidation(Trim(line)) == Guid && !IsHyphenated(Trim(line))
    ensures Response(line) == NeitherMessage <==> InputTypeValidation(Trim(line)) == Unrecognized
  {
    var t := Trim(line);
    TrimIdempotent(line);
    if IsHyphenated(t) {
      HyphenatedIsGuidShaped(t);
      MessagesDistinct(EncodeRawHex(ParseHyphenated(t).value));
    } else if |t| == 32 && AllHex(t) {
      ResponseOfRawHex(line);
      MessagesDistinct(Hyphenated(DecodeRawHex(t).value));
    } else {
      MessagesDistinct([]);
    }
  }

  /** A 32-hex-digit line always converts: the invalid-raw-hex message is never produced. */
  lemma InvalidRawHexUnreachable(line: string)
    ensures Response(line) != InvalidRawHexMessage
  {
    var t := Trim(line);
    TrimIdempotent(line);
    MessagesDistinct([]);
    if InputTypeValidation(t) == RawHex {
      ResponseOfRawHex(line);
      assert GuidPrefix <= Response(line);
    }
  }

  /** Submitting the raw hex form of an identifier answers with its hyphenated form. */
  lemma ResponseOfEncodedRawHex(u: Uuid)
    ensures Response(EncodeRawHex(u)) == GuidPrefix + Hyphenated(u)
  {
    var h := EncodeRawHex(u);
    assert |h| == 32 && AllHex(h);
    HexIsRawHexShaped(h);
    ResponseOfRawHex(h);
    IdentifierRoundTrip(u);
  }

  /** Submitting the hyphenated form of an identifier answers with its raw hex form. */
  lemma ResponseOfEncodedHyphenated(u: Uuid)
    ensures Response(Hyphenated(u)) == RawHexPrefix + EncodeRawHex(u)
  {
    var g := Hyphenated(u);
    HyphenatedIsGuidShaped(g);
    ResponseOfHyphenated(g);
    ParseOfHyphenated(u);
  }

  /** Converting a GUID to raw hex and submitting that raw hex gives the GUID back, lower-cased. */
  lemma GuidThenRawHex(line: string, h: string)
    requires Response(line) == RawHexPrefix + h
    ensures Response(h) == GuidPrefix + Lower(Trim(line))
  {
    var t := Trim(line);
    ResponseOutcome(line);
    ResponseOfHyphenated(line);
    var u := ParseHyphenated(t).value;
    assert h == EncodeRawHex(u) by {
      assert h == (RawHexPrefix + h)[|RawHexPrefix|..];
    }
    ResponseOfEncodedRawHex(u);
    HyphenatedOfParse(t);
  }

  /** Converting raw hex to a GUID and submitting that GUID gives the raw hex back, upper-cased. */
  lemma RawHexThenGuid(line: string, g: string)
    requires Response(line) == GuidPrefix + g
    ensures Response(g) == RawHexPrefix + Upper(Trim(line))
  {
    var t := Trim(line);
    ResponseOutcome(line);
    ResponseOfRawHex(line);
    var u := DecodeRawHex(t).value;
    assert g == Hyphenated(u) by {
      assert g == (GuidPrefix + g)[|GuidPrefix|..];
    }
    ResponseOfEncodedHyphenated(u);
    RawHexRoundTrip(t);
  }

  /** Whitespace around a line does not change its message. */
  lemma ResponseIgnoresPadding(lead: string, s: string, trail: string)
    requires AllWhitespace(lead) && AllWhitespace(trail) && Unpadded(s)
    ensures Response(lead + s + trail) == Response(s)
  {
    TrimPadding(lead, s, trail);
    TrimUnpadded(s);
  }

  /** Four hyphens anywhere else than 8, 13, 18 and 23 break the hyphenated grammar. */
  lemma HyphensElsewhereNotHyphenated(t: string, a: nat, b: nat, c: nat, d: nat)
    requires HyphensExactlyAt(t, a, b, c, d) && (a, b, c, d) != (8, 13, 18, 23)
    ensures !IsHyphenated(t)
  {
  }

  lemma ResponseOfMalformedGuid(line: string)
    requires InputTypeValidation(Trim(line)) == Guid && !IsHyphenated(Trim(line))
    ensures Response(line) == InvalidGuidMessage
  {
  }

  /**
   * Classification does not look at where the hyphens are: 36 bytes with four hyphens
   * anywhere are `Guid`-shaped, and a line that does not then follow the hyphenated
   * grammar is rejected with the invalid-GUID message.
   */
  lemma FourHyphensAnywhere(line: string)
    requires Utf8Len(Trim(line)) == 36 && Count(Trim(line), '-') == 4
    ensures InputTypeValidation(Trim(line)) == Guid
    ensures !IsHyphenated(Trim(line)) ==> Response(line) == InvalidGuidMessage
  {
    TrimIdempotent(line);
  }

  /** In particular, hyphens at any four indices other than 8, 13, 18 and 23 of 36 characters. */
  lemma HyphensElsewhereRejected(line: string, a: nat, b: nat, c: nat, d: nat)
    requires |Trim(line)| == 36 && IsAscii(Trim(line)) && HyphensExactlyAt(Trim(line), a, b, c, d)
    requires (a, b, c, d) != (8, 13, 18, 23)
    ensures Response(line) == InvalidGuidMessage
  {
    var t := Trim(line);
    CountFourHyphens(t, a, b, c, d);
    AsciiLen(t);
    HyphensElsewhereNotHyphenated(t, a, b, c, d);
    FourHyphensAnywhere(line);
  }

  /**
   * Byte length 36 with another number of hyphens, or byte length 32 with a character
   * that is not a hex digit, is unrecognised: no length alone decides the tag.
   */
  lemma RightLengthWrongContentUnrecognised(line: string)
    requires || (Utf8Len(Trim(line)) == 36 && Count(Trim(line), '-') != 4)
             || (Utf8Len(Trim(line)) == 32 && !AllHex(Trim(line)))
    ensures Response(line) == NeitherMessage
  {
    TrimIdempotent(line);
  }

  /** A line whose trimmed byte length is neither 36 nor 32 gets the "neither" message. */
  lemma WrongLengthUnrecognised(line: string)
    requires Utf8Len(Trim(line)) != 36 && Utf8Len(Trim(line)) != 32
    ensures Response(line) == NeitherMessage
  {
    var t := Trim(line);
    TrimUnpadded(t);
    assert InputTypeValidation(t) == Unrecognized;
  }

  /** Submitting an empty line gets the "neither" message. */
  lemma EmptyLineUnrecognised()
    ensures Response("") == NeitherMessage
  {
  }
}
