# GUID converter: verified model of the codec and the input line

This project models the core of a terminal tool that converts between two text forms
of a 128-bit identifier:

- the hyphenated form, `xxxxxxxx-xxxx-xxxx-xxxx-xxxxxxxxxxxx`, as RFC 9562 section 4 gives it;
- the "raw hex" form: 32 upper-case hex digits of the bytes of the Windows `GUID` struct.
  In that struct `Data1` (u32), `Data2` (u16) and `Data3` (u16) are stored little-endian
  and `Data4` (8 bytes) is stored as is.

It also models the application state that feeds the converter. That state is the input
line, a cursor counted in characters, and the list of recorded messages.

Modules, one file each:

- `Wrappers` (`wrappers.dfy`): `Option`.
- `Text` (`text.dfy`): how the tool reads characters.
  - Rust's `char::is_whitespace` (the Unicode White_Space set), `trim_start`, `trim_end` and `trim`.
  - The UTF-8 byte length that `str::len` returns.
  - Counting one character, ASCII hex digits, ASCII case mapping.
- `Hex` (`hex.dfy`): hex text and bytes.
  - Bytes as `uint8`; `{:02X}`/`{:02x}` formatting; strict pair decoding.
  - `u8::from_str_radix(pair, 16)` with its `+` quirk.
  - The `collect::<Option<Vec<u8>>>()` over the 16 pairs.
- `Uuids` (`uuids.dfy`): the identifier as 16 bytes in natural order.
  - Its hyphenated grammar, parser and lower-case formatter.
  - These stand for `Uuid::parse_str` on 36-byte input and for `Uuid`'s `Display`.
- `Conversion` (`conversion.dfy`): the 4-2-2-8 byte reorder.
  - The reorder as a function, and as the in-place array steps the Rust code performs (`copy_from_slice`, `reverse`).
  - `raw_hex_to_guid` and `guid_to_raw_hex`, as specification functions and as methods over fixed 16-byte arrays.
  - An independent definition of the `GUID` struct layout through big- and little-endian field values.
- `Dispatch` (`dispatch.dfy`): classification of a trimmed line into `Guid`, `RawHex` or unrecognised.
  - The message `submit_message` records for each outcome: the function `Respond` of the trimmed line, and `Response` of the raw line.
  - `Convert`, the same message computed through the array-based conversion methods.
  - Lemmas that tie the outcomes together.
- `Editor` (`editor.dfy`): the `App` class with fields `input`, `characterIndex` and `messages`.
  - Its cursor and editing methods, with exact post-states.
  - `SubmitMessage`, which appends exactly `Dispatch.Response` of the old input.

Three behaviours of the code worth knowing:

- `raw_hex_to_guid` checks the UTF-8 byte length, not the number of characters.
- It parses every pair with `u8::from_str_radix`. That function also accepts a leading
  `+` before a single digit, so the pair `+f` is the byte 15 (`Hex.PlusSignAccepted`).
  Input that reaches the function from dispatch is all hex, so this never reaches a user.
- Classification counts hyphens and ignores where they stand. A 36-character line with
  misplaced hyphens therefore gets the invalid-GUID message, not the "neither" message
  (`Dispatch.FourHyphensAnywhere`, `Dispatch.HyphensElsewhereRejected`).

## Model

| member | source | states |
|---|---|---|
| `Text.IsWhitespace` | src/main.rs:99 | a character is whitespace iff it is in the Unicode White_Space set: tab through carriage return, space, U+0085, U+00A0, U+1680, U+2000 to U+200A, U+2028, U+2029, U+202F, U+205F and U+3000 |
| `Text.TrimStart` | src/main.rs:99 | the result is no longer than the input and does not start with whitespace. Everything before its length from the end is whitespace |
| `Text.TrimStartSuffix` | src/main.rs:99 | what `trim_start` leaves is a suffix of its input |
| `Text.TrimEnd` | src/main.rs:99 | the result is a prefix of the input. It does not end with whitespace. Everything dropped is whitespace |
| `Text.Trim` | src/main.rs:99 | the trimmed line is no longer than the input and neither starts nor ends with whitespace |
| `Text.TrimPadding` | src/main.rs:172 | any whitespace around an unpadded string is exactly what trimming removes |
| `Text.TrimIdempotent` | src/main.rs:171-172 | trimming an already trimmed line changes nothing, so the second trim in classification is harmless |
| `Text.Utf8Width` | src/main.rs:173 | a character takes 1 to 4 bytes, and exactly 1 iff it is ASCII |
| `Text.Utf8Len` | src/main.rs:173 | the byte length lies between the character count and four times it. It equals the character count iff the text is ASCII |
| `Text.Count` | src/main.rs:173 | the count of a character is at most the length |
| `Text.IsHexDigit` | src/main.rs:175 | a character is an ASCII hex digit iff it is in `0-9`, `a-f` or `A-F` |
| `Text.AllHex` | src/main.rs:175 | every character is an ASCII hex digit |
| `Text.CountZero` | src/main.rs:173 | the count is 0 iff the character occurs at no index |
| `Text.CountFourHyphens` | src/main.rs:173 | a string with `-` at exactly four indices counts four hyphens |
| `Hex.HexValue` | src/main.rs:138 | the value of a hex digit of either case is below 16 |
| `Hex.HexDigit` | src/main.rs:168 | the digit for a value below 16 is a hex digit with that value, in the requested case |
| `Hex.HexByte` | src/main.rs:168 | one byte is exactly two digits, the high nibble then the low nibble |
| `Hex.HexEncode` | src/main.rs:168 | the text has two characters per byte, all upper-case (or all lower-case) hex digits, high nibble first |
| `Hex.HexEncodePairs` | src/main.rs:168 | characters `2i..2i+2` are the two-digit form of byte `i` |
| `Hex.HexDecodeEncode` | src/main.rs:138 | decoding an encoding gives the bytes back |
| `Hex.HexEncodeDecode` | src/main.rs:138 | encoding a decoding gives the digits back, upper- or lower-cased |
| `Hex.PairValue` | src/main.rs:138 | the byte whose high nibble is the first digit's value and whose low nibble is the second's |
| `Hex.FromStrRadix16` | src/main.rs:138 | a pair parses iff it is two hex digits or `+` then one hex digit. The value is the pair's value, or the single digit's after `+` |
| `Hex.PlusSignAccepted` | src/main.rs:138 | the pair `+f` is accepted as the byte 15 |
| `Hex.PairAt` | src/main.rs:138 | pair `i` is the two characters at indices `2i` and `2i+1` |
| `Hex.ParsePairs` | src/main.rs:137-139 | the result is `Some` iff every pair parses, with one byte per pair in order. Any failing pair gives `None` and no partial result |
| `Hex.ParsePairsOfHex` | src/main.rs:137-139 | on all-hex text the pair parser equals strict hex decoding |
| `Uuids.IsHyphenated` | src/main.rs:104 | the grammar: 36 characters, `-` at 8, 13, 18 and 23, a hex digit of either case everywhere else |
| `Uuids.HyphenatedIsAscii` | src/main.rs:104 | a hyphenated string is ASCII and 36 bytes long |
| `Uuids.Digits` | src/main.rs:104 | digit `k` of the 32 is character `DigitPos(k)` of the hyphenated form |
| `Uuids.Grouped` | src/main.rs:116 | grouping puts hyphens at 8, 13, 18, 23 and digit `DigitIndex(i)` at every other index `i` |
| `Uuids.GroupedOfDigits` | src/main.rs:104 | a hyphenated string is its own digits regrouped |
| `Uuids.ParseHyphenated` | src/main.rs:104 | parsing succeeds iff the grammar holds. The parsed bytes are the string's digits, lower-cased, read two per byte |
| `Uuids.Hyphenated` | src/main.rs:116 | the display form satisfies the grammar and is lower case |
| `Uuids.ParseOfHyphenated` | src/main.rs:104-116 | parsing the display form gives the identifier back |
| `Uuids.HyphenatedOfParse` | src/main.rs:104-116 | displaying a parsed string gives that string lower-cased |
| `Conversion.Reversed` | src/main.rs:146 | position `i` of the result is position `n-1-i` of the input |
| `Conversion.Reorder` | src/main.rs:144-151 | result byte `i` is input byte `SwapIndex(i)`: bytes 0..4, 4..6 and 6..8 reversed, 8..16 unchanged |
| `Conversion.ReorderInvolution` | src/main.rs:159-166 | reordering twice gives the original 16 bytes |
| `Conversion.LittleEndianOfBigEndian` | src/main.rs:144-150 | storing a big-endian field little-endian reverses its bytes |
| `Conversion.ReorderIsGuidStruct` | src/main.rs:144-151 | the reorder is the memory image of the `GUID` struct (`Data1`, `Data2`, `Data3` little-endian, `Data4` as is) |
| `Conversion.CopyFromSlice` | src/main.rs:145 | the target range holds the source slice and nothing else in the array changes |
| `Conversion.ReverseRange` | src/main.rs:146 | the range is reversed in place and nothing else in the array changes |
| `Conversion.CopyReversed` | src/main.rs:145-150 | after a copy and a reverse over one range, that range holds the source back to front and nothing else in the array changes |
| `Conversion.ReorderBytes` | src/main.rs:144-151 | the fresh 16-byte array holds `Reorder` of the input array |
| `Conversion.DecodeRawHex` | src/main.rs:132-154 | the result is `None` when the byte length is not 32. It is `Some` iff all 16 pairs parse. Then byte `SwapIndex(i)` of the identifier is the value of pair `i` |
| `Conversion.EncodeRawHex` | src/main.rs:156-169 | the output is exactly 32 characters from `0-9A-F`. Characters `2i..2i+2` are the `{:02X}` form of reordered byte `i` |
| `Conversion.RawHexToGuid` | src/main.rs:132-154 | the array-based method returns exactly `DecodeRawHex` of its input |
| `Conversion.GuidToRawHex` | src/main.rs:156-169 | the array-based method returns exactly `EncodeRawHex` of its input |
| `Conversion.DecodeRawHexOfHex` | src/main.rs:132-153 | on 32 hex digits `raw_hex_to_guid` succeeds with the reorder of the strictly decoded bytes |
| `Conversion.RawHexRoundTrip` | src/main.rs:132-169 | any 32 hex digits decode, and encoding the result gives those digits upper-cased |
| `Conversion.IdentifierRoundTrip` | src/main.rs:132-169 | decoding the raw hex of an identifier gives that identifier |
| `Conversion.RawHexDenotes` | src/main.rs:132-169 | 32 hex digits denote an identifier iff, upper-cased, they are its raw hex encoding |
| `Dispatch.InputTypeValidation` | src/main.rs:171-180 | the tag is `Guid` iff the trimmed line has byte length 36 and exactly four hyphens. It is `RawHex` iff it is not `Guid` and the trimmed line has byte length 32 and only hex digits (then 32 characters). Every other line is unrecognised |
| `Dispatch.HyphenCount` | src/main.rs:173 | a hyphenated string holds exactly four hyphens |
| `Dispatch.HyphenatedIsGuidShaped` | src/main.rs:173-174 | every hyphenated string is its own trim and is classified `Guid` |
| `Dispatch.HexIsRawHexShaped` | src/main.rs:175-176 | every string of 32 hex digits is its own trim and is classified `RawHex` |
| `Dispatch.FourHyphensAnywhere` | src/main.rs:103-111 | byte length 36 with four hyphens anywhere is `Guid`, and such a line outside the hyphenated grammar gets the invalid-GUID message |
| `Dispatch.HyphensElsewhereRejected` | src/main.rs:103-111 | 36 ASCII characters with hyphens at exactly four indices other than 8, 13, 18, 23 get the invalid-GUID message |
| `Dispatch.RightLengthWrongContentUnrecognised` | src/main.rs:173-178 | byte length 36 with a hyphen count other than four, or byte length 32 with a non-hex character, gets the "neither" message |
| `Dispatch.HyphensElsewhereNotHyphenated` | src/main.rs:104 | hyphens at any other four indices break the grammar |
| `Dispatch.WrongLengthUnrecognised` | src/main.rs:122-123 | a trimmed byte length other than 36 and 32 gets the "neither" message, with no parse |
| `Dispatch.EmptyLineUnrecognised` | src/main.rs:122-123 | submitting an empty line gets the "neither" message |
| `Dispatch.GuidResponse` | src/main.rs:103-112 | a parsed line gives `✅ Raw Hex: ` and the raw hex of the identifier; a parse error gives `❌ Invalid GUID` |
| `Dispatch.RawHexResponse` | src/main.rs:113-121 | a decoded line gives `✅ GUID: ` and the hyphenated identifier; a decoding failure gives `❌ Invalid Raw Hex.` |
| `Dispatch.Respond` | src/main.rs:100-124 | the message of a trimmed line: the `Guid` arm, the `RawHex` arm, or the "neither" message, chosen by the tag |
| `Dispatch.Response` | src/main.rs:99-124 | the message of a raw line is that of its trim |
| `Dispatch.TaggedRawHexArgument` | src/main.rs:113-114 | a trimmed line tagged `RawHex` never makes `raw_hex_to_guid` slice inside a character |
| `Dispatch.Convert` | src/main.rs:99-124 | the array-based computation of the message gives exactly the message `Respond` specifies for the trimmed line |
| `Dispatch.ConvertGuid` | src/main.rs:103-112 | parsing and then `guid_to_raw_hex` gives the raw-hex success for a hyphenated line and the invalid-GUID error otherwise |
| `Dispatch.ConvertRawHex` | src/main.rs:113-121 | `raw_hex_to_guid` and then the display form gives the GUID success when decoding succeeds and the invalid-raw-hex error otherwise |
| `Dispatch.ResponseShape` | src/main.rs:98-124 | the message is one of the three errors, the raw-hex success with 32 characters, or the GUID success with 36 characters |
| `Dispatch.ResponseOfMalformedGuid` | src/main.rs:109-111 | a `Guid`-shaped line that breaks the grammar gets the invalid-GUID message |
| `Dispatch.ResponseOfHyphenated` | src/main.rs:103-108 | a hyphenated line gets `✅ Raw Hex: ` and its raw hex encoding |
| `Dispatch.ResponseOfRawHex` | src/main.rs:113-117 | a 32-hex-digit line gets `✅ GUID: ` and the hyphenated form of its decoding |
| `Dispatch.ResponseOfEncodedRawHex` | src/main.rs:113-117 | submitting an identifier's raw hex answers with its hyphenated form |
| `Dispatch.ResponseOfEncodedHyphenated` | src/main.rs:103-108 | submitting an identifier's hyphenated form answers with its raw hex form |
| `Dispatch.ResponseOutcome` | src/main.rs:103-124 | each message prefix or fixed error occurs iff its input condition holds: hyphenated, 32 hex digits, `Guid`-shaped but not hyphenated, or unrecognised |
| `Dispatch.InvalidRawHexUnreachable` | src/main.rs:118-120 | the invalid-raw-hex message is never produced for any line |
| `Dispatch.GuidThenRawHex` | src/main.rs:103-121 | submitting the raw hex a GUID converted to gives back the GUID lower-cased |
| `Dispatch.RawHexThenGuid` | src/main.rs:103-121 | submitting the GUID a raw hex converted to gives back the raw hex upper-cased |
| `Dispatch.ResponseIgnoresPadding` | src/main.rs:99 | whitespace around a line does not change its message |
| `Editor.Take` | src/main.rs:81 | `take(n)` keeps the first `min(n, len)` characters |
| `Editor.Skip` | src/main.rs:83 | `skip(n)` keeps everything after the first `min(n, len)` characters |
| `Editor.InsertAt` | src/main.rs:59 | the new character is at `k`, earlier characters are unchanged, and later ones move up by one |
| `Editor.DeleteBefore` | src/main.rs:77-85 | at `k <= len` the character at `k-1` is removed. Past the end the text is unchanged |
| `Editor.DeleteUndoesInsert` | src/main.rs:57-88 | deleting just after an inserted character restores the text |
| `Editor.App.constructor` | src/main.rs:38-45 | a new app has empty input, cursor 0 and no messages |
| `Editor.App.ClampCursor` | src/main.rs:90-92 | the result is the position itself when it lies in `0..=len`, else `len` |
| `Editor.App.ByteIndex` | src/main.rs:62-68 | the insertion point is the cursor when the cursor is within the text, else the end of the text |
| `Editor.App.MoveCursorLeft` | src/main.rs:47-50 | the cursor steps left, staying at 0 when already at 0, clamped to the text. Nothing else changes |
| `Editor.App.MoveCursorRight` | src/main.rs:52-55 | the cursor steps right, clamped to the length. Nothing else changes |
| `Editor.App.EnterChar` | src/main.rs:57-61 | the input becomes `input[..k] + [c] + input[k..]` and the cursor `k+1`. The cursor invariant holds afterwards |
| `Editor.App.DeleteChar` | src/main.rs:70-88 | at `k > 0` the input becomes `input[..k-1] + input[k..]` and the cursor `k-1`. At `k == 0` nothing changes. The cursor invariant holds afterwards |
| `Editor.App.ResetCursor` | src/main.rs:94-96 | the cursor becomes 0 and nothing else changes |
| `Editor.App.Record` | src/main.rs:127-129 | the message is appended after the earlier ones, the input is cleared and the cursor set to 0 |
| `Editor.App.SubmitMessage` | src/main.rs:98-130 | exactly one message, `Response` of the old input, is appended and earlier messages are kept. The input is cleared and the cursor set to 0. It is `Dispatch.Convert` of the trimmed input followed by `Record` |

## Left out

- `main`, `run` and `draw` (terminal setup, the key-event loop, layout and rendering, `color_eyre` error plumbing): I/O and UI.
- The `InputMode` Normal/Editing toggle: it only steers the key-event loop in `run`.
- The alternative `Uuid::parse_str` forms (simple, braced, urn) have byte lengths 32, 38 and 45. Only byte length 36 reaches the parser, so `Uuids.ParseHyphenated` is the parser's behaviour on every input it can receive. The crate's internals are not modelled.
- Conversion.DecodeRawHex: requires that text with byte length 32 be ASCII. On other text Rust slices at byte offsets that may split a character and panic. Dispatch passes only hex digits, so it always meets this.
- Conversion.RawHexToGuid: requires the same, for the same reason.
- `usize` is modelled as unbounded `nat`. `saturating_add` cannot saturate, because the cursor is clamped to the length of a string that fits in memory.
- `byte_index` returns a byte offset in Rust. Over a sequence of characters that offset is the character index.
- Concrete examples over full 16-byte literals (the all-zero raw hex, `01020304-0506-0708-0910-111213141516`) are not stated as lemmas. The round-trip and outcome lemmas give the form of the answer for all inputs (prefix followed by `EncodeRawHex` or `Hyphenated` of the decoded identifier); the concrete strings follow from them only after evaluating those functions on the literal.
