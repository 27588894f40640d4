# Axioma Qalcosonic E3/E4 uplink decoder — a verified model

The decoder takes the LoRaWAN port number and the raw payload bytes of an uplink frame from a
Qalcosonic E3/E4 heat/water meter. It checks the port and the presence of the bytes, renders
the bytes as one lower-case hex string, and picks a frame layout by the byte count:

| bytes | payload type |
|---|---|
| 35 | BasicLT |
| 41 | Basic with heating energy |
| 45 | Basic with cooling energy |
| 48 | Nordic |
| 30 | Nordic with cooling |

It then cuts each field out of the hex string at fixed offsets, reverses its byte order (the
meter sends least-significant byte first), and converts it. Counters and timestamps are read as
integers. Temperatures are read as hundredths. The error byte is looked up in a table of seven
descriptions. Power and flow are scaled by 0.1 and 0.001.

The model is pure, as the source is: datatypes, functions and lemmas.

- `Results`: `Option` and `Result`. A `Result` failure stands for a thrown exception.
- `HexCodec`: the JavaScript primitives used on hex text.
  - `toString(radix)`, `padStart` and the `reduce` fold that renders the bytes.
  - `parseInt(s, 16)` and the top-level `hexToDecimal`.
  - Round trips between them.
- `Endian`: `substring` (clamped bounds, swapped when reversed) and `convertToLittleEndian`, with its guard and the failure on a single character.
  - Proved: the pair reversal reverses the two-character groups and undoes itself.
  - Proved: on a rendered frame, a reversed slice read in base 16 is the little-endian integer of its bytes.
- `Layouts`: the five layouts, the length dispatch, and one field table per layout.
  - Each table holds the exact offsets, output keys and conversions of its `process*Payload` function.
  - Proved: every table tiles its frame. Fields are contiguous, start at 0, end at twice the byte length, and each hex character is read by exactly one field.
  - Proved: output keys are distinct, and every error-code field is one byte wide.
- `Decoder`: `mapErrorCode`, `convertHexToDecimal`, the power/flow conversion, the per-field extraction, the `process*Payload` functions as one extraction over the table, `createError` and `decodeUplink`. The output is:
  - `Data(record)` for the `{ data }` object;
  - `Errors([message])` for `{ errors }`;
  - `Thrown(e)` for an exception that would escape.
- `Reference`: an independent reading of a frame from its bytes, with no text involved.
  - Integers are little-endian.
  - The error byte is described by its numeric value.
  - Power and flow are the little-endian binary-coded-decimal value of their bytes.
  - The main theorem, `DecodeUplinkMatchesReference`: on port 100, `decodeUplink` of any frame of a known length is exactly this reading. Hence `decodeUplink` never throws (`NeverThrows`).

Scaled values are kept exact, as `Scaled(raw, divisor)`: divisor 100 for temperatures, 10 for
power, 1000 for flow.

`LEHexPowerPP * 0.1` (`axioma-qalcosonic-e3-e4-decoder.js:107-108`), and the matching flow
product, multiply the byte-order-corrected hex string itself, so JavaScript reads it as a
*decimal* numeral, not as hex.

- When every nibble is a decimal digit, the field is the little-endian BCD value of its bytes (`ScaleNumeral`, `NumeralField`). Power bytes `10 00 00` give 10 tenths, though their little-endian integer is 16 (`PowerReadsDecimalDigits`).
- Any other string is kept as `NonDecimal(text)`: its value is not computed. For most such strings JavaScript produces NaN; the exceptions are listed under "Left out".

## Model

| member | source | states |
|---|---|---|
| HexCodec.DigitValue | Axioma/axioma-qalcosonic-e3-e4-decoder.js:367 | a hex digit of either case has a value below 16, and it is below 10 exactly for a decimal digit |
| HexCodec.DigitChar | Axioma/axioma-qalcosonic-e3-e4-decoder.js:337 | `toString(16)` writes digit `d` as a lower-case hex character whose value is `d` |
| HexCodec.ToDigits | Axioma/axioma-qalcosonic-e3-e4-decoder.js:337 | `n.toString(radix)` is a non-empty string of digits below the radix, with no leading zero |
| HexCodec.IsHexString | Axioma/axioma-qalcosonic-e3-e4-decoder.js:63 | the guard `/^[0-9A-Fa-f]+$/`: a non-empty string of hex digits of either case |
| HexCodec.ParseDigits | Axioma/axioma-qalcosonic-e3-e4-decoder.js:70 | `parseInt(s, radix)` on a digit string: its value, most significant digit first |
| HexCodec.ParseDigitsBound | Axioma/axioma-qalcosonic-e3-e4-decoder.js:70 | a string of k digits below the radix parses to less than radix^k |
| HexCodec.ParseToDigits | Axioma/axioma-qalcosonic-e3-e4-decoder.js:357 | reading `n.toString(radix)` back in the same radix gives `n`; so the length printed in the unknown-length message is the length |
| HexCodec.PadStart | Axioma/axioma-qalcosonic-e3-e4-decoder.js:337 | `padStart(len, fill)` yields a string of length `len` or the string's own length, whichever is larger, and leaves a long-enough string unchanged |
| HexCodec.ByteHex | Axioma/axioma-qalcosonic-e3-e4-decoder.js:337 | every byte is rendered in exactly two characters |
| HexCodec.ByteHexDigits | Axioma/axioma-qalcosonic-e3-e4-decoder.js:337 | those two characters are the high and the low nibble in lower case, zero-padded |
| HexCodec.ByteHexExample | Axioma/axioma-qalcosonic-e3-e4-decoder.js:337 | byte 0x1C renders as "1c" and 0x04 as "04", the table's keys |
| HexCodec.ByteHexRoundTrip | Axioma/axioma-qalcosonic-e3-e4-decoder.js:337 | the two characters read in base 16 give the byte back |
| HexCodec.BytesToHex | Axioma/axioma-qalcosonic-e3-e4-decoder.js:337 | the rendered frame is twice as long as the byte array |
| HexCodec.BytesToHexIsHex | Axioma/axioma-qalcosonic-e3-e4-decoder.js:337 | every character of the rendered frame is a lower-case hex digit |
| HexCodec.BytesToHexAt | Axioma/axioma-qalcosonic-e3-e4-decoder.js:337 | characters [2i, 2i+2) of the rendered frame are the rendering of byte i |
| HexCodec.BytesToHexAppend | Axioma/axioma-qalcosonic-e3-e4-decoder.js:337 | rendering distributes over concatenation of byte sequences |
| HexCodec.BytesToHexSlice | Axioma/axioma-qalcosonic-e3-e4-decoder.js:337 | characters [2k, 2(k+n)) of the rendered frame are the rendering of bytes [k, k+n) |
| HexCodec.BytesToHexCons | Axioma/axioma-qalcosonic-e3-e4-decoder.js:337 | the first byte's two characters come first |
| HexCodec.HexToDecimal | Axioma/axioma-qalcosonic-e3-e4-decoder.js:362-368 | `hexToDecimal` fails, with the invalid-hex error, exactly when its input is empty or holds a non-hex character |
| HexCodec.HexToDecimalRoundTrip | Axioma/axioma-qalcosonic-e3-e4-decoder.js:362-368 | `hexToDecimal` inverts `toString(16)` |
| Endian.Substring | Axioma/axioma-qalcosonic-e3-e4-decoder.js:58 | `substring` with in-range, ordered bounds is the slice; the result is never longer than the string |
| Endian.SubstringSymmetric | Axioma/axioma-qalcosonic-e3-e4-decoder.js:58 | `substring` gives the same result with its bounds swapped |
| Endian.SwapPairs | Axioma/axioma-qalcosonic-e3-e4-decoder.js:66 | the group reversal keeps every whole pair and drops a trailing odd character |
| Endian.SwapPairsHex | Axioma/axioma-qalcosonic-e3-e4-decoder.js:66 | the group reversal only moves characters, so hex text stays hex |
| Endian.ConvertToLittleEndian | Axioma/axioma-qalcosonic-e3-e4-decoder.js:62-67 | succeeds exactly on hex strings of two or more characters; throws the guard's error exactly on non-hex or empty input; the result is hex, as long as the input less a trailing odd character |
| Endian.ConvertHexSliceToLittleEndian | Axioma/axioma-qalcosonic-e3-e4-decoder.js:57-60 | with in-range bounds it is `convertToLittleEndian` of the slice |
| Endian.SwapPairsAt | Axioma/axioma-qalcosonic-e3-e4-decoder.js:66 | in a string of n pairs, character t of pair i moves to character t of pair n-1-i |
| Endian.ReversesPairs | Axioma/axioma-qalcosonic-e3-e4-decoder.js:66 | group i of the result is group n-1-i of the input |
| Endian.SwapPairsSnoc | Axioma/axioma-qalcosonic-e3-e4-decoder.js:66 | a pair appended at the end of the input comes out first |
| Endian.SwapPairsInvolution | Axioma/axioma-qalcosonic-e3-e4-decoder.js:66 | reversing the groups twice gives back the string |
| Endian.LittleEndianTwice | Axioma/axioma-qalcosonic-e3-e4-decoder.js:62-67 | `convertToLittleEndian` applied twice to an accepted even-length string returns it |
| Endian.LittleEndianDigitsHex | Axioma/axioma-qalcosonic-e3-e4-decoder.js:70 | reading byte digits little-endian in base 16 is the bytes' little-endian integer |
| Endian.ParseBytesToHex | Axioma/axioma-qalcosonic-e3-e4-decoder.js:337 | the rendered bytes read in a radix are their nibbles as big-endian digits |
| Endian.SwapBytesToHex | Axioma/axioma-qalcosonic-e3-e4-decoder.js:66 | reversing the groups of a rendered byte sequence renders the reversed bytes |
| Endian.BigEndianOfReverse | Axioma/axioma-qalcosonic-e3-e4-decoder.js:66 | the reversed bytes read big-endian are the bytes read little-endian |
| Endian.HexSliceField | Axioma/axioma-qalcosonic-e3-e4-decoder.js:57-67 | on a rendered frame, the reversed slice [2k, 2(k+n)) never throws and is the rendering of bytes [k, k+n) reversed |
| Endian.HexSliceValue | Axioma/axioma-qalcosonic-e3-e4-decoder.js:57-72 | that slice read by `parseInt(…, 16)` is the sum of bytes[k+j]·256^j |
| Endian.LittleEndianBound | Axioma/axioma-qalcosonic-e3-e4-decoder.js:70 | an n-byte field is below 256^n |
| Endian.FourByteBound | Axioma/axioma-qalcosonic-e3-e4-decoder.js:89 | a four-byte field such as the timestamp is below 2^32 |
| Endian.TimestampExample | Axioma/axioma-qalcosonic-e3-e4-decoder.js:89 | timestamp bytes 00 00 00 01 are 16777216 |
| Layouts.Layout.ByteLength | Axioma/axioma-qalcosonic-e3-e4-decoder.js:80-85 | the byte count that selects each layout: 35, 45, 41, 48 and 30 |
| Layouts.Layout.PayloadType | Axioma/axioma-qalcosonic-e3-e4-decoder.js:117-322 | the `payloadtype` tag each decoder writes |
| Layouts.LayoutOf | Axioma/axioma-qalcosonic-e3-e4-decoder.js:80-85 | a layout is chosen exactly when the length is its byte length; no layout for any length outside {30, 35, 41, 45, 48} |
| Layouts.BasicLTFields | Axioma/axioma-qalcosonic-e3-e4-decoder.js:89-112 | the offsets, output keys and conversions of `processBasicLTPayload`, field for field |
| Layouts.BasicWithHeatFields | Axioma/axioma-qalcosonic-e3-e4-decoder.js:138-161 | the offsets, output keys and conversions of `processBasicHeatPayload`, field for field |
| Layouts.BasicWithCoolFields | Axioma/axioma-qalcosonic-e3-e4-decoder.js:187-212 | the offsets, output keys and conversions of `processBasicCoolPayload`, field for field |
| Layouts.NordicFields | Axioma/axioma-qalcosonic-e3-e4-decoder.js:239-271 | the offsets, output keys and conversions of `processNordicPayload`, field for field |
| Layouts.NordicWithCoolFields | Axioma/axioma-qalcosonic-e3-e4-decoder.js:298-317 | the offsets, output keys and conversions of `processNordicCoolPayload`, field for field |
| Layouts.BasicLTTiles | Axioma/axioma-qalcosonic-e3-e4-decoder.js:89-99 | the BasicLT offsets tile the 70-character string; keys distinct, error code one byte |
| Layouts.BasicWithHeatTiles | Axioma/axioma-qalcosonic-e3-e4-decoder.js:138-148 | the heating-energy offsets tile the 82-character string |
| Layouts.BasicWithCoolTiles | Axioma/axioma-qalcosonic-e3-e4-decoder.js:187-198 | the cooling-energy offsets tile the 90-character string |
| Layouts.NordicTiles | Axioma/axioma-qalcosonic-e3-e4-decoder.js:239-253 | the Nordic offsets tile the 96-character string |
| Layouts.NordicWithCoolTiles | Axioma/axioma-qalcosonic-e3-e4-decoder.js:298-306 | the Nordic-with-cooling offsets tile the 60-character string |
| Layouts.Fields | Axioma/axioma-qalcosonic-e3-e4-decoder.js:88-334 | every layout's field table tiles twice its byte length and is well formed |
| Layouts.TilesOrdered | Axioma/axioma-qalcosonic-e3-e4-decoder.js:89-99 | in a tiling, an earlier field ends no later than a later one starts |
| Layouts.CoveringField | Axioma/axioma-qalcosonic-e3-e4-decoder.js:89-99 | some field covers each character of the string |
| Layouts.EachCharReadOnce | Axioma/axioma-qalcosonic-e3-e4-decoder.js:89-99 | in a tiling, each character is read by exactly one field and no slice runs past the string |
| Decoder.MapErrorCode | Axioma/axioma-qalcosonic-e3-e4-decoder.js:41-55 | a code gets a description other than "Unknown" exactly when it is a key of the table |
| Decoder.ErrorCodeDescriptions | Axioma/axioma-qalcosonic-e3-e4-decoder.js:43-51 | the seven keys and their fixed descriptions |
| Decoder.ConvertHexToDecimal | Axioma/axioma-qalcosonic-e3-e4-decoder.js:69-72 | with multiplier 1 the value is exactly `hexToDecimal` of the string; otherwise that value scaled |
| Decoder.ScaleNumeral | Axioma/axioma-qalcosonic-e3-e4-decoder.js:107-108 | a string of decimal digits is scaled by the field's divisor; any other string is kept as text, its value not computed |
| Decoder.ScaleNumeralRoundTrip | Axioma/axioma-qalcosonic-e3-e4-decoder.js:107-108 | a printed decimal number coerces back to that number |
| Decoder.FieldValue | Axioma/axioma-qalcosonic-e3-e4-decoder.js:89-112 | the error-code field never throws; any other field throws exactly when its slice's guard does |
| Decoder.DecodeFields | Axioma/axioma-qalcosonic-e3-e4-decoder.js:89-134 | fields come out one per table entry, with the table's keys, in order; decoding succeeds exactly when every field does |
| Decoder.ProcessPayload | Axioma/axioma-qalcosonic-e3-e4-decoder.js:88-334 | a decoder returns its layout's payload type and one value per field, and never an error list |
| Decoder.CreateError | Axioma/axioma-qalcosonic-e3-e4-decoder.js:74-78 | the `{ errors: [message] }` object: one message and no data |
| Decoder.UnknownLengthMessage | Axioma/axioma-qalcosonic-e3-e4-decoder.js:357 | the unknown-length message is the fixed prefix, the length in decimal and " bytes"; the digits between them read back as the length |
| Decoder.DecodeUplink | Axioma/axioma-qalcosonic-e3-e4-decoder.js:11-358 | an error result holds exactly one message; data comes only from port 100 with bytes of a known length, tagged with that layout's payload type |
| Decoder.ValidationLadder | Axioma/axioma-qalcosonic-e3-e4-decoder.js:19-39 | null port, port 101, any other port but 100, and missing bytes each give their one message, in that order |
| Decoder.DecodeFrame | Axioma/axioma-qalcosonic-e3-e4-decoder.js:337-358 | on port 100 the result is an error list exactly when the byte count is not one of the five known lengths, and that list is the one unknown-length message |
| Decoder.Dispatch | Axioma/axioma-qalcosonic-e3-e4-decoder.js:340-354 | a frame of a known length goes to its layout's decoder, applied to the frame's hex rendering |
| Decoder.UnknownLength | Axioma/axioma-qalcosonic-e3-e4-decoder.js:356-357 | any other length gives the one unknown-length message with the length in decimal |
| Reference.DescribeMatches | Axioma/axioma-qalcosonic-e3-e4-decoder.js:41-55 | looking up a byte's two rendered digits is looking up the byte's numeric value |
| Reference.TiledFieldsIn | Axioma/axioma-qalcosonic-e3-e4-decoder.js:89-99 | every field of a well-formed tiling lies inside the frame, on byte boundaries |
| Reference.FieldsInFrame | Axioma/axioma-qalcosonic-e3-e4-decoder.js:88-334 | every field of every layout lies inside a frame of that layout's length |
| Reference.Reference | Axioma/axioma-qalcosonic-e3-e4-decoder.js:115-133 | the reference reading carries the layout's payload type and one value per field |
| Reference.RenderedDigits | Axioma/axioma-qalcosonic-e3-e4-decoder.js:337 | characters 2i and 2i+1 of the rendered frame are the nibbles of byte i |
| Reference.DecimalRendering | Axioma/axioma-qalcosonic-e3-e4-decoder.js:107-108 | rendered bytes are a decimal numeral exactly when every nibble is a decimal digit |
| Reference.ReverseBcd | Axioma/axioma-qalcosonic-e3-e4-decoder.js:107-108 | reversing bytes keeps them binary-coded decimal, and only then |
| Reference.NumeralField | Axioma/axioma-qalcosonic-e3-e4-decoder.js:107-108 | the power and flow coercion is the little-endian BCD value of the field's bytes when they are BCD, and otherwise the reversed rendering kept as text, its value not computed |
| Reference.ErrorCodeFieldMatches | Axioma/axioma-qalcosonic-e3-e4-decoder.js:90 | the error code is byte 4 unreversed, with its numeric description |
| Reference.IntegerFieldMatches | Axioma/axioma-qalcosonic-e3-e4-decoder.js:102-112 | integer and temperature fields are the little-endian integer of their bytes, the temperatures in hundredths |
| Reference.NumeralFieldMatches | Axioma/axioma-qalcosonic-e3-e4-decoder.js:107-108 | power and flow fields are their bytes' little-endian BCD value, in tenths and thousandths |
| Reference.FieldValueMatches | Axioma/axioma-qalcosonic-e3-e4-decoder.js:89-112 | every field of a frame decodes to its byte-level reference value without throwing |
| Reference.DecodeFieldsMatches | Axioma/axioma-qalcosonic-e3-e4-decoder.js:89-133 | all the fields of a table decode, in order, to their reference values |
| Reference.ProcessPayloadMatches | Axioma/axioma-qalcosonic-e3-e4-decoder.js:88-334 | each of the five decoders computes the reference reading of its layout |
| Reference.DecodeUplinkMatchesReference | Axioma/axioma-qalcosonic-e3-e4-decoder.js:337-354 | on port 100 every frame of a known length decodes to the reference reading of its layout |
| Reference.NeverThrows | Axioma/axioma-qalcosonic-e3-e4-decoder.js:11-358 | no port and no byte array makes `decodeUplink` throw |
| Reference.BasicLTHeader | Axioma/axioma-qalcosonic-e3-e4-decoder.js:89-121 | a BasicLT frame's timestamp is bytes 0-3 little-endian and its error code is byte 4 with its description |
| Reference.PowerReadsDecimalDigits | Axioma/axioma-qalcosonic-e3-e4-decoder.js:107 | power bytes 10 00 00 give 10 tenths, not the little-endian integer 16 |
| Reference.KnownLengths | Axioma/axioma-qalcosonic-e3-e4-decoder.js:340-354 | each of the five lengths decodes to data with its payload type |
| Reference.EndToEndExample | Axioma/axioma-qalcosonic-e3-e4-decoder.js:88-121 | a 35-byte frame starting 00 00 00 01 04 has timestamp 16777216 and error "04", "Power low" |

## Left out

- Floating point: the products `* 0.01`, `* 0.1`, `* 0.001` and `toFixed(1)` / `toFixed(3)` are not reproduced as IEEE doubles. A scaled field is the exact pair (raw integer, divisor). Rounding to the stated decimals is exact on these quotients, except for the double-precision error itself.
- Decoder.ScaleNumeral: only a string of decimal digits is given a value. Every other string becomes `NonDecimal(text)`, with no value computed. For most such strings JavaScript gives NaN, but two forms are numbers there and are still kept as text here. An exponent form such as `1e0200` (bytes `00 02 1e`) is read as 1e200, and `0001e2` as 100. A binary literal such as `0b1010` (power bytes `10 10 0b`) is read as 10.
- HexCodec.HexToDecimal: the value is the exact integer, for any input string. `parseInt` returns a double, so above 2^53 the source rounds where the model does not. For example, `"20000000000001"` gives 9007199254740992 there and 9007199254740993 here. (The decoder itself only parses fields of at most four bytes, which stay below 2^32.)
- Decoder.ConvertHexToDecimal: requires a hex string. In the source every call passes a reversed slice that has already passed the same guard, so `parseInt` never sees anything else.
- Decoder.MapErrorCode: the table is a map, so every string that is not one of its seven keys gets "Unknown". The source looks the code up on a plain JavaScript object, where inherited names such as `"constructor"` or `"toString"` yield a function instead of "Unknown". `decodeUplink` never passes such a name: every call passes the two characters `substring(8, 10)`.
- Decoder.DecodeUplink: `undefined` for the port or the bytes is not modelled (only `null`, as `None`). An undefined port would fall through to "Invalid uplink message."; undefined bytes would throw.
- Bytes outside 0..255 are excluded by the `Byte` type. They would break the two-characters-per-byte layout.
- The unused `result` object with its `warnings` list (lines 12-16) is left out, since no output depends on it.
- The host framework's calling convention is left out.
- JavaScript object key order is modelled as the sequence of entries in the order the source writes them. `payloadtype` is kept as a separate field of the record.
