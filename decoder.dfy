/**
 * `decodeUplink`: the validation ladder on the port and the byte array, the rendering of the
 * bytes as a hex string, the dispatch on the byte count, and the per-field conversions
 * (`convertHexToDecimal`, the error-code lookup, and the power and flow fields that multiply
 * the reversed hex string itself).
 */
module Decoder {
  import opened Results
  import opened HexCodec
  import opened Endian
  import opened Layouts

  /** A decoded field value. Scaled values are kept exact, as `raw / divisor`. */
  datatype Value =
    | Int(n: nat)                                   // multiplier 1: the exact integer
    | Scaled(raw: nat, divisor: nat)                // the integer times 1 / divisor
    | NonDecimal(text: string)                      // power or flow not all digits: value not computed
    | ErrorCodes(code: string, description: string) // the `errorcodes` object

  datatype Entry = Entry(key: string, value: Value)

  /** The `data` object: the `payloadtype` tag, then the fields in output order. */
  datatype Record = Record(payloadtype: string, fields: seq<Entry>)

  /** What `decodeUplink` returns (`{ data }` or `{ errors }`), or the exception that would
      escape it if a hex guard failed. */
  datatype Output = Data(data: Record) | Errors(errors: seq<string>) | Thrown(exception: HexError)

  /** The error-code descriptions, keyed by the code's two lower-case hex digits. */
  const ErrorCodeTable: map<string, string> := map[
    "04" := "Power low",
    "08" := "Permanent error",
    "10" := "Empty spool + temporary error",
    "14" := "Power low + temporary error + empty spool",
    "18" := "Empty spool + temporary error + permanent error",
    "1c" := "Power low + permanent error + empty spool + temporary error",
    "00" := "No error"
  ]

  /** `mapErrorCode`: the table's description, or "Unknown" for any code not in it. */
  function MapErrorCode(errorCode: string): (description: string)
    ensures description != "Unknown" <==> errorCode in ErrorCodeTable
    ensures description == "Unknown" || description in ErrorCodeTable.Values
  {
    if errorCode in ErrorCodeTable then ErrorCodeTable[errorCode] else "Unknown"
  }

  /** The seven documented codes and their descriptions. */
  lemma ErrorCodeDescriptions()
    ensures MapErrorCode("00") == "No error"
    ensures MapErrorCode("04") == "Power low"
    ensures MapErrorCode("08") == "Permanent error"
    ensures MapErrorCode("10") == "Empty spool + temporary error"
    ensures MapErrorCode("14") == "Power low + temporary error + empty spool"
    ensures MapErrorCode("18") == "Empty spool + temporary error + permanent error"
    ensures MapErrorCode("1c") == "Power low + permanent error + empty spool + temporary error"
    ensures |ErrorCodeTable| == 7
  {
    assert ErrorCodeTable.Keys == {"00", "04", "08", "10", "14", "18", "1c"};
  }

  /** `convertHexToDecimal(hexString, multiplier)` with `multiplier` written as `1 / divisor`:
      `parseInt(hexString, 16)` exactly for multiplier 1, otherwise scaled. The rounding of the
      scaled result to three decimals is exact on `raw / divisor` for divisor 100. */
  function ConvertHexToDecimal(hexString: string, divisor: nat): (v: Value)
    requires IsHexString(hexString)
    ensures divisor == 1 ==> v == Int(HexToDecimal(hexString).value)
    ensures divisor != 1 ==> v == Scaled(HexToDecimal(hexString).value, divisor)
  {
    var decimalValue := ParseDigits(hexString, 16);
    if divisor == 1 then Int(decimalValue) else Scaled(decimalValue, divisor)
  }

  predicate IsDecimalString(s: string) {
    |s| > 0 && forall i :: 0 <= i < |s| ==> IsDecimalChar(s[i])
  }

  /** The power and flow fields multiply the reversed hex string itself, so JavaScript reads it
      as a number literal. A string of decimal digits becomes its decimal value, scaled. Any other
      string is kept as text, its value not computed: JavaScript makes most of them NaN, but
      reads an exponent form (`1e0200`) or a binary literal (`0b1010`) as a number. */
  function ScaleNumeral(s: string, divisor: nat): (v: Value)
    ensures IsDecimalString(s) ==> v.Scaled? && v.divisor == divisor
    ensures !IsDecimalString(s) ==> v == NonDecimal(s)
  {
    if IsDecimalString(s) then
      assert AllHexChars(s);
      Scaled(ParseDigits(s, 10), divisor)
    else NonDecimal(s)
  }

  /** Printing a number in decimal and multiplying the numeral gives back the number. */
  lemma ScaleNumeralRoundTrip(n: nat, divisor: nat)
    ensures ScaleNumeral(ToDigits(n, 10), divisor) == Scaled(n, divisor)
  {
    var s := ToDigits(n, 10);
    assert forall i :: 0 <= i < |s| ==> DigitValue(s[i]) < 10;
    ParseToDigits(n, 10);
  }

  /** One field of a `process*Payload` function. */
  function FieldValue(hexString: string, f: FieldSpec): (r: Result<Value, HexError>)
    ensures f.kind == ErrorCode ==> r.Success? && r.value.ErrorCodes?
    ensures f.kind != ErrorCode ==> r.Success? == ConvertHexSliceToLittleEndian(hexString, f.start, f.end).Success?
  {
    match f.kind
    case ErrorCode =>
      var errorCode := Substring(hexString, f.start, f.end);
      Success(ErrorCodes(errorCode, MapErrorCode(errorCode)))
    case Plain =>
      var le :- ConvertHexSliceToLittleEndian(hexString, f.start, f.end);
      Success(ConvertHexToDecimal(le, 1))
    case Temperature =>
      var le :- ConvertHexSliceToLittleEndian(hexString, f.start, f.end);
      Success(ConvertHexToDecimal(le, 100))
    case Power =>
      var le :- ConvertHexSliceToLittleEndian(hexString, f.start, f.end);
      Success(ScaleNumeral(le, 10))
    case Flow =>
      var le :- ConvertHexSliceToLittleEndian(hexString, f.start, f.end);
      Success(ScaleNumeral(le, 1000))
  }

  /** The fields of a layout in order; the first field whose hex guard fails throws. */
  function DecodeFields(hexString: string, fs: seq<FieldSpec>): (r: Result<seq<Entry>, HexError>)
    ensures r.Success? ==> |r.value| == |fs|
    ensures r.Success? ==> forall i :: 0 <= i < |fs| ==> r.value[i].key == fs[i].key
    ensures r.Success? <==> forall i :: 0 <= i < |fs| ==> FieldValue(hexString, fs[i]).Success?
  {
    if fs == [] then Success([])
    else
      var value :- FieldValue(hexString, fs[0]);
      var rest :- DecodeFields(hexString, fs[1..]);
      Success([Entry(fs[0].key, value)] + rest)
  }

  /** The five `process*Payload` functions: the layout's fields, tagged with its payload type. */
  function ProcessPayload(l: Layout, hexString: string): (r: Output)
    ensures r.Data? ==> r.data.payloadtype == l.PayloadType() && |r.data.fields| == |Fields(l)|
    ensures !r.Errors?
  {
    match DecodeFields(hexString, Fields(l))
    case Success(fields) => Data(Record(l.PayloadType(), fields))
    case Failure(e) => Thrown(e)
  }

  /** `createError`. */
  function CreateError(message: string): Output {
    Errors([message])
  }

  /** The message for a frame of unexpected length; the length is printed in decimal. */
  function UnknownLengthMessage(length: nat): (message: string)
    ensures |message| > 35
    ensures message[..29] == "Unknown payload length/type: " && message[|message| - 6..] == " bytes"
    ensures AllHexChars(message[29..|message| - 6]) && ParseDigits(message[29..|message| - 6], 10) == length
  {
    var digits := ToDigits(length, 10);
    ParseToDigits(length, 10);
    Middle("Unknown payload length/type: ", digits, " bytes", 29, 29 + |digits|);
    "Unknown payload length/type: " + digits + " bytes"
  }

  /** `decodeUplink`. A missing port or byte array is `None`. */
  function DecodeUplink(fPort: Option<int>, bytes: Option<seq<Byte>>): (r: Output)
    ensures r.Errors? ==> |r.errors| == 1
    ensures r.Data? ==> fPort == Some(100) && bytes.Some? && LayoutOf(|bytes.value|).Some?
    ensures r.Data? ==> r.data.payloadtype == LayoutOf(|bytes.value|).value.PayloadType()
  {
    if fPort.None? then CreateError("Unknown or null fPort value")
    else if fPort.value == 101 then CreateError("Configuration message type.")
    else if fPort.value != 100 then CreateError("Invalid uplink message.")
    else if bytes.None? then CreateError("Empty hex bytes field")
    else DecodeFrame(bytes.value)
  }

  /** The rest of `decodeUplink` on port 100: render the bytes as hex, then switch on their
      count. */
  function DecodeFrame(bytes: seq<Byte>): (r: Output)
    ensures r.Errors? <==> LayoutOf(|bytes|).None?
    ensures r.Errors? ==> r == Errors([UnknownLengthMessage(|bytes|)])
  {
    var hexString := BytesToHex(bytes);
    match LayoutOf(|bytes|)
    case Some(l) => ProcessPayload(l, hexString)
    case None => CreateError(UnknownLengthMessage(|bytes|))
  }

  /** The validation ladder: each rejected input gets exactly one error and no data, in this
      order of precedence. */
  lemma ValidationLadder(fPort: Option<int>, bytes: Option<seq<Byte>>)
    ensures fPort.None? ==> DecodeUplink(fPort, bytes) == Errors(["Unknown or null fPort value"])
    ensures fPort == Some(101) ==> DecodeUplink(fPort, bytes) == Errors(["Configuration message type."])
    ensures fPort.Some? && fPort.value !in {100, 101} ==> DecodeUplink(fPort, bytes) == Errors(["Invalid uplink message."])
    ensures fPort == Some(100) && bytes.None? ==> DecodeUplink(fPort, bytes) == Errors(["Empty hex bytes field"])
  {
  }

  /** On port 100, a frame of a known length goes to its layout's decoder, applied to the
      frame's hex rendering. */
  lemma Dispatch(bytes: seq<Byte>, l: Layout)
    requires |bytes| == l.ByteLength()
    ensures DecodeUplink(Some(100), Some(bytes)) == ProcessPayload(l, BytesToHex(bytes))
  {
    assert DecodeUplink(Some(100), Some(bytes)) == DecodeFrame(bytes);
    assert LayoutOf(|bytes|) == Some(l);
  }

  /** A frame of any other length is rejected with one error naming its length in decimal
      (`ParseToDigits` reads that number back as the length). */
  lemma UnknownLength(bytes: seq<Byte>)
    requires |bytes| !in {30, 35, 41, 45, 48}
    ensures DecodeUplink(Some(100), Some(bytes)) == Errors([UnknownLengthMessage(|bytes|)])
  {
    assert LayoutOf(|bytes|).None?;
  }
}
