/**
 * An independent, byte-level reading of an uplink frame: each field is the integer its bytes
 * encode least-significant byte first, the error byte is looked up by its numeric value, and
 * the power and flow fields are the little-endian binary-coded-decimal value of their bytes.
 * The main theorem says that the string pipeline of `decodeUplink` computes exactly this
 * reading on every frame of a known length, and so never throws.
 */
module Reference {
  import opened Results
  import opened HexCodec
  import opened Endian
  import opened Layouts
  import opened Decoder

  /** The error byte's meaning, by its numeric value. */
  function Describe(b: Byte): string {
    if b == 0x00 then "No error"
    else if b == 0x04 then "Power low"
    else if b == 0x08 then "Permanent error"
    else if b == 0x10 then "Empty spool + temporary error"
    else if b == 0x14 then "Power low + temporary error + empty spool"
    else if b == 0x18 then "Empty spool + temporary error + permanent error"
    else if b == 0x1c then "Power low + permanent error + empty spool + temporary error"
    else "Unknown"
  }

  /** The table's keys read as hex numbers. */
  lemma KeyValues()
    ensures ParseDigits("00", 16) == 0x00 && ParseDigits("04", 16) == 0x04
    ensures ParseDigits("08", 16) == 0x08 && ParseDigits("10", 16) == 0x10
    ensures ParseDigits("14", 16) == 0x14 && ParseDigits("18", 16) == 0x18
    ensures ParseDigits("1c", 16) == 0x1c
  {
  }

  /** Looking up the byte's two rendered digits in the string-keyed table is the same as
      looking up the byte: the rendering is lower-case and zero-padded, as the table's keys. */
  lemma DescribeMatches(b: Byte)
    ensures MapErrorCode(ByteHex(b)) == Describe(b)
  {
    if b in {0x00, 0x04, 0x08, 0x10, 0x14, 0x18, 0x1c} {
      TableByteMatches(b);
    } else {
      OtherByteMatches(b);
    }
  }

  lemma TableByteMatches(b: Byte)
    requires b in {0x00, 0x04, 0x08, 0x10, 0x14, 0x18, 0x1c}
    ensures MapErrorCode(ByteHex(b)) == Describe(b)
  {
    ByteHexDigits(b);
    ErrorCodeDescriptions();
    if b == 0x00 {
      assert ByteHex(b) == "00";
    } else if b == 0x04 {
      assert ByteHex(b) == "04";
    } else if b == 0x08 {
      assert ByteHex(b) == "08";
    } else if b == 0x10 {
      assert ByteHex(b) == "10";
    } else if b == 0x14 {
      assert ByteHex(b) == "14";
    } else if b == 0x18 {
      assert ByteHex(b) == "18";
    } else {
      assert ByteHex(b) == "1c";
    }
  }

  lemma OtherByteMatches(b: Byte)
    requires b !in {0x00, 0x04, 0x08, 0x10, 0x14, 0x18, 0x1c}
    ensures MapErrorCode(ByteHex(b)) == "Unknown"
  {
    ByteHexRoundTrip(b);
    KeyValues();
    assert ErrorCodeTable.Keys == {"00", "04", "08", "10", "14", "18", "1c"};
  }

  /** Every nibble is a decimal digit. */
  predicate IsBcd(bs: seq<Byte>) {
    forall i :: 0 <= i < |bs| ==> bs[i] / 16 < 10 && bs[i] % 16 < 10
  }

  /** A field of a frame: characters `[start, end)` of the hex string are bytes
      `[start / 2, end / 2)`. */
  predicate FieldIn(f: FieldSpec, length: nat) {
    && f.start < f.end <= 2 * length
    && f.start % 2 == 0 && f.end % 2 == 0
    && (f.kind == ErrorCode ==> f.end == f.start + 2)
  }

  function FieldBytes(bytes: seq<Byte>, f: FieldSpec): (field: seq<Byte>)
    requires FieldIn(f, |bytes|)
    ensures |field| == (f.end - f.start) / 2 > 0
  {
    bytes[f.start / 2..f.end / 2]
  }

  /** The value of one field, computed from the bytes alone. */
  function ByteValue(bytes: seq<Byte>, f: FieldSpec): Value
    requires FieldIn(f, |bytes|)
  {
    var field := FieldBytes(bytes, f);
    match f.kind
    case ErrorCode => ErrorCodes(ByteHex(field[0]), Describe(field[0]))
    case Plain => Int(LittleEndian(field))
    case Temperature => Scaled(LittleEndian(field), 100)
    case Power =>
      if IsBcd(field) then Scaled(LittleEndianDigits(field, 10), 10) else NonDecimal(BytesToHex(Reverse(field)))
    case Flow =>
      if IsBcd(field) then Scaled(LittleEndianDigits(field, 10), 1000) else NonDecimal(BytesToHex(Reverse(field)))
  }

  function ReferenceFields(bytes: seq<Byte>, fs: seq<FieldSpec>): (entries: seq<Entry>)
    requires forall i :: 0 <= i < |fs| ==> FieldIn(fs[i], |bytes|)
    ensures |entries| == |fs|
  {
    if fs == [] then [] else [Entry(fs[0].key, ByteValue(bytes, fs[0]))] + ReferenceFields(bytes, fs[1..])
  }

  /** In a well-formed tiling of a frame's hex string, every field lies inside the frame. */
  lemma TiledFieldsIn(fs: seq<FieldSpec>, length: nat)
    requires Tiles(fs, 2 * length) && WellFormed(fs)
    ensures forall i :: 0 <= i < |fs| ==> FieldIn(fs[i], length)
  {
    forall i | 0 <= i < |fs|
      ensures fs[i].end <= 2 * length
    {
      if i < |fs| - 1 {
        TilesOrdered(fs, 2 * length, i, |fs| - 1);
      }
    }
  }

  /** Every field of a layout lies inside a frame of that layout's length. */
  lemma FieldsInFrame(l: Layout)
    ensures forall i :: 0 <= i < |Fields(l)| ==> FieldIn(Fields(l)[i], l.ByteLength())
  {
    TiledFieldsIn(Fields(l), l.ByteLength());
  }

  /** The reference reading of a frame of layout `l`. */
  function Reference(l: Layout, bytes: seq<Byte>): (r: Record)
    requires |bytes| == l.ByteLength()
    ensures r.payloadtype == l.PayloadType() && |r.fields| == |Fields(l)|
  {
    FieldsInFrame(l);
    Record(l.PayloadType(), ReferenceFields(bytes, Fields(l)))
  }

  /** Element `i` of the reversed bytes is element `n - 1 - i` of the bytes. */
  lemma {:induction false} ReverseAt(bs: seq<Byte>, i: nat)
    requires i < |bs|
    ensures Reverse(bs)[i] == bs[|bs| - 1 - i]
  {
    if i < |bs| - 1 {
      ReverseAt(bs[1..], i);
    }
  }

  /** Characters `2i` and `2i+1` of the rendered bytes are the digits of byte `i`. */
  lemma RenderedDigits(bs: seq<Byte>, i: nat)
    requires i < |bs|
    ensures BytesToHex(bs)[2 * i] == DigitChar(bs[i] / 16)
    ensures BytesToHex(bs)[2 * i + 1] == DigitChar(bs[i] % 16)
  {
    var hex := BytesToHex(bs);
    BytesToHexAt(bs, i);
    ByteHexDigits(bs[i]);
    assert hex[2 * i] == hex[2 * i..2 * i + 2][0] && hex[2 * i + 1] == hex[2 * i..2 * i + 2][1];
  }

  /** The rendered bytes are a decimal numeral exactly when every nibble is a decimal digit. */
  lemma DecimalRendering(bs: seq<Byte>)
    requires |bs| > 0
    ensures IsDecimalString(BytesToHex(bs)) <==> IsBcd(bs)
  {
    if IsBcd(bs) {
      BcdRendering(bs);
    }
    if IsDecimalString(BytesToHex(bs)) {
      RenderingBcd(bs);
    }
  }

  lemma BcdRendering(bs: seq<Byte>)
    requires |bs| > 0 && IsBcd(bs)
    ensures IsDecimalString(BytesToHex(bs))
  {
    var hex := BytesToHex(bs);
    forall j | 0 <= j < |hex|
      ensures IsDecimalChar(hex[j])
    {
      var i := j / 2;
      RenderedDigits(bs, i);
      assert j == 2 * i || j == 2 * i + 1;
    }
  }

  lemma RenderingBcd(bs: seq<Byte>)
    requires IsDecimalString(BytesToHex(bs))
    ensures IsBcd(bs)
  {
    var hex := BytesToHex(bs);
    forall i | 0 <= i < |bs|
      ensures bs[i] / 16 < 10 && bs[i] % 16 < 10
    {
      RenderedDigits(bs, i);
      assert IsDecimalChar(hex[2 * i]) && IsDecimalChar(hex[2 * i + 1]);
    }
  }

  /** Reversing the bytes keeps every nibble. */
  lemma ReverseBcd(bs: seq<Byte>)
    ensures IsBcd(Reverse(bs)) <==> IsBcd(bs)
  {
    var r := Reverse(bs);
    if IsBcd(bs) {
      forall i | 0 <= i < |r|
        ensures r[i] / 16 < 10 && r[i] % 16 < 10
      {
        ReverseAt(bs, i);
      }
    }
    if IsBcd(r) {
      forall i | 0 <= i < |bs|
        ensures bs[i] / 16 < 10 && bs[i] % 16 < 10
      {
        ReverseAt(bs, |bs| - 1 - i);
      }
    }
  }

  /** The power and flow fields: multiplying the reversed hex string reads it as a decimal
      numeral, which is the little-endian BCD value of the bytes when they are BCD. */
  lemma NumeralField(bytes: seq<Byte>, f: FieldSpec, divisor: nat)
    requires FieldIn(f, |bytes|)
    ensures var field := FieldBytes(bytes, f);
      ScaleNumeral(BytesToHex(Reverse(field)), divisor)
      == if IsBcd(field) then Scaled(LittleEndianDigits(field, 10), divisor) else NonDecimal(BytesToHex(Reverse(field)))
  {
    var field := FieldBytes(bytes, f);
    var s := BytesToHex(Reverse(field));
    DecimalRendering(Reverse(field));
    ReverseBcd(field);
    if IsBcd(field) {
      ParseBytesToHex(Reverse(field), 10);
      BigEndianOfReverse(field, 10);
    }
  }

  /** The error-code field: the byte's two digits, and their description. */
  lemma ErrorCodeFieldMatches(bytes: seq<Byte>, f: FieldSpec)
    requires FieldIn(f, |bytes|) && f.kind == ErrorCode
    ensures FieldValue(BytesToHex(bytes), f) == Success(ByteValue(bytes, f))
  {
    var hex, k := BytesToHex(bytes), f.start / 2;
    var code := Substring(hex, f.start, f.end);
    assert f.start == 2 * k && f.end == 2 * k + 2;
    BytesToHexAt(bytes, k);
    assert code == ByteHex(bytes[k]);
    DescribeMatches(bytes[k]);
    assert FieldValue(hex, f) == Success(ErrorCodes(code, MapErrorCode(code)));
    assert ByteValue(bytes, f) == ErrorCodes(code, Describe(bytes[k]));
  }

  /** The byte range of a field. */
  lemma FieldRange(bytes: seq<Byte>, f: FieldSpec) returns (k: nat, n: nat)
    requires FieldIn(f, |bytes|)
    ensures f.start == 2 * k && f.end == 2 * (k + n) && 1 <= n && k + n <= |bytes|
    ensures FieldBytes(bytes, f) == bytes[k..k + n]
  {
    k, n := f.start / 2, (f.end - f.start) / 2;
  }

  /** A field other than the error code, once its reversed slice is known. */
  lemma SliceFieldValue(hex: string, f: FieldSpec, le: string)
    requires f.kind != ErrorCode && ConvertHexSliceToLittleEndian(hex, f.start, f.end) == Success(le)
    ensures IsHexString(le)
    ensures f.kind == Plain ==> FieldValue(hex, f) == Success(ConvertHexToDecimal(le, 1))
    ensures f.kind == Temperature ==> FieldValue(hex, f) == Success(ConvertHexToDecimal(le, 100))
    ensures f.kind == Power ==> FieldValue(hex, f) == Success(ScaleNumeral(le, 10))
    ensures f.kind == Flow ==> FieldValue(hex, f) == Success(ScaleNumeral(le, 1000))
  {
  }

  /** The integer fields and the temperatures: `parseInt` of the reversed slice. */
  lemma IntegerFieldMatches(bytes: seq<Byte>, f: FieldSpec)
    requires FieldIn(f, |bytes|) && f.kind in {Plain, Temperature}
    ensures FieldValue(BytesToHex(bytes), f) == Success(ByteValue(bytes, f))
  {
    var hex := BytesToHex(bytes);
    var k, n := FieldRange(bytes, f);
    HexSliceValue(bytes, k, n);
    var le := ConvertHexSliceToLittleEndian(hex, f.start, f.end).value;
    SliceFieldValue(hex, f, le);
  }

  /** The power and flow fields: the reversed slice read as a decimal numeral. */
  lemma NumeralFieldMatches(bytes: seq<Byte>, f: FieldSpec)
    requires FieldIn(f, |bytes|) && f.kind in {Power, Flow}
    ensures FieldValue(BytesToHex(bytes), f) == Success(ByteValue(bytes, f))
  {
    var hex := BytesToHex(bytes);
    var k, n := FieldRange(bytes, f);
    HexSliceField(bytes, k, n);
    var le := BytesToHex(Reverse(FieldBytes(bytes, f)));
    SliceFieldValue(hex, f, le);
    NumeralField(bytes, f, if f.kind == Power then 10 else 1000);
  }

  /** One field: the string pipeline gives the reference value and does not throw. */
  lemma FieldValueMatches(bytes: seq<Byte>, f: FieldSpec)
    requires FieldIn(f, |bytes|)
    ensures FieldValue(BytesToHex(bytes), f) == Success(ByteValue(bytes, f))
  {
    match f.kind
    case ErrorCode => ErrorCodeFieldMatches(bytes, f);
    case Plain => IntegerFieldMatches(bytes, f);
    case Temperature => IntegerFieldMatches(bytes, f);
    case Power => NumeralFieldMatches(bytes, f);
    case Flow => NumeralFieldMatches(bytes, f);
  }

  /** All fields, in order. */
  lemma {:induction false} DecodeFieldsMatches(bytes: seq<Byte>, fs: seq<FieldSpec>)
    requires forall i :: 0 <= i < |fs| ==> FieldIn(fs[i], |bytes|)
    ensures DecodeFields(BytesToHex(bytes), fs) == Success(ReferenceFields(bytes, fs))
  {
    if fs != [] {
      FieldValueMatches(bytes, fs[0]);
      DecodeFieldsMatches(bytes, fs[1..]);
    }
  }

  /** Each `process*Payload` function computes the reference reading of its layout. */
  lemma ProcessPayloadMatches(bytes: seq<Byte>, l: Layout)
    requires |bytes| == l.ByteLength()
    ensures ProcessPayload(l, BytesToHex(bytes)) == Data(Reference(l, bytes))
  {
    FieldsInFrame(l);
    DecodeFieldsMatches(bytes, Fields(l));
  }

  /** The main theorem: on port 100, a frame of one of the five known lengths decodes to the
      reference reading of its layout; it never throws and never reports an error. */
  lemma DecodeUplinkMatchesReference(bytes: seq<Byte>, l: Layout)
    requires |bytes| == l.ByteLength()
    ensures DecodeUplink(Some(100), Some(bytes)) == Data(Reference(l, bytes))
  {
    Dispatch(bytes, l);
    ProcessPayloadMatches(bytes, l);
  }

  /** No input makes `decodeUplink` throw: the hex guards always pass on a rendered frame. */
  lemma NeverThrows(fPort: Option<int>, bytes: Option<seq<Byte>>)
    ensures !DecodeUplink(fPort, bytes).Thrown?
  {
    if fPort == Some(100) && bytes.Some? && LayoutOf(|bytes.value|).Some? {
      DecodeUplinkMatchesReference(bytes.value, LayoutOf(|bytes.value|).value);
    }
  }

  /** A BasicLT frame: the timestamp is bytes 0-3 least-significant first, and the error code
      is byte 4 rendered in two lower-case digits with its description. */
  lemma BasicLTHeader(bytes: seq<Byte>)
    requires |bytes| == 35
    ensures var out := DecodeUplink(Some(100), Some(bytes));
      && out.Data? && out.data.payloadtype == "BasicLT"
      && out.data.fields[0] == Entry("timestamp", Int(LittleEndian(bytes[0..4])))
      && out.data.fields[1] == Entry("errorcodes", ErrorCodes(ByteHex(bytes[4]), Describe(bytes[4])))
  {
    DecodeUplinkMatchesReference(bytes, BasicLT);
    var fs := Fields(BasicLT);
    assert fs[0] == FieldSpec("timestamp", 0, 8, Plain) && fs[1] == FieldSpec("errorcodes", 8, 10, ErrorCode);
    FieldsInFrame(BasicLT);
    ReferenceFieldsAt(bytes, fs, 0);
    ReferenceFieldsAt(bytes, fs, 1);
  }

  /** Entry `i` of the reference reading is field `i` read from the bytes. */
  lemma {:induction false} ReferenceFieldsAt(bytes: seq<Byte>, fs: seq<FieldSpec>, i: nat)
    requires forall j :: 0 <= j < |fs| ==> FieldIn(fs[j], |bytes|)
    requires i < |fs|
    ensures ReferenceFields(bytes, fs)[i] == Entry(fs[i].key, ByteValue(bytes, fs[i]))
  {
    if i > 0 {
      ReferenceFieldsAt(bytes, fs[1..], i - 1);
    }
  }

  /** The power and flow fields read their bytes as decimal digits, not as hex: power bytes
      `10 00 00` give 10 tenths of a unit, though their little-endian integer is 16. */
  lemma PowerReadsDecimalDigits()
    ensures var field: seq<Byte> := [0x10, 0x00, 0x00];
      && ScaleNumeral(BytesToHex(Reverse(field)), 10) == Scaled(10, 10)
      && LittleEndian(field) == 16
  {
    var field: seq<Byte> := [0x10, 0x00, 0x00];
    var f := FieldSpec("powerpp", 0, 6, Power);
    assert FieldBytes(field, f) == field;
    NumeralField(field, f, 10);
    assert IsBcd(field);
    assert field[1..] == [0, 0] && field[1..][1..] == [0] && field[1..][1..][1..] == [];
  }

  /** The five known lengths and the payload type each one decodes to. */
  lemma KnownLengths(bytes: seq<Byte>)
    requires |bytes| in {30, 35, 41, 45, 48}
    ensures var out := DecodeUplink(Some(100), Some(bytes));
      && out.Data?
      && out.data.payloadtype ==
         if |bytes| == 35 then "BasicLT"
         else if |bytes| == 41 then "Basic with heating energy"
         else if |bytes| == 45 then "Basic with cooling energy"
         else if |bytes| == 48 then "Nordic"
         else "Nordic with cooling"
  {
    var l := LayoutOf(|bytes|).value;
    DecodeUplinkMatchesReference(bytes, l);
  }

  /** A 35-byte frame whose first bytes are `00 00 00 01 04` has timestamp 16777216 and
      error code "04", "Power low". */
  lemma EndToEndExample(bytes: seq<Byte>)
    requires |bytes| == 35 && bytes[..5] == [0x00, 0x00, 0x00, 0x01, 0x04]
    ensures var out := DecodeUplink(Some(100), Some(bytes));
      && out.Data?
      && out.data.fields[0] == Entry("timestamp", Int(16777216))
      && out.data.fields[1] == Entry("errorcodes", ErrorCodes("04", "Power low"))
  {
    BasicLTHeader(bytes);
    assert bytes[0..4] == [0, 0, 0, 1] && bytes[4] == 0x04;
    TimestampExample();
    ByteHexDigits(0x04);
  }
}
