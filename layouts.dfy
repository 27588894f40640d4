/**
 * The five uplink frame layouts of the Qalcosonic E3/E4 meter. A layout is chosen by the
 * frame's byte count alone; each one is a fixed list of fields, given here in the order the
 * decoder extracts them and outputs them, with the hex-character offsets it cuts them at
 * (two characters per byte) and the output key it stores them under.
 */
module Layouts {
  import opened Results

  /** How a field's characters become an output value. */
  datatype Kind =
    | Plain        // byte order reversed, read in base 16, multiplier 1: an exact integer
    | ErrorCode    // one byte, not reversed, looked up in the error-code table
    | Temperature  // byte order reversed, read in base 16, multiplier 0.01
    | Power        // byte order reversed, the string itself multiplied by 0.1
    | Flow         // byte order reversed, the string itself multiplied by 0.001

  /** A field: its output key and its hex-character range `[start, end)`. */
  datatype FieldSpec = FieldSpec(key: string, start: nat, end: nat, kind: Kind)

  datatype Layout = BasicLT | BasicWithHeat | BasicWithCool | Nordic | NordicWithCool {

    /** The frame length, in bytes, that selects this layout. */
    function ByteLength(): nat {
      match this
      case BasicLT => 35
      case BasicWithCool => 45
      case BasicWithHeat => 41
      case Nordic => 48
      case NordicWithCool => 30
    }

    /** The `payloadtype` tag of the decoded record. */
    function PayloadType(): string {
      match this
      case BasicLT => "BasicLT"
      case BasicWithHeat => "Basic with heating energy"
      case BasicWithCool => "Basic with cooling energy"
      case Nordic => "Nordic"
      case NordicWithCool => "Nordic with cooling"
    }
  }

  /** The `switch` on the byte count: exactly one layout per known length, none otherwise. */
  function LayoutOf(length: nat): (r: Option<Layout>)
    ensures forall l: Layout :: r == Some(l) <==> l.ByteLength() == length
    ensures r.None? <==> length !in {30, 35, 41, 45, 48}
  {
    match length
    case 35 => Some(BasicLT)
    case 45 => Some(BasicWithCool)
    case 41 => Some(BasicWithHeat)
    case 48 => Some(Nordic)
    case 30 => Some(NordicWithCool)
    case _ => None
  }

  /** Fields laid end to end: the first starts at 0, each starts where the previous one ends,
      the last ends at `total`; every boundary falls between two bytes. */
  predicate Tiles(fs: seq<FieldSpec>, total: nat) {
    && |fs| > 0
    && fs[0].start == 0
    && fs[|fs| - 1].end == total
    && (forall i :: 0 <= i < |fs| ==> fs[i].start < fs[i].end && fs[i].start % 2 == 0 && fs[i].end % 2 == 0)
    && (forall i :: 0 <= i < |fs| - 1 ==> fs[i].end == fs[i + 1].start)
  }

  /** The error code is a single byte, and no two fields share an output key. */
  predicate WellFormed(fs: seq<FieldSpec>) {
    && (forall i :: 0 <= i < |fs| && fs[i].kind == ErrorCode ==> fs[i].end == fs[i].start + 2)
    && (forall i, j :: 0 <= i < j < |fs| ==> fs[i].key != fs[j].key)
    && (forall i :: 0 <= i < |fs| ==> fs[i].key != "payloadtype")
  }

  /** Fields `k` onwards, read one after another, start at `pos`, run on without gaps and stop
      at `total`; each covers whole bytes. (Recursion on an index rather than on a suffix,
      so that a literal table can be checked by evaluation.) */
  predicate ContiguousFrom(fs: seq<FieldSpec>, k: nat, pos: nat, total: nat)
    decreases |fs| - k
  {
    if k >= |fs| then pos == total
    else
      && fs[k].start == pos && pos < fs[k].end && pos % 2 == 0 && fs[k].end % 2 == 0
      && ContiguousFrom(fs, k + 1, fs[k].end, total)
  }

  /** Some field from index `k` on has output key `key`. */
  predicate KeyFrom(key: string, fs: seq<FieldSpec>, k: nat)
    decreases |fs| - k
  {
    k < |fs| && (fs[k].key == key || KeyFrom(key, fs, k + 1))
  }

  /** `WellFormed`, field by field from index `k` on. */
  predicate WellFormedFrom(fs: seq<FieldSpec>, k: nat)
    decreases |fs| - k
  {
    k < |fs| ==>
      && (fs[k].kind == ErrorCode ==> fs[k].end == fs[k].start + 2)
      && fs[k].key != "payloadtype"
      && !KeyFrom(fs[k].key, fs, k + 1)
      && WellFormedFrom(fs, k + 1)
  }

  lemma {:induction false} KeyFromAt(key: string, fs: seq<FieldSpec>, k: nat, j: nat)
    requires k <= j < |fs| && fs[j].key == key
    ensures KeyFrom(key, fs, k)
    decreases j - k
  {
    if k < j {
      KeyFromAt(key, fs, k + 1, j);
    }
  }

  /** A table that checks out field by field from index `k` satisfies the quantified
      properties from `k` on. */
  lemma {:induction false} TableChecks(fs: seq<FieldSpec>, k: nat, pos: nat, total: nat)
    requires k < |fs| && ContiguousFrom(fs, k, pos, total) && WellFormedFrom(fs, k)
    ensures fs[k].start == pos && fs[|fs| - 1].end == total
    ensures forall i :: k <= i < |fs| ==> fs[i].start < fs[i].end && fs[i].start % 2 == 0 && fs[i].end % 2 == 0
    ensures forall i :: k <= i < |fs| - 1 ==> fs[i].end == fs[i + 1].start
    ensures forall i :: k <= i < |fs| && fs[i].kind == ErrorCode ==> fs[i].end == fs[i].start + 2
    ensures forall i :: k <= i < |fs| ==> fs[i].key != "payloadtype"
    ensures forall i, j :: k <= i < j < |fs| ==> fs[i].key != fs[j].key
    decreases |fs| - k
  {
    if k + 1 < |fs| {
      TableChecks(fs, k + 1, fs[k].end, total);
      forall j | k < j < |fs|
        ensures fs[j].key != fs[k].key
      {
        if fs[j].key == fs[k].key {
          KeyFromAt(fs[k].key, fs, k + 1, j);
        }
      }
    }
  }

  /** The check of a layout table: evaluated field by field, it tiles the frame and is
      well formed. */
  lemma CheckTable(fs: seq<FieldSpec>, byteLength: nat)
    requires fs != [] && ContiguousFrom(fs, 0, 0, 2 * byteLength) && WellFormedFrom(fs, 0)
    ensures Tiles(fs, 2 * byteLength) && WellFormed(fs)
  {
    TableChecks(fs, 0, 0, 2 * byteLength);
  }

  /** `processBasicLTPayload`. */
  function BasicLTFields(): seq<FieldSpec>
  {
    [ FieldSpec("timestamp", 0, 8, Plain),
      FieldSpec("errorcodes", 8, 10, ErrorCode),
      FieldSpec("energyheatpp", 10, 18, Plain),
      FieldSpec("energycoolpp", 18, 26, Plain),
      FieldSpec("volumepp", 26, 34, Plain),
      FieldSpec("powerpp", 34, 40, Power),
      FieldSpec("flowpp", 40, 46, Flow),
      FieldSpec("temp1pp", 46, 50, Temperature),
      FieldSpec("temp2pp", 50, 54, Temperature),
      FieldSpec("workingtime", 54, 62, Plain),
      FieldSpec("storeperiod", 62, 70, Plain) ]
  }

  /** `processBasicHeatPayload`. */
  function BasicWithHeatFields(): seq<FieldSpec>
  {
    [ FieldSpec("timestamp", 0, 8, Plain),
      FieldSpec("errorcodes", 8, 10, ErrorCode),
      FieldSpec("energyheat", 10, 18, Plain),
      FieldSpec("volume", 18, 26, Plain),
      FieldSpec("energyheatpp1", 26, 34, Plain),
      FieldSpec("volumepp1", 34, 42, Plain),
      FieldSpec("energyheatpp2", 42, 50, Plain),
      FieldSpec("volumepp2", 50, 58, Plain),
      FieldSpec("energyheatpp3", 58, 66, Plain),
      FieldSpec("volumepp3", 66, 74, Plain),
      FieldSpec("storeperiod", 74, 82, Plain) ]
  }

  /** `processBasicCoolPayload`. */
  function BasicWithCoolFields(): seq<FieldSpec>
  {
    [ FieldSpec("timestamp", 0, 8, Plain),
      FieldSpec("errorcodes", 8, 10, ErrorCode),
      FieldSpec("energyheat", 10, 18, Plain),
      FieldSpec("energycool", 18, 26, Plain),
      FieldSpec("volume", 26, 34, Plain),
      FieldSpec("energyheatpp1", 34, 42, Plain),
      FieldSpec("energycoolpp1", 42, 50, Plain),
      FieldSpec("volumepp1", 50, 58, Plain),
      FieldSpec("energyheatpp2", 58, 66, Plain),
      FieldSpec("energycoolpp2", 66, 74, Plain),
      FieldSpec("volumepp2", 74, 82, Plain),
      FieldSpec("storeperiod", 82, 90, Plain) ]
  }

  /** `processNordicPayload`: no error code; two sub-periods of seven fields each. */
  function NordicFields(): seq<FieldSpec>
  {
    [ FieldSpec("timestamp", 0, 8, Plain),
      FieldSpec("timestamppp1", 8, 16, Plain),
      FieldSpec("energypp1", 16, 24, Plain),
      FieldSpec("volumepp1", 24, 32, Plain),
      FieldSpec("powerpp1", 32, 38, Power),
      FieldSpec("flowpp1", 38, 44, Flow),
      FieldSpec("temp1pp1", 44, 48, Temperature),
      FieldSpec("temp2pp1", 48, 52, Temperature),
      FieldSpec("timestamppp2", 52, 60, Plain),
      FieldSpec("energypp2", 60, 68, Plain),
      FieldSpec("volumepp2", 68, 76, Plain),
      FieldSpec("powerpp2", 76, 82, Power),
      FieldSpec("flowpp2", 82, 88, Flow),
      FieldSpec("temp1pp2", 88, 92, Temperature),
      FieldSpec("temp2pp2", 92, 96, Temperature) ]
  }

  /** `processNordicCoolPayload`: no error code; one sub-period with heat and cool energy. */
  function NordicWithCoolFields(): seq<FieldSpec>
  {
    [ FieldSpec("timestamp", 0, 8, Plain),
      FieldSpec("timestamppp1", 8, 16, Plain),
      FieldSpec("energyhpp1", 16, 24, Plain),
      FieldSpec("energycpp1", 24, 32, Plain),
      FieldSpec("volumepp1", 32, 40, Plain),
      FieldSpec("powerpp1", 40, 46, Power),
      FieldSpec("flowpp1", 46, 52, Flow),
      FieldSpec("temp1pp1", 52, 56, Temperature),
      FieldSpec("temp2pp1", 56, 60, Temperature) ]
  }

  /** The BasicLT offsets tile the 35-byte frame. */
  lemma BasicLTTiles()
    ensures Tiles(BasicLTFields(), 2 * BasicLT.ByteLength()) && WellFormed(BasicLTFields())
  {
    BasicLTContiguous();
    BasicLTKeys();
    CheckTable(BasicLTFields(), BasicLT.ByteLength());
  }

  /* Each table is checked by evaluating `ContiguousFrom` and `WellFormedFrom` on the literal.
     The two checks are separate lemmas, and the key check first evaluates the table from a
     field in its middle (`...KeysFrom<k>`), then from the start with that result in hand, so
     that no single proof unrolls the whole table's pairwise key comparison. The split index
     has no meaning in the source: it is roughly half the table (and, for the 15-field Nordic
     table, successive halvings). */
  lemma BasicLTContiguous()
    ensures ContiguousFrom(BasicLTFields(), 0, 0, 2 * BasicLT.ByteLength())
  {
  }

  lemma BasicLTKeys()
    ensures WellFormedFrom(BasicLTFields(), 0)
  {
    BasicLTKeysFrom4();
  }

  /** Keys of fields 4 onwards: the second half of the table's key check. */
  lemma BasicLTKeysFrom4()
    ensures WellFormedFrom(BasicLTFields(), 4)
  {
  }

  /** The "Basic with heating energy" offsets tile the 41-byte frame. */
  lemma BasicWithHeatTiles()
    ensures Tiles(BasicWithHeatFields(), 2 * BasicWithHeat.ByteLength()) && WellFormed(BasicWithHeatFields())
  {
    BasicWithHeatContiguous();
    BasicWithHeatKeys();
    CheckTable(BasicWithHeatFields(), BasicWithHeat.ByteLength());
  }

  lemma BasicWithHeatContiguous()
    ensures ContiguousFrom(BasicWithHeatFields(), 0, 0, 2 * BasicWithHeat.ByteLength())
  {
  }

  lemma BasicWithHeatKeys()
    ensures WellFormedFrom(BasicWithHeatFields(), 0)
  {
    BasicWithHeatKeysFrom5();
  }

  /** Keys of fields 5 onwards: the second half of the table's key check. */
  lemma BasicWithHeatKeysFrom5()
    ensures WellFormedFrom(BasicWithHeatFields(), 5)
  {
  }

  /** The "Basic with cooling energy" offsets tile the 45-byte frame. */
  lemma BasicWithCoolTiles()
    ensures Tiles(BasicWithCoolFields(), 2 * BasicWithCool.ByteLength()) && WellFormed(BasicWithCoolFields())
  {
    BasicWithCoolContiguous();
    BasicWithCoolKeys();
    CheckTable(BasicWithCoolFields(), BasicWithCool.ByteLength());
  }

  lemma BasicWithCoolContiguous()
    ensures ContiguousFrom(BasicWithCoolFields(), 0, 0, 2 * BasicWithCool.ByteLength())
  {
  }

  lemma BasicWithCoolKeys()
    ensures WellFormedFrom(BasicWithCoolFields(), 0)
  {
    BasicWithCoolKeysFrom6();
  }

  /** Keys of fields 6 onwards: the second half of the table's key check. */
  lemma BasicWithCoolKeysFrom6()
    ensures WellFormedFrom(BasicWithCoolFields(), 6)
  {
  }

  /** The Nordic offsets tile the 48-byte frame. */
  lemma NordicTiles()
    ensures Tiles(NordicFields(), 2 * Nordic.ByteLength()) && WellFormed(NordicFields())
  {
    NordicChecks();
    CheckTable(NordicFields(), Nordic.ByteLength());
  }

  lemma NordicChecks()
    ensures ContiguousFrom(NordicFields(), 0, 0, 2 * Nordic.ByteLength())
    ensures WellFormedFrom(NordicFields(), 0)
  {
    NordicContiguous();
    NordicKeys();
  }

  lemma NordicContiguous()
    ensures ContiguousFrom(NordicFields(), 0, 0, 2 * Nordic.ByteLength())
  {
  }

  /** The Nordic key check, evaluated from field 8, then 4, 2, 1 and 0, each step reusing the
      previous one. */
  lemma NordicKeys()
    ensures WellFormedFrom(NordicFields(), 0)
  {
    NordicKeysFrom1();
  }

  lemma NordicKeysFrom1()
    ensures WellFormedFrom(NordicFields(), 1)
  {
    NordicKeysFrom2();
  }

  lemma NordicKeysFrom2()
    ensures WellFormedFrom(NordicFields(), 2)
  {
    NordicKeysFrom4();
  }

  lemma NordicKeysFrom4()
    ensures WellFormedFrom(NordicFields(), 4)
  {
    NordicKeysFrom8();
  }

  lemma NordicKeysFrom8()
    ensures WellFormedFrom(NordicFields(), 8)
  {
  }

  /** The "Nordic with cooling" offsets tile the 30-byte frame. */
  lemma NordicWithCoolTiles()
    ensures Tiles(NordicWithCoolFields(), 2 * NordicWithCool.ByteLength()) && WellFormed(NordicWithCoolFields())
  {
    CheckTable(NordicWithCoolFields(), NordicWithCool.ByteLength());
  }

  /** The field table of a layout. */
  function Fields(l: Layout): (fs: seq<FieldSpec>)
    ensures Tiles(fs, 2 * l.ByteLength()) && WellFormed(fs)
  {
    match l
    case BasicLT => BasicLTTiles(); BasicLTFields()
    case BasicWithHeat => BasicWithHeatTiles(); BasicWithHeatFields()
    case BasicWithCool => BasicWithCoolTiles(); BasicWithCoolFields()
    case Nordic => NordicTiles(); NordicFields()
    case NordicWithCool => NordicWithCoolTiles(); NordicWithCoolFields()
  }

  predicate Covers(f: FieldSpec, p: nat) {
    f.start <= p < f.end
  }

  /** In a tiling, an earlier field ends no later than a later one starts. */
  lemma {:induction false} TilesOrdered(fs: seq<FieldSpec>, total: nat, i: nat, j: nat)
    requires Tiles(fs, total) && i < j < |fs|
    ensures fs[i].end <= fs[j].start
    decreases j - i
  {
    if i + 1 < j {
      TilesOrdered(fs, total, i + 1, j);
    }
  }

  /** Some field at index `k` or later covers character `p`. */
  lemma {:induction false} CoveringField(fs: seq<FieldSpec>, total: nat, p: nat, k: nat) returns (i: nat)
    requires Tiles(fs, total) && p < total && k < |fs| && fs[k].start <= p
    ensures k <= i < |fs| && Covers(fs[i], p)
    decreases |fs| - k
  {
    if p < fs[k].end {
      i := k;
    } else {
      i := CoveringField(fs, total, p, k + 1);
    }
  }

  /** In a tiling of `[0, total)`, every character is read by exactly one field, and no field
      reads past `total`. */
  lemma EachCharReadOnce(fs: seq<FieldSpec>, total: nat, p: nat)
    requires Tiles(fs, total) && p < total
    ensures exists i :: 0 <= i < |fs| && Covers(fs[i], p)
    ensures forall i, j :: 0 <= i < |fs| && 0 <= j < |fs| && Covers(fs[i], p) && Covers(fs[j], p) ==> i == j
    ensures forall i :: 0 <= i < |fs| ==> fs[i].end <= total
  {
    var i := CoveringField(fs, total, p, 0);
    forall i, j | 0 <= i < |fs| && 0 <= j < |fs| && Covers(fs[i], p) && Covers(fs[j], p)
      ensures i == j
    {
      if i < j {
        TilesOrdered(fs, total, i, j);
      } else if j < i {
        TilesOrdered(fs, total, j, i);
      }
    }
    forall i | 0 <= i < |fs|
      ensures fs[i].end <= total
    {
      if i < |fs| - 1 {
        TilesOrdered(fs, total, i, |fs| - 1);
      }
    }
  }
}
