// Starlight Xpress camera driver (the SEDI_Camera2 version of sx.c): the
// 8- and 18-byte USB command blocks, the decoding of the camera-model and
// CCD-parameter replies, the guide-port mask, the image-array bookkeeping,
// the unpacking of a progressive frame, the Torben median and the listing
// of detected cameras.
//
// USB transfers are not modelled: a request is the command block it would
// send, and a reply is given as the bytes that came back.

module Sx {
  import opened Bytes
  import Telescope
  import Bits

  // ---------------------------------------------------------------------
  // Constants

  const SX_MAX_CAMERAS: nat := 128

  /** The product ids of the supported cameras, in table order (the zero
      that ends the C table is not part of this sequence). */
  const CAM_PIDS: seq<int> := [
    0x0507, 0x0509, 0x0517, 0x0519, 0x0100, 0x0115, 0x0119, 0x0719,
    0x0720, 0x0319, 0x0126, 0x0127, 0x0128, 0x0135, 0x0136, 0x0137,
    0x0139, 0x0174, 0x0374, 0x0194, 0x0394, 0x0198, 0x0398, 0x0105,
    0x0107, 0x0109, 0x0305, 0x0307, 0x0308, 0x0325, 0x0326, 0x0200]

  const CAM_DESCRIPTIONS: seq<string> := [
    "Lodestar", "Superstar", "CoStar", "Oculus", "SXVRH9", "SXVRH5", "SXVRH9",
    "LuntLSI", "LuntHLSI", "SXVRH9C", "SXVRH16", "SXVRH17", "SXVRH18",
    "SXVRH35", "SXVRH36", "SXVRH360", "SXVRH390", "SXVRH674", "SXVRH674C",
    "SXVRH694", "SXVRH694C", "SXVRH814", "SXVRH814C", "SXVFM5", "SXVFM7",
    "SXVRM9", "SXVRM5C", "SXVRM7C", "SXVRM8C", "SXVRM25C", "SXVRM26C",
    "SXVInterface"]

  /** enum RowData */
  const SX_ODD_ROWS: Byte := 1
  const SX_EVEN_ROWS: Byte := 2
  const SX_ALL_ROWS: Byte := 3

  /** enum SXGuide */
  const SX_WEST: bv8 := 1
  const SX_SOUTH: bv8 := 2
  const SX_NORTH: bv8 := 4
  const SX_EAST: bv8 := 8
  const SX_STOP: bv8 := 16
  const SX_STOP_ALL: bv8 := 0

  /** An `unsigned int`. */
  type U32 = x: int | 0 <= x < 0x1_0000_0000

  /** The conversion of a `long` to `unsigned int`. */
  function ToU32(v: int): (u: U32)
    ensures 0 <= v < 0x1_0000_0000 ==> u == v
  {
    v % 0x1_0000_0000
  }

  /** The low byte of a value, `v & 0xFF`. */
  function Lo(v: nat): (b: Byte)
    ensures v < 256 ==> b == v
  {
    v % 256
  }

  /** `v >> 8` stored in an `unsigned char`. */
  function Hi(v: nat): (c: Byte)
  {
    (v / 256) % 256
  }

  /** Two bytes read least significant first, `lo | hi << 8`. */
  function LE16(lo: Byte, hi: Byte): (v: UShort)
  {
    lo + 256 * hi
  }

  lemma LE16OfLoHi(v: nat)
    requires v < 0x1_0000
    ensures LE16(Lo(v), Hi(v)) == v
  {
  }

  // ---------------------------------------------------------------------
  // Command blocks

  /** The 8-byte header every command starts with: request type, request,
      value (2 bytes), index (2 bytes) and the length of what follows. */
  function Header(kind: Byte, request: Byte, value: Byte, id: Byte, length: Byte): (b: seq<Byte>)
    ensures |b| == 8
  {
    [kind, request, value, 0, id, 0, length, 0]
  }

  /** sx_reset */
  function ResetBlock(id: Byte): (s: seq<Byte>) { Header(64, 6, 0, id, 0) }

  /** The camera-model query of sx_get_camera_info (a 2-byte reply). */
  function ModelBlock(id: Byte): (s: seq<Byte>) { Header(192, 14, 0, id, 2) }

  /** The CCD-parameter query of sx_get_camera_info (a 17-byte reply). */
  function CcdParamsBlock(id: Byte): (s: seq<Byte>) { Header(64, 8, 0, id, 17) }

  /** sx_get_firmware_version's query (a 4-byte reply). */
  function FirmwareBlock(): (s: seq<Byte>) { Header(64, 255, 0, 0, 4) }

  /** sx_get_row_data: the header, then x, y, x_wid and y_wid least
      significant byte first, then the two bin factors. */
  function RowDataBlock(rows: Byte, id: Byte, x: U32, y: U32, xWid: U32, yWid: U32, xBin: U32, yBin: U32): (b: seq<Byte>)
  {
    Header(64, 3, rows, id, 10)
    + [Lo(x), Hi(x), Lo(y), Hi(y), Lo(xWid), Hi(xWid), Lo(yWid), Hi(yWid), Lo(xBin), Lo(yBin)]
  }

  /** The CommandBlock array of sx_get_row_data, filled entry by entry. */
  method RowDataCommand(rows: Byte, id: Byte, x: U32, y: U32, xWid: U32, yWid: U32, xBin: U32, yBin: U32)
    returns (block: seq<Byte>)
    ensures block == RowDataBlock(rows, id, x, y, xWid, yWid, xBin, yBin)
  {
    var a := new Byte[18];
    a[0] := 64;
    a[1] := 3;
    a[2] := rows;
    a[3] := 0;
    a[4] := id;
    a[5] := 0;
    a[6] := 10;
    a[7] := 0;
    a[8] := Lo(x);
    a[9] := Hi(x);
    a[10] := Lo(y);
    a[11] := Hi(y);
    a[12] := Lo(xWid);
    a[13] := Hi(xWid);
    a[14] := Lo(yWid);
    a[15] := Hi(yWid);
    a[16] := Lo(xBin);
    a[17] := Lo(yBin);
    block := a[..];
  }

  /** The camera reads the region back out of the block: for coordinates
      below 65536 and bins below 256 every field survives the encoding. */
  lemma RowDataFields(rows: Byte, id: Byte, x: U32, y: U32, xWid: U32, yWid: U32, xBin: U32, yBin: U32)
    requires x < 0x1_0000 && y < 0x1_0000 && xWid < 0x1_0000 && yWid < 0x1_0000
    requires xBin < 256 && yBin < 256
    ensures var b := RowDataBlock(rows, id, x, y, xWid, yWid, xBin, yBin);
      |b| == 18 && b[..8] == Header(64, 3, rows, id, 10) && b[6] == |b| - 8
      && LE16(b[8], b[9]) == x && LE16(b[10], b[11]) == y
      && LE16(b[12], b[13]) == xWid && LE16(b[14], b[15]) == yWid
      && b[16] == xBin && b[17] == yBin
  {
    LE16OfLoHi(x);
    LE16OfLoHi(y);
    LE16OfLoHi(xWid);
    LE16OfLoHi(yWid);
  }

  // ---------------------------------------------------------------------
  // Camera information

  /** What sx_get_camera_info stores in struct ccd_capability (the pixel
      sizes, which are floating point, are not modelled). */
  datatype CameraCap = CameraCap(
    snum: string, interlaced: bool, colour: bool,
    maxH: int, maxV: int, bitspp: Byte, maxAdu: Option<int>,
    canPulseGuide: bool, canSetCcdTemp: bool, hasShutter: bool)

  /** The interlacing rule in one formula: bit 6 of the model number, or
      model 0x84, marks an interlaced chip, except for the models whose low
      five bits are 0x16 to 0x19. */
  predicate InterlacedModel(modnum: UShort)
  {
    var m := modnum as bv16;
    (m & 0x40 != 0 || m == 0x84) && !(0x16 <= m & 0x1F <= 0x19)
  }

  /** `(1 << bits) - 1` in a C int: undefined (None) once the shift reaches
      the sign bit. */
  function MaxAdu(bits: Byte): (r: Option<int>)
    ensures r.Some? <==> bits < 31
    ensures r.Some? ==> r.value + 1 == Bits.Pow2(bits)
  {
    if bits < 31 then Some(Bits.Pow2(bits) - 1) else None
  }

  /** The IsInterlaced decisions of sx_get_camera_info, one after the other:
      bit 6 of the model number, then model 0x84, then the low five bits. */
  function Interlaced(modnum: UShort): (b: bool)
    ensures b <==> InterlacedModel(modnum)
  {
    var m := modnum as bv16;
    var byBit := m & 0x40 != 0;
    var byModel := if m == 0x84 then true else byBit;
    var low := m & 0x1F;
    if low == 0x16 || low == 0x17 || low == 0x18 || low == 0x19 then false else byModel
  }

  /** IsColour: the top bit of the model reply's first byte. */
  function Colour(b: Byte): (c: bool)
    ensures c <==> b >= 0x80
  {
    b as bv8 & 0x80 != 0
  }

  /** sx_get_camera_info, given the 2-byte model reply and the 17-byte CCD
      parameter reply. */
  function CameraInfo(model: seq<Byte>, ccd: seq<Byte>): (c: CameraCap)
    requires |model| >= 2 && |ccd| >= 17
    ensures c.interlaced <==> InterlacedModel(LE16(model[0], model[1]))
    ensures c.colour <==> model[0] >= 0x80
    ensures c.maxH == LE16(ccd[2], ccd[3])
    ensures c.maxV == (if c.interlaced then 2 else 1) * LE16(ccd[6], ccd[7])
    ensures c.bitspp == ccd[14] && (c.maxAdu.Some? ==> c.maxAdu.value == Bits.Pow2(ccd[14]) - 1)
  {
    var modnum := LE16(model[0], model[1]);
    var interlaced := Interlaced(modnum);
    var flags := ccd[16] as bv8;
    var maxV := LE16(ccd[6], ccd[7]);
    CameraCap(
      FormatInt(modnum), interlaced, Colour(model[0]),
      LE16(ccd[2], ccd[3]), if interlaced then maxV * 2 else maxV,
      ccd[14], MaxAdu(ccd[14]),
      flags & 0x01 != 0, flags & 0x10 != 0, flags & 0x20 != 0)
  }

  /** A CCD-parameter reply as a camera sends it: width and height little
      endian at 2 and 6, bits per pixel at 14, capability flags at 16. */
  function CcdReply(width: UShort, height: UShort, bits: Byte, caps: Byte): (r: seq<Byte>)
    ensures |r| == 17
  {
    [0, 0, Lo(width), Hi(width), 0, 0, Lo(height), Hi(height),
     0, 0, 0, 0, 0, 0, bits, 0, caps]
  }

  /** Decoding a camera's reply recovers its chip size (the height doubled
      for an interlaced chip), its depth and its capability flags. */
  lemma CameraInfoRoundTrip(model: seq<Byte>, width: UShort, height: UShort, bits: Byte, caps: Byte)
    requires |model| >= 2
    ensures var c := CameraInfo(model, CcdReply(width, height, bits, caps));
      c.maxH == width && c.maxV == (if c.interlaced then 2 * height else height)
      && c.bitspp == bits
      && (c.canPulseGuide <==> (caps / 1) % 2 == 1)
      && (c.canSetCcdTemp <==> (caps / 16) % 2 == 1)
      && (c.hasShutter <==> (caps / 32) % 2 == 1)
  {
    LE16OfLoHi(width);
    LE16OfLoHi(height);
    ByteBit(caps);
  }

  /** Bits of a byte, as a test of bv8 and as arithmetic. */
  lemma ByteBit(b: Byte)
    ensures (b as bv8 & 0x01 != 0) <==> b % 2 == 1
    ensures (b as bv8 & 0x10 != 0) <==> (b / 16) % 2 == 1
    ensures (b as bv8 & 0x20 != 0) <==> (b / 32) % 2 == 1
  {
  }

  // ---------------------------------------------------------------------
  // Firmware version

  /** sx_get_firmware_version as written: the major number is bytes 2 and
      3 combined, but the minor number is byte 0 ORed with byte 1, which is
      not shifted, so the minor number shown never exceeds 255. */
  function FirmwareVersionAsWritten(rb: seq<Byte>): (s: string)
    requires |rb| >= 4
    ensures var n := |FormatInt(LE16(rb[2], rb[3]))|;
      |s| > n && s[n] == '.' &&
      AllDigits(s[..n]) && DecValue(s[..n]) == LE16(rb[2], rb[3]) &&
      AllDigits(s[n + 1..]) && DecValue(s[n + 1..]) < 256
  {
    var major := FormatInt(LE16(rb[2], rb[3]));
    var minor := FormatInt((rb[0] as bv8 | rb[1] as bv8) as int);
    FormatNat(LE16(rb[2], rb[3]));
    FormatNat((rb[0] as bv8 | rb[1] as bv8) as int);
    Dotted(major, minor);
    major + "." + minor
  }

  /** The version with both numbers read as 16-bit little-endian values:
      the decimal major number, a dot and the decimal minor number. */
  function FirmwareVersion(rb: seq<Byte>): (s: string)
    requires |rb| >= 4
    ensures var n := |FormatInt(LE16(rb[2], rb[3]))|;
      |s| > n && s[n] == '.' &&
      AllDigits(s[..n]) && DecValue(s[..n]) == LE16(rb[2], rb[3]) &&
      AllDigits(s[n + 1..]) && DecValue(s[n + 1..]) == LE16(rb[0], rb[1])
  {
    var major := FormatInt(LE16(rb[2], rb[3]));
    var minor := FormatInt(LE16(rb[0], rb[1]));
    FormatNat(LE16(rb[2], rb[3]));
    FormatNat(LE16(rb[0], rb[1]));
    Dotted(major, minor);
    major + "." + minor
  }

  /** The corrected string reads back as both numbers: strtol of it gives
      the major number, and strtol after the dot gives the minor number. */
  lemma FirmwareVersionReadsBack(rb: seq<Byte>)
    requires |rb| >= 4
    ensures var s := FirmwareVersion(rb);
      var major := FormatInt(LE16(rb[2], rb[3]));
      StrToL(s) == LE16(rb[2], rb[3]) && StrToL(s[|major| + 1..]) == LE16(rb[0], rb[1])
  {
    var major := FormatInt(LE16(rb[2], rb[3]));
    var minor := FormatInt(LE16(rb[0], rb[1]));
    var s := FirmwareVersion(rb);
    assert s == major + ("." + minor);
    StrToLOfFormat(LE16(rb[2], rb[3]), 0, "." + minor);
    assert s[|major| + 1..] == minor + [];
    StrToLOfFormat(LE16(rb[0], rb[1]), 0, []);
  }

  /** Firmware 1.256 (bytes 00 01 01 00) is reported with the same string
      as firmware 1.1 (bytes 01 00 01 00), minor number 1; the corrected
      strings differ, with 256 after the dot. */
  lemma FirmwareMinorLost()
    ensures FirmwareVersionAsWritten([0, 1, 1, 0]) == FirmwareVersionAsWritten([1, 0, 1, 0])
    ensures FirmwareVersion([0, 1, 1, 0]) != FirmwareVersion([1, 0, 1, 0])
    ensures var s := FirmwareVersion([0, 1, 1, 0]); DecValue(s[|FormatInt(1)| + 1..]) == 256
  {
    var rb: seq<Byte> := [0, 1, 1, 0];
    var rb': seq<Byte> := [1, 0, 1, 0];
    assert LE16(rb[2], rb[3]) == 1 == LE16(rb'[2], rb'[3]);
    assert (rb[0] as bv8 | rb[1] as bv8) as int == 1 == (rb'[0] as bv8 | rb'[1] as bv8) as int;
    assert LE16(rb[0], rb[1]) == 256;
    assert LE16(rb'[0], rb'[1]) == 1;
  }

  // ---------------------------------------------------------------------
  // Guide port

  /** The guide command block: request 9 with the direction mask. */
  function GuideBlock(mask: bv8): (b: seq<Byte>)
    ensures |b| == 8 && b[2] == mask as int
  {
    Header(64, 9, mask as int, 0, 0)
  }

  /** The effect of one sx_guide command on the mask of running motions: a
      command with the SXStop bit clears its bits, any other adds its bits. */
  function GuideAfter(mask: bv8, cmd: bv8): (m: bv8)
    ensures m & !cmd == mask & !cmd
    ensures SX_STOP & cmd != 0 ==> m & cmd == 0
    ensures SX_STOP & cmd == 0 ==> m & cmd == cmd
  {
    if SX_STOP & cmd != 0 then mask & !cmd else mask | cmd
  }

  /** The SX direction bits for a set of telescope directions. */
  function SxDirections(direction: bv8): (d: bv8)
    ensures d & SX_STOP == 0
  {
    (if direction & Telescope.TM_NORTH != 0 then SX_NORTH else 0)
    | (if direction & Telescope.TM_SOUTH != 0 then SX_SOUTH else 0)
    | (if direction & Telescope.TM_EAST != 0 then SX_EAST else 0)
    | (if direction & Telescope.TM_WEST != 0 then SX_WEST else 0)
  }

  /** The mask of guide motions running, the `static unsigned char guide`
      of sx_guide, shared by every camera. */
  class Guide {
    var guide: bv8

    /** The SXStop bit is never recorded as a motion. */
    predicate Valid()
      reads this
    {
      guide & SX_STOP == 0
    }

    constructor ()
      ensures Valid() && guide == 0
    {
      guide := 0;
    }

    /** sx_guide: update the mask and send it. */
    method Command(cmd: bv8) returns (block: seq<Byte>)
      requires Valid()
      modifies this
      ensures Valid() && guide == GuideAfter(old(guide), cmd)
      ensures block == GuideBlock(guide)
    {
      if SX_STOP & cmd != 0 {
        guide := guide & !cmd;
      } else {
        guide := guide | cmd;
      }
      block := GuideBlock(guide);
    }

    /** One `if (direction & TM_...)` of sxc_guide_start and sxc_guide_stop:
        send the command when the direction is requested. */
    method CommandIf(on: bool, cmd: bv8, blocks: seq<seq<Byte>>) returns (blocks': seq<seq<Byte>>)
      requires Valid()
      modifies this
      ensures Valid() && guide == GuideIf(old(guide), on, cmd)
      ensures blocks' == blocks + if on then [GuideBlock(guide)] else []
    {
      blocks' := blocks;
      if on {
        var b := Command(cmd);
        blocks' := blocks + [b];
      }
    }

    /** sxc_guide_start: one command per requested direction, north, south,
        east, west; nothing without a guide camera. */
    method Start(direction: bv8, haveGuideCam: bool) returns (blocks: seq<seq<Byte>>)
      requires Valid()
      modifies this
      ensures Valid()
      ensures guide == if haveGuideCam then GuideStartAfter(old(guide), direction) else old(guide)
      ensures |blocks| == if haveGuideCam then DirectionCount(direction) else 0
      ensures blocks != [] ==> blocks[|blocks| - 1] == GuideBlock(guide)
    {
      blocks := [];
      if !haveGuideCam {
        return;
      }
      blocks := CommandIf(direction & Telescope.TM_NORTH != 0, SX_NORTH, blocks);
      blocks := CommandIf(direction & Telescope.TM_SOUTH != 0, SX_SOUTH, blocks);
      blocks := CommandIf(direction & Telescope.TM_EAST != 0, SX_EAST, blocks);
      blocks := CommandIf(direction & Telescope.TM_WEST != 0, SX_WEST, blocks);
    }

    /** sxc_guide_stop: the same, each command carrying the SXStop bit. */
    method Stop(direction: bv8, haveGuideCam: bool) returns (blocks: seq<seq<Byte>>)
      requires Valid()
      modifies this
      ensures Valid()
      ensures guide == if haveGuideCam then GuideStopAfter(old(guide), direction) else old(guide)
      ensures |blocks| == if haveGuideCam then DirectionCount(direction) else 0
      ensures blocks != [] ==> blocks[|blocks| - 1] == GuideBlock(guide)
    {
      blocks := [];
      if !haveGuideCam {
        return;
      }
      blocks := CommandIf(direction & Telescope.TM_NORTH != 0, SX_STOP | SX_NORTH, blocks);
      blocks := CommandIf(direction & Telescope.TM_SOUTH != 0, SX_STOP | SX_SOUTH, blocks);
      blocks := CommandIf(direction & Telescope.TM_EAST != 0, SX_STOP | SX_EAST, blocks);
      blocks := CommandIf(direction & Telescope.TM_WEST != 0, SX_STOP | SX_WEST, blocks);
    }
  }

  /** One conditional command of sxc_guide_start or sxc_guide_stop. */
  function GuideIf(mask: bv8, on: bool, cmd: bv8): (v: bv8)
  {
    if on then GuideAfter(mask, cmd) else mask
  }

  /** The mask after sxc_guide_start's four conditional commands. */
  function GuideStartAfter(mask: bv8, direction: bv8): (v: bv8)
  {
    GuideIf(GuideIf(GuideIf(GuideIf(mask,
      direction & Telescope.TM_NORTH != 0, SX_NORTH),
      direction & Telescope.TM_SOUTH != 0, SX_SOUTH),
      direction & Telescope.TM_EAST != 0, SX_EAST),
      direction & Telescope.TM_WEST != 0, SX_WEST)
  }

  /** The mask after sxc_guide_stop's four conditional commands. */
  function GuideStopAfter(mask: bv8, direction: bv8): (v: bv8)
  {
    GuideIf(GuideIf(GuideIf(GuideIf(mask,
      direction & Telescope.TM_NORTH != 0, SX_STOP | SX_NORTH),
      direction & Telescope.TM_SOUTH != 0, SX_STOP | SX_SOUTH),
      direction & Telescope.TM_EAST != 0, SX_STOP | SX_EAST),
      direction & Telescope.TM_WEST != 0, SX_STOP | SX_WEST)
  }

  /** Starting adds exactly the SX bits of the requested directions. */
  lemma StartMask(mask: bv8, direction: bv8)
    ensures GuideStartAfter(mask, direction) == mask | SxDirections(direction)
  {
  }

  /** Stopping removes exactly those bits, on a mask that never records
      SXStop. */
  lemma StopMask(mask: bv8, direction: bv8)
    requires mask & SX_STOP == 0
    ensures GuideStopAfter(mask, direction) == mask & !SxDirections(direction)
  {
  }

  /** Starting and then stopping the same directions restores a mask in
      which they were not running. */
  lemma StartThenStopRestores(mask: bv8, direction: bv8)
    requires mask & SX_STOP == 0 && mask & SxDirections(direction) == 0
    ensures GuideStopAfter(GuideStartAfter(mask, direction), direction) == mask
  {
    StartMask(mask, direction);
    StopMask(mask | SxDirections(direction), direction);
  }

  /** The number of telescope directions among north, south, east, west. */
  function DirectionCount(direction: bv8): (n: nat)
    ensures n <= 4
  {
    (if direction & Telescope.TM_NORTH != 0 then 1 else 0)
    + (if direction & Telescope.TM_SOUTH != 0 then 1 else 0)
    + (if direction & Telescope.TM_EAST != 0 then 1 else 0)
    + (if direction & Telescope.TM_WEST != 0 then 1 else 0)
  }

  /** Stopping a motion that was started undoes it and leaves every other
      running motion alone; stopping one that was not running changes
      nothing. */
  lemma GuideStartThenStop(mask: bv8, d: bv8)
    requires mask & SX_STOP == 0 && d & SX_STOP == 0
    ensures GuideAfter(GuideAfter(mask, d), SX_STOP | d) == mask & !d
    ensures mask & d == 0 ==> GuideAfter(GuideAfter(mask, d), SX_STOP | d) == mask
    ensures GuideAfter(mask, SX_STOP | d) & !d == mask & !d
  {
  }

  /** sxc_pulseguide: for each requested direction, north, south, east,
      west, sx_guide_pulse sends the direction and, after the pulse, the
      all-stop command. The running-motion mask is not involved. */
  function PulseBlocks(direction: bv8): (bs: seq<seq<Byte>>)
    ensures |bs| == 2 * DirectionCount(direction)
  {
    (if direction & Telescope.TM_NORTH != 0 then [GuideBlock(SX_NORTH), GuideBlock(SX_STOP_ALL)] else [])
    + (if direction & Telescope.TM_SOUTH != 0 then [GuideBlock(SX_SOUTH), GuideBlock(SX_STOP_ALL)] else [])
    + (if direction & Telescope.TM_EAST != 0 then [GuideBlock(SX_EAST), GuideBlock(SX_STOP_ALL)] else [])
    + (if direction & Telescope.TM_WEST != 0 then [GuideBlock(SX_WEST), GuideBlock(SX_STOP_ALL)] else [])
  }

  /** Every pulse is followed by the all-stop: the blocks alternate between
      a single direction bit and the empty mask. */
  lemma PulsesAlternate(direction: bv8)
    ensures var bs := PulseBlocks(direction);
      forall i :: 0 <= i < |bs| ==>
        if i % 2 == 1 then bs[i] == GuideBlock(SX_STOP_ALL)
        else bs[i][2] in {1, 2, 4, 8}
  {
  }

  // ---------------------------------------------------------------------
  // Image array parameters

  /** The image-array size sxc_get_imagearraysize reports: the binned width
      and height (each `(int)` of an unsigned division), the height doubled
      for an interlaced chip, and 2 bytes per pixel above 8 bits. */
  function ReportedSize(xWid: U32, yWid: U32, xBin: U32, yBin: U32, interlaced: bool, bitspp: int): (r: (int, int, int))
    requires xBin > 0 && yBin > 0
    ensures r.2 == 1 || r.2 == 2
  {
    var w := ToInt32(xWid / xBin);
    var h := ToInt32(yWid / yBin);
    (w, if interlaced then ToInt32(2 * h) else h, if bitspp > 8 then 2 else 1)
  }

  /** struct imparam with the chip flags sx_expose consults. */
  class SxCam {
    var x: U32
    var y: U32
    var xWid: U32
    var yWid: U32
    var xBin: U32
    var yBin: U32
    var interlaced: bool
    var invert: bool
    var bitspp: int

    constructor (interlaced: bool, bitspp: int)
      ensures this.interlaced == interlaced && this.bitspp == bitspp && !invert
      ensures x == 0 && y == 0 && xWid == 0 && yWid == 0 && xBin == 0 && yBin == 0
    {
      this.interlaced := interlaced;
      this.bitspp := bitspp;
      invert := false;
      x, y, xWid, yWid, xBin, yBin := 0, 0, 0, 0, 0, 0;
    }

    /** sxc_set_imagearraysize: each `long` stored as `unsigned int`; an
        interlaced chip exposes each field separately, so y and y_wid are
        halved. */
    method SetImageArraySize(x: int, y: int, xWid: int, yWid: int, xBin: int, yBin: int)
      modifies this
      ensures this.x == ToU32(x) && this.xWid == ToU32(xWid)
      ensures this.xBin == ToU32(xBin) && this.yBin == ToU32(yBin)
      ensures this.y == (if interlaced then ToU32(y) / 2 else ToU32(y))
      ensures this.yWid == (if interlaced then ToU32(yWid) / 2 else ToU32(yWid))
      ensures interlaced == old(interlaced) && invert == old(invert) && bitspp == old(bitspp)
    {
      this.x := ToU32(x);
      this.y := ToU32(y);
      this.xWid := ToU32(xWid);
      this.yWid := ToU32(yWid);
      this.xBin := ToU32(xBin);
      this.yBin := ToU32(yBin);
      if interlaced {
        this.y := this.y / 2;
        this.yWid := this.yWid / 2;
      }
    }

    /** sxc_set_state with S_INVERT. */
    method SetInvert(ival: int)
      modifies this
      ensures invert == (ival != 0)
      ensures x == old(x) && y == old(y) && xWid == old(xWid) && yWid == old(yWid)
      ensures xBin == old(xBin) && yBin == old(yBin)
      ensures interlaced == old(interlaced) && bitspp == old(bitspp)
    {
      invert := ival != 0;
    }

    /** sxc_get_imagearraysize (a zero bin factor would divide by zero). */
    method GetImageArraySize() returns (w: int, h: int, bytes: int)
      requires xBin > 0 && yBin > 0
      ensures (w, h, bytes) == ReportedSize(xWid, yWid, xBin, yBin, interlaced, bitspp)
    {
      w := ToInt32(xWid / xBin);
      h := ToInt32(yWid / yBin);
      if interlaced {
        h := ToInt32(h * 2);
      }
      bytes := if bitspp > 8 then 2 else 1;
    }
  }

  /** What a region set by sxc_set_imagearraysize is reported as. */
  function SetThenReported(interlaced: bool, xWid: int, yWid: int, xBin: int, yBin: int): (r: (int, int))
    requires 0 < xBin < 0x1_0000_0000 && 0 < yBin < 0x1_0000_0000
  {
    var storedY := if interlaced then ToU32(yWid) / 2 else ToU32(yWid);
    var r := ReportedSize(ToU32(xWid), storedY, ToU32(xBin), ToU32(yBin), interlaced, 16);
    (r.0, r.1)
  }

  /** A quotient of a non-negative `int` keeps its value through `(int)`. */
  lemma QuotientFits(a: int, b: int)
    requires 0 <= a < 0x8000_0000 && 0 < b
    ensures 0 <= a / b <= a && ToInt32(a / b) == a / b
  {
    DivAtMost(a, b);
  }

  /** For sizes that fit, the reported array is the binned request; an
      interlaced chip reports twice the binned half height, which loses
      the odd row of an odd height. */
  lemma SetThenReportedSizes(interlaced: bool, xWid: int, yWid: int, xBin: int, yBin: int)
    requires 0 <= xWid < 0x8000_0000 && 0 <= yWid < 0x8000_0000
    requires 0 < xBin < 0x1_0000_0000 && 0 < yBin < 0x1_0000_0000
    ensures var r := SetThenReported(interlaced, xWid, yWid, xBin, yBin);
      r.0 == xWid / xBin
      && r.1 == (if interlaced then 2 * ((yWid / 2) / yBin) else yWid / yBin)
  {
    assert ToU32(xWid) == xWid && ToU32(yWid) == yWid;
    assert ToU32(xBin) == xBin && ToU32(yBin) == yBin;
    QuotientFits(xWid, xBin);
    var sy := if interlaced then yWid / 2 else yWid;
    QuotientFits(sy, yBin);
    var q := sy / yBin;
    if interlaced {
      assert 2 * q < 0x8000_0000;
      assert ToInt32(2 * q) == 2 * q;
    }
  }

  /** Unbinned, an interlaced chip reports an even height unchanged. */
  lemma InterlacedEvenHeight(xWid: int, yWid: int)
    requires 0 <= xWid < 0x8000_0000 && 0 <= yWid < 0x8000_0000 && yWid % 2 == 0
    ensures SetThenReported(true, xWid, yWid, 1, 1) == (xWid, yWid)
  {
    SetThenReportedSizes(true, xWid, yWid, 1, 1);
  }

  // ---------------------------------------------------------------------
  // Reading a progressive frame

  /** The row of the output image that receives row v of the chip: the
      same row, or counted from the bottom when the image is inverted. */
  function OutRow(yWid: nat, invert: bool, v: nat): (n: int)
  {
    if invert then yWid - 1 - v else v
  }

  /** Where sx_expose stores pixel h of chip row v: always inside the
      output image. */
  function Dst(xWid: nat, yWid: nat, invert: bool, v: nat, h: nat): (d: nat)
    requires v < yWid && h < xWid
    ensures d < xWid * yWid
  {
    var r := OutRow(yWid, invert, v);
    RowsApart(r, yWid, xWid, h);
    r * xWid + h
  }

  /** Which unpacked pixel it stores there: the same row read from the
      right-hand end. */
  function Src(xWid: nat, yWid: nat, v: nat, h: nat): (s: nat)
    requires v < yWid && h < xWid
    ensures s == v * xWid + (xWid - 1 - h) && s < xWid * yWid
  {
    RowsApart(v, yWid, xWid, xWid - 1 - h);
    (v + 1) * xWid - (h + 1)
  }

  /** Pixels of the other chip rows are stored outside the output row that
      receives chip row v. */
  lemma OtherRowsOutside(xWid: nat, yWid: nat, invert: bool, v: nat)
    requires v < yWid
    ensures forall v', h' :: 0 <= v' < yWid && v' != v && 0 <= h' < xWid ==>
      var d := Dst(xWid, yWid, invert, v', h');
      d < OutRow(yWid, invert, v) * xWid || OutRow(yWid, invert, v) * xWid + xWid <= d
  {
    forall v', h' | 0 <= v' < yWid && v' != v && 0 <= h' < xWid
      ensures var d := Dst(xWid, yWid, invert, v', h');
        d < OutRow(yWid, invert, v) * xWid || OutRow(yWid, invert, v) * xWid + xWid <= d
    {
      var r, r' := OutRow(yWid, invert, v), OutRow(yWid, invert, v');
      if r' < r {
        RowsApart(r', r, xWid, h');
      } else {
        RowsApart(r, r', xWid, xWid - 1);
      }
    }
  }

  /** No two pixels land on the same place: with every position inside
      the image, the output is a permutation of the unpacked frame. */
  lemma DstInjective(xWid: nat, yWid: nat, invert: bool, v: nat, h: nat, v': nat, h': nat)
    requires v < yWid && h < xWid && v' < yWid && h' < xWid
    requires Dst(xWid, yWid, invert, v, h) == Dst(xWid, yWid, invert, v', h')
    ensures v == v' && h == h'
  {
    if v != v' {
      OtherRowsOutside(xWid, yWid, invert, v);
      assert false;
    }
  }

  /** The conversion loop of sx_expose: byte pairs, least significant first,
      become the pixels of e_buf. */
  method UnpackPixels(all: array<Byte>, e: array<UShort>, n: nat)
    requires all.Length >= 2 * n && e.Length >= n
    modifies e
    ensures forall k :: 0 <= k < n ==> e[k] == LE16(all[2 * k], all[2 * k + 1])
    ensures forall k :: n <= k < e.Length ==> e[k] == old(e[k])
  {
    var i, ei := 0, 0;
    while i < 2 * n
      invariant i == 2 * ei && ei <= n
      invariant forall k :: 0 <= k < ei ==> e[k] == LE16(all[2 * k], all[2 * k + 1])
      invariant forall k :: n <= k < e.Length ==> e[k] == old(e[k])
    {
      e[ei] := LE16(all[i], all[i + 1]);
      ei := ei + 1;
      i := i + 2;
    }
  }

  /** The inner copy loop of sx_expose: the chip row that ends just before
      `next` in e_buf, stored mirrored from `to` on in img_buf. */
  method MirrorRow(e: array<UShort>, img: array<UShort>, next: nat, to: nat, w: nat)
    requires e != img && w <= next <= e.Length && to + w <= img.Length
    modifies img
    ensures forall k :: to <= k < to + w ==> img[k] == e[next - 1 - (k - to)]
    ensures forall k :: 0 <= k < img.Length && !(to <= k < to + w) ==> img[k] == old(img[k])
  {
    var i, h := to, 0;
    while h < w
      invariant 0 <= h <= w && i == to + h
      invariant forall k :: to <= k < i ==> img[k] == e[next - 1 - (k - to)]
      invariant forall k :: 0 <= k < img.Length && !(to <= k < i) ==> img[k] == old(img[k])
    {
      img[i] := e[next - (h + 1)];
      i := i + 1;
      h := h + 1;
    }
  }

  /** Rows 0 to v-1 of the chip are in place in an image: pixel h of chip
      row v' is found at Dst(.., v', h), taken from Src(.., v', h) of the
      unpacked frame. */
  ghost predicate MirroredUpTo(img: seq<UShort>, e: seq<UShort>, xWid: nat, yWid: nat, invert: bool, v: nat)
    requires |img| >= xWid * yWid && |e| >= xWid * yWid
  {
    forall v', h' :: 0 <= v' < v && v' < yWid && 0 <= h' < xWid ==>
      img[Dst(xWid, yWid, invert, v', h')] == e[Src(xWid, yWid, v', h')]
  }

  /** Copying chip row v mirrored into its output row, and changing nothing
      else, puts one more row in place. */
  lemma RowInPlace(a: seq<UShort>, b: seq<UShort>, e: seq<UShort>, xWid: nat, yWid: nat, invert: bool,
                    v: nat, to: nat, next: nat)
    requires v < yWid && |e| >= xWid * yWid && |a| == |b| >= xWid * yWid
    requires to == OutRow(yWid, invert, v) * xWid && to + xWid <= |b|
    requires next == (v + 1) * xWid && xWid <= next <= |e|
    requires MirroredUpTo(a, e, xWid, yWid, invert, v)
    requires forall k :: to <= k < to + xWid ==> b[k] == e[next - 1 - (k - to)]
    requires forall k :: 0 <= k < |b| && !(to <= k < to + xWid) ==> b[k] == a[k]
    ensures MirroredUpTo(b, e, xWid, yWid, invert, v + 1)
  {
    NextRow(v, xWid);
    OtherRowsOutside(xWid, yWid, invert, v);
    forall v', h' | 0 <= v' <= v && 0 <= h' < xWid
      ensures b[Dst(xWid, yWid, invert, v', h')] == e[Src(xWid, yWid, v', h')]
    {
      var d := Dst(xWid, yWid, invert, v', h');
      if v' < v {
        assert b[d] == a[d];
      } else {
        assert d == to + h';
      }
    }
  }

  /** Where chip row v is read from and written to lie inside the frame. */
  lemma RowBounds(xWid: nat, yWid: nat, invert: bool, v: nat)
    requires v < yWid
    ensures xWid <= (v + 1) * xWid <= xWid * yWid
    ensures 0 <= OutRow(yWid, invert, v) * xWid && OutRow(yWid, invert, v) * xWid + xWid <= xWid * yWid
    ensures v + 1 < yWid ==>
      OutRow(yWid, invert, v + 1) * xWid == OutRow(yWid, invert, v) * xWid + xWid - (if invert then 2 * xWid else 0)
  {
    NextRow(v, xWid);
    MulAtLeast(v + 1, xWid);
    if xWid > 0 {
      RowsApart(v, yWid, xWid, xWid - 1);
      RowsApart(OutRow(yWid, invert, v), yWid, xWid, xWid - 1);
    }
    if invert && v + 1 < yWid {
      NextRow(OutRow(yWid, invert, v + 1), xWid);
    }
  }

  /** The copy loop of sx_expose: each row mirrored, the rows bottom-up when
      the image is inverted. */
  method MirrorRows(e: array<UShort>, img: array<UShort>, xWid: nat, yWid: nat, invert: bool)
    requires e != img && e.Length >= xWid * yWid && img.Length >= xWid * yWid
    modifies img
    ensures MirroredUpTo(img[..], e[..], xWid, yWid, invert, yWid)
    ensures forall k :: xWid * yWid <= k < img.Length ==> img[k] == old(img[k])
  {
    var i := if invert then xWid * (yWid - 1) else 0;
    var v := 0;
    while v < yWid
      invariant 0 <= v <= yWid
      invariant v < yWid ==> i == OutRow(yWid, invert, v) * xWid
      invariant MirroredUpTo(img[..], e[..], xWid, yWid, invert, v)
      invariant forall k :: xWid * yWid <= k < img.Length ==> img[k] == old(img[k])
    {
      ghost var before, to := img[..], i;
      RowBounds(xWid, yWid, invert, v);
      MirrorRow(e, img, (v + 1) * xWid, i, xWid);
      RowInPlace(before, img[..], e[..], xWid, yWid, invert, v, to, (v + 1) * xWid);
      i := i + xWid - if invert then 2 * xWid else 0;
      v := v + 1;
    }
  }

  // ---------------------------------------------------------------------
  // The Torben median

  /** How many values of s lie below x. */
  function Below(s: seq<UShort>, x: int): (c: nat)
    ensures c <= |s|
  {
    if |s| == 0 then 0 else Below(s[..|s| - 1], x) + (if s[|s| - 1] < x then 1 else 0)
  }

  /** How many values of s equal x. */
  function Same(s: seq<UShort>, x: int): (c: nat)
    ensures c <= |s|
  {
    if |s| == 0 then 0 else Same(s[..|s| - 1], x) + (if s[|s| - 1] == x then 1 else 0)
  }

  /** How many values of s lie above x. */
  function Above(s: seq<UShort>, x: int): (c: nat)
    ensures c <= |s|
  {
    if |s| == 0 then 0 else Above(s[..|s| - 1], x) + (if s[|s| - 1] > x then 1 else 0)
  }

  /** Every value lies below, at or above x. */
  lemma {:induction false} Partition(s: seq<UShort>, x: int)
    ensures Below(s, x) + Same(s, x) + Above(s, x) == |s|
  {
    if |s| > 0 {
      Partition(s[..|s| - 1], x);
    }
  }

  /** The values below x + 1 are those below x and those at x. */
  lemma {:induction false} BelowNext(s: seq<UShort>, x: int)
    ensures Below(s, x + 1) == Below(s, x) + Same(s, x)
  {
    if |s| > 0 {
      BelowNext(s[..|s| - 1], x);
    }
  }

  /** Without a value in [a, b), as many values lie below a as below b. */
  lemma {:induction false} Gap(s: seq<UShort>, a: int, b: int)
    requires a <= b
    requires forall k :: 0 <= k < |s| ==> !(a <= s[k] < b)
    ensures Below(s, a) == Below(s, b)
  {
    if |s| > 0 {
      Gap(s[..|s| - 1], a, b);
    }
  }

  /** More values below b than below a means a value in [a, b). */
  lemma Between(s: seq<UShort>, a: int, b: int) returns (k: nat)
    requires a <= b && Below(s, a) < Below(s, b)
    ensures k < |s| && a <= s[k] < b
  {
    if forall k :: 0 <= k < |s| ==> !(a <= s[k] < b) {
      Gap(s, a, b);
      assert false;
    }
    k :| 0 <= k < |s| && a <= s[k] < b;
  }

  /** Nothing lies below the smallest value, nor above the largest. */
  lemma {:induction false} NoneOutside(s: seq<UShort>, lo: int, hi: int)
    requires forall k :: 0 <= k < |s| ==> lo <= s[k] <= hi
    ensures Below(s, lo) == 0 && Above(s, hi) == 0
  {
    if |s| > 0 {
      NoneOutside(s[..|s| - 1], lo, hi);
    }
  }

  /** A median of the values: fewer than half of them lie below it and at
      most half above; for an even count this is the lower middle value. */
  ghost predicate IsMedian(s: seq<UShort>, med: int)
  {
    med in s && Below(s, med) <= (|s| - 1) / 2 && Above(s, med) <= |s| / 2
  }

  /** The median is determined by the values. */
  lemma MedianUnique(s: seq<UShort>, a: int, b: int)
    requires IsMedian(s, a) && IsMedian(s, b)
    ensures a == b
  {
    if a < b {
      MedianOrder(s, a, b);
    } else if b < a {
      MedianOrder(s, b, a);
    }
  }

  lemma MedianOrder(s: seq<UShort>, a: int, b: int)
    requires a < b && a in s && Above(s, a) <= |s| / 2
    ensures Below(s, b) > (|s| - 1) / 2
  {
    Partition(s, a);
    BelowNext(s, a);
    var k :| 0 <= k < |s| && s[k] == a;
    assert Same(s, a) >= 1 by {
      SameOf(s, k);
    }
    BelowMono(s, a + 1, b);
  }

  lemma {:induction false} SameOf(s: seq<UShort>, k: nat)
    requires k < |s|
    ensures Same(s, s[k]) >= 1
  {
    if k < |s| - 1 {
      SameOf(s[..|s| - 1], k);
    }
  }

  lemma {:induction false} BelowMono(s: seq<UShort>, a: int, b: int)
    requires a <= b
    ensures Below(s, a) <= Below(s, b)
  {
    if |s| > 0 {
      BelowMono(s[..|s| - 1], a, b);
    }
  }

  /** A value counted at least once is a value of s. */
  lemma {:induction false} SameIn(s: seq<UShort>, x: int)
    requires Same(s, x) >= 1
    ensures x in s
  {
    if s[|s| - 1] != x {
      SameIn(s[..|s| - 1], x);
    }
  }

  /** What one counting pass of torben yields over s: the numbers of values
      below, above and at the guess, the largest value below it (no less than
      lo) and the smallest above it (no more than hi). */
  function Around(s: seq<UShort>, lo: UShort, hi: UShort, guess: UShort): (r: (nat, nat, nat, UShort, UShort))
  {
    if |s| == 0 then (0, 0, 0, lo, hi)
    else
      var (less, greater, equal, maxlt, mingt) := Around(s[..|s| - 1], lo, hi, guess);
      var x := s[|s| - 1];
      if x < guess then (less + 1, greater, equal, if x > maxlt then x else maxlt, mingt)
      else if x > guess then (less, greater + 1, equal, maxlt, if x < mingt then x else mingt)
      else (less, greater, equal + 1, maxlt, mingt)
  }

  /** The counts of a pass are the numbers of values below, above and at
      the guess. */
  lemma {:induction false} AroundCounts(s: seq<UShort>, lo: UShort, hi: UShort, guess: UShort)
    ensures var r := Around(s, lo, hi, guess);
      r.0 == Below(s, guess) && r.1 == Above(s, guess) && r.2 == Same(s, guess)
  {
    if |s| > 0 {
      AroundCounts(s[..|s| - 1], lo, hi, guess);
    }
  }

  /** The largest value below the guess a pass finds is lo or a value of s
      below the guess, and no value below the guess exceeds it. */
  lemma {:induction false} AroundMaxBelow(s: seq<UShort>, lo: UShort, hi: UShort, guess: UShort)
    ensures var mx := Around(s, lo, hi, guess).3;
      lo <= mx && (mx == lo || (mx in s && mx < guess))
      && forall k :: 0 <= k < |s| && s[k] < guess ==> s[k] <= mx
  {
    if |s| > 0 {
      AroundMaxBelow(s[..|s| - 1], lo, hi, guess);
    }
  }

  /** The smallest value above the guess a pass finds is hi or a value of s
      above the guess, and no value above the guess is below it. */
  lemma {:induction false} AroundMinAbove(s: seq<UShort>, lo: UShort, hi: UShort, guess: UShort)
    ensures var mn := Around(s, lo, hi, guess).4;
      mn <= hi && (mn == hi || (mn in s && mn > guess))
      && forall k :: 0 <= k < |s| && s[k] > guess ==> mn <= s[k]
  {
    if |s| > 0 {
      AroundMinAbove(s[..|s| - 1], lo, hi, guess);
    }
  }

  /** The counting loop of torben. */
  method CountAround(m: array<UShort>, n: int, lo: UShort, hi: UShort, guess: UShort)
    returns (less: nat, greater: nat, equal: nat, maxlt: UShort, mingt: UShort)
    requires 0 <= n <= m.Length
    ensures (less, greater, equal, maxlt, mingt) == Around(m[..n], lo, hi, guess)
  {
    less, greater, equal := 0, 0, 0;
    maxlt, mingt := lo, hi;
    var i := 0;
    while i < n
      invariant 0 <= i <= n
      invariant (less, greater, equal, maxlt, mingt) == Around(m[..i], lo, hi, guess)
    {
      assert m[..i + 1][..i] == m[..i];
      if m[i] < guess {
        less := less + 1;
        if m[i] > maxlt {
          maxlt := m[i];
        }
      } else if m[i] > guess {
        greater := greater + 1;
        if m[i] < mingt {
          mingt := m[i];
        }
      } else {
        equal := equal + 1;
      }
      i := i + 1;
    }
  }

  /** When more values lie below the guess than below min, the largest value
      below the guess a pass finds from min on is a value of s, and exactly
      the values from the guess on lie above it. */
  lemma LargestBelow(s: seq<UShort>, min: UShort, max: UShort, guess: UShort)
    requires min <= guess && Below(s, min) < Below(s, guess)
    ensures var maxlt := Around(s, min, max, guess).3;
      min <= maxlt < guess && maxlt in s
      && Below(s, maxlt) < Below(s, guess) && Above(s, maxlt) == |s| - Below(s, guess)
  {
    var maxlt := Around(s, min, max, guess).3;
    AroundMaxBelow(s, min, max, guess);
    var k := Between(s, min, guess);
    assert maxlt in s && maxlt < guess by {
      if maxlt == min {
        assert s[k] == min;
      }
    }
    Gap(s, maxlt + 1, guess);
    BelowNext(s, maxlt);
    Partition(s, maxlt);
    var j :| 0 <= j < |s| && s[j] == maxlt;
    SameOf(s, j);
  }

  /** When more values lie above the guess than above max, the smallest
      value above the guess a pass finds up to max is a value of s, and
      exactly the values up to the guess lie below it. */
  lemma SmallestAbove(s: seq<UShort>, min: UShort, max: UShort, guess: UShort)
    requires guess <= max && Above(s, max) < Above(s, guess)
    ensures var mingt := Around(s, min, max, guess).4;
      guess < mingt <= max && mingt in s
      && Above(s, mingt) < Above(s, guess) && Below(s, mingt) == |s| - Above(s, guess)
  {
    var mingt := Around(s, min, max, guess).4;
    AroundMinAbove(s, min, max, guess);
    Partition(s, max);
    Partition(s, guess);
    BelowNext(s, max);
    BelowNext(s, guess);
    var k := Between(s, guess + 1, max + 1);
    assert mingt in s && mingt > guess by {
      if mingt == max {
        assert s[k] == max;
      }
    }
    Gap(s, guess + 1, mingt);
    Partition(s, mingt);
    var j :| 0 <= j < |s| && s[j] == mingt;
    SameOf(s, j);
  }

  /** torben: the median of the first n pixels, found by narrowing the
      range [min, max] that holds it; m is left as it is. */
  method Torben(m: array<UShort>, n: int) returns (med: UShort)
    requires 1 <= n <= m.Length
    ensures IsMedian(m[..n], med)
  {
    ghost var s := m[..n];
    var c := (n + 1) / 2;
    var min, max := m[0], m[0];
    var i := 1;
    while i < n
      invariant 1 <= i <= n && min <= max
      invariant forall k :: 0 <= k < i ==> min <= m[k] <= max
    {
      if m[i] < min {
        min := m[i];
      }
      if m[i] > max {
        max := m[i];
      }
      i := i + 1;
    }
    NoneOutside(s, min, max);
    var less, greater, equal, maxlt, mingt;
    var guess: UShort;
    while true
      invariant min <= max
      invariant Below(s, min) < c && Above(s, max) <= n - c
      decreases max - min
    {
      guess := (min as int + max as int) / 2;
      less, greater, equal, maxlt, mingt := CountAround(m, n, min, max, guess);
      AroundCounts(s, min, max, guess);
      if less <= c && greater <= c {
        break;
      } else if less > greater {
        LargestBelow(s, min, max, guess);
        max := maxlt;
      } else {
        SmallestAbove(s, min, max, guess);
        min := mingt;
      }
    }
    Partition(s, guess);
    if less >= c {
      LargestBelow(s, min, max, guess);
      med := maxlt;
    } else if less + equal >= c {
      SameIn(s, guess);
      med := guess;
    } else {
      SmallestAbove(s, min, max, guess);
      med := mingt;
    }
  }

  // ---------------------------------------------------------------------
  // Listing detected cameras

  /** One detected camera as sxc_get_cameras reports it: the synthetic
      serial number, the description, and the index into the pid table. */
  datatype Listing = Listing(serial: string, desc: string, idx: nat)

  /** The synthetic serial number of the device at index k, "#%02d". */
  function Serial(k: nat): (s: string)
    ensures |s| >= 1 && s[0] == '#'
  {
    "#" + FormatIntZeroPad(k, 2)
  }

  /** sxc_connect reads the device index back from the serial number. */
  lemma SerialReadsBack(k: nat)
    ensures StrToL(Serial(k)[1..]) == k
  {
    assert Serial(k)[1..] == FormatIntZeroPad(k, 2) + "";
    StrToLOfFormat(k, 2, "");
  }

  /** The listings for table entry i (product id pid, description desc)
      among the first `upto` devices, in device order; `serial` names the
      device at each index. */
  function Matches(devices: seq<int>, serial: nat -> string, pid: int, desc: string, i: nat, upto: nat): (ls: seq<Listing>)
    requires upto <= |devices|
  {
    if upto == 0 then []
    else
      var here := if devices[upto - 1] == pid then [Listing(serial(upto - 1), desc, i)] else [];
      Matches(devices, serial, pid, desc, i, upto - 1) + here
  }

  /** The listings for the first `count` entries of a pid table and its
      descriptions, in table order. */
  function Listings(devices: seq<int>, serial: nat -> string, pids: seq<int>, descs: seq<string>, count: nat): (ls: seq<Listing>)
    requires count <= |pids| && count <= |descs|
  {
    if count == 0 then []
    else Listings(devices, serial, pids, descs, count - 1) + Matches(devices, serial, pids[count - 1], descs[count - 1], count - 1, |devices|)
  }

  /** The clamp of the requested count to SX_MAX_CAMERAS. */
  function ClampCameras(num: int): (c: int)
    ensures c <= SX_MAX_CAMERAS && (num <= SX_MAX_CAMERAS ==> c == num)
  {
    if num > SX_MAX_CAMERAS then SX_MAX_CAMERAS else num
  }

  /** sxc_get_cameras: `num` is clamped to SX_MAX_CAMERAS and bounds the
      device search; `devices` holds the product ids of the devices found,
      or None when the USB listing fails. ok is FALSE on failure, and
      `num'` is the clamp then; otherwise it is the number of listings. */
  method GetCameras(num: int, devices: Option<seq<int>>) returns (ok: bool, list: seq<Listing>, num': int)
    requires devices.Some? ==> |devices.value| <= ClampCameras(num)
    ensures ok == devices.Some?
    ensures !ok ==> list == [] && num' == ClampCameras(num)
    ensures ok ==> list == Listings(devices.value, Serial, CAM_PIDS, CAM_DESCRIPTIONS, |CAM_PIDS|) && num' == |list|
  {
    num' := ClampCameras(num);
    list := [];
    if devices.None? {
      return false, list, num';
    }
    var found := devices.value;
    var nd := |found|;
    var i := 0;
    while i < |CAM_PIDS|
      invariant 0 <= i <= |CAM_PIDS| && list == Listings(found, Serial, CAM_PIDS, CAM_DESCRIPTIONS, i)
    {
      var pid, desc := CAM_PIDS[i], CAM_DESCRIPTIONS[i];
      var k := 0;
      while k < nd
        invariant 0 <= k <= nd && list == Listings(found, Serial, CAM_PIDS, CAM_DESCRIPTIONS, i) + Matches(found, Serial, pid, desc, i, k)
      {
        if pid == found[k] {
          list := list + [Listing(Serial(k), desc, i)];
        }
        k := k + 1;
      }
      i := i + 1;
    }
    ok, num' := true, |list|;
  }

  /** A listing for table entry i names a device with product id pid and
      carries the description desc. */
  ghost predicate MatchOf(devices: seq<int>, serial: nat -> string, pid: int, desc: string, i: nat, l: Listing)
  {
    l.idx == i && l.desc == desc
    && exists k :: 0 <= k < |devices| && l.serial == serial(k) && devices[k] == pid
  }

  lemma {:induction false} MatchesSound(devices: seq<int>, serial: nat -> string, pid: int, desc: string, i: nat, upto: nat)
    requires upto <= |devices|
    ensures forall l :: l in Matches(devices, serial, pid, desc, i, upto) ==> MatchOf(devices, serial, pid, desc, i, l)
  {
    if upto > 0 {
      MatchesSound(devices, serial, pid, desc, i, upto - 1);
    }
  }

  /** Every listing names a device whose pid is the table entry it points
      at, with that entry's description. */
  ghost predicate ListingOf(devices: seq<int>, serial: nat -> string, pids: seq<int>, descs: seq<string>, l: Listing)
  {
    l.idx < |pids| && l.idx < |descs| && MatchOf(devices, serial, pids[l.idx], descs[l.idx], l.idx, l)
  }

  /** Soundness: each listing is a detected device of a table model, with
      that model's description. */
  lemma {:induction false} ListingsSound(devices: seq<int>, serial: nat -> string, pids: seq<int>, descs: seq<string>, count: nat)
    requires count <= |pids| && count <= |descs|
    ensures forall l :: l in Listings(devices, serial, pids, descs, count) ==> ListingOf(devices, serial, pids, descs, l) && l.idx < count
  {
    if count > 0 {
      var pid, desc := pids[count - 1], descs[count - 1];
      var front, back := Listings(devices, serial, pids, descs, count - 1), Matches(devices, serial, pid, desc, count - 1, |devices|);
      assert Listings(devices, serial, pids, descs, count) == front + back;
      ListingsSound(devices, serial, pids, descs, count - 1);
      MatchesSound(devices, serial, pid, desc, count - 1, |devices|);
    }
  }

  lemma {:induction false} MatchesComplete(devices: seq<int>, serial: nat -> string, pid: int, desc: string, i: nat, upto: nat, k: nat)
    requires k < upto <= |devices| && devices[k] == pid
    ensures Listing(serial(k), desc, i) in Matches(devices, serial, pid, desc, i, upto)
  {
    if k < upto - 1 {
      MatchesComplete(devices, serial, pid, desc, i, upto - 1, k);
    }
  }

  /** Completeness: every detected device of a supported model is listed,
      under each table entry with its pid. */
  lemma {:induction false} ListingsComplete(devices: seq<int>, serial: nat -> string, pids: seq<int>, descs: seq<string>, count: nat, i: nat, k: nat)
    requires i < count <= |pids| && count <= |descs| && k < |devices| && devices[k] == pids[i]
    ensures Listing(serial(k), descs[i], i) in Listings(devices, serial, pids, descs, count)
  {
    var x := Listing(serial(k), descs[i], i);
    var front := Listings(devices, serial, pids, descs, count - 1);
    var back := Matches(devices, serial, pids[count - 1], descs[count - 1], count - 1, |devices|);
    assert Listings(devices, serial, pids, descs, count) == front + back;
    if i < count - 1 {
      ListingsComplete(devices, serial, pids, descs, count - 1, i, k);
      assert x in front;
    } else {
      MatchesComplete(devices, serial, pids[i], descs[i], i, |devices|, k);
      assert x in back;
    }
  }

  lemma {:induction false} MatchesIdx(devices: seq<int>, serial: nat -> string, pid: int, desc: string, i: nat, upto: nat)
    requires upto <= |devices|
    ensures forall l :: l in Matches(devices, serial, pid, desc, i, upto) ==> l.idx == i
  {
    if upto > 0 {
      MatchesIdx(devices, serial, pid, desc, i, upto - 1);
    }
  }

  lemma {:induction false} ListingsIdx(devices: seq<int>, serial: nat -> string, pids: seq<int>, descs: seq<string>, count: nat)
    requires count <= |pids| && count <= |descs|
    ensures forall l :: l in Listings(devices, serial, pids, descs, count) ==> l.idx < count
  {
    if count > 0 {
      var pid, desc := pids[count - 1], descs[count - 1];
      var front, back := Listings(devices, serial, pids, descs, count - 1), Matches(devices, serial, pid, desc, count - 1, |devices|);
      assert Listings(devices, serial, pids, descs, count) == front + back;
      ListingsIdx(devices, serial, pids, descs, count - 1);
      MatchesIdx(devices, serial, pid, desc, count - 1, |devices|);
    }
  }

  /** Listings whose table indices never decrease. */
  predicate InTableOrder(ls: seq<Listing>)
  {
    forall a, b :: 0 <= a < b < |ls| ==> ls[a].idx <= ls[b].idx
  }

  /** The listings follow the order of the pid table. */
  lemma {:induction false} ListingsInTableOrder(devices: seq<int>, serial: nat -> string, pids: seq<int>, descs: seq<string>, count: nat)
    requires count <= |pids| && count <= |descs|
    ensures InTableOrder(Listings(devices, serial, pids, descs, count))
  {
    if count > 0 {
      var pid, desc := pids[count - 1], descs[count - 1];
      var front, back := Listings(devices, serial, pids, descs, count - 1), Matches(devices, serial, pid, desc, count - 1, |devices|);
      assert Listings(devices, serial, pids, descs, count) == front + back;
      ListingsInTableOrder(devices, serial, pids, descs, count - 1);
      ListingsIdx(devices, serial, pids, descs, count - 1);
      MatchesIdx(devices, serial, pid, desc, count - 1, |devices|);
      var ls := front + back;
      forall a, b | 0 <= a < b < |ls|
        ensures ls[a].idx <= ls[b].idx
      {
        if b < |front| {
          assert ls[a] == front[a] && ls[b] == front[b];
        } else if a >= |front| {
          assert ls[a] == back[a - |front|] && back[a - |front|] in back;
          assert ls[b] == back[b - |front|] && back[b - |front|] in back;
        } else {
          assert ls[a] == front[a] && front[a] in front;
          assert ls[b] == back[b - |front|] && back[b - |front|] in back;
        }
      }
    }
  }

  /** What sxc_get_cameras lists (with the pid table and descriptions
      CAM_PIDS and CAM_DESCRIPTIONS): for each listing, sxc_connect's
      reading of the serial number is the index of a detected device whose
      pid is the listed model's, and the description is that model's. */
  lemma CameraListingsSound(devices: seq<int>, pids: seq<int>, descs: seq<string>, l: Listing)
    requires |pids| <= |descs|
    requires l in Listings(devices, Serial, pids, descs, |pids|)
    ensures l.idx < |pids| && l.desc == descs[l.idx] && |l.serial| >= 1
    ensures var k := StrToL(l.serial[1..]); 0 <= k < |devices| && devices[k] == pids[l.idx]
  {
    ListingsSound(devices, Serial, pids, descs, |pids|);
    var k :| 0 <= k < |devices| && l.serial == Serial(k) && devices[k] == pids[l.idx];
    SerialReadsBack(k);
  }

  /** And every detected device of a supported model is listed under its
      synthetic serial number. */
  lemma CameraListingsComplete(devices: seq<int>, i: nat, k: nat)
    requires i < |CAM_PIDS| && k < |devices| && devices[k] == CAM_PIDS[i]
    ensures Listing(Serial(k), CAM_DESCRIPTIONS[i], i) in Listings(devices, Serial, CAM_PIDS, CAM_DESCRIPTIONS, |CAM_PIDS|)
  {
    ListingsComplete(devices, Serial, CAM_PIDS, CAM_DESCRIPTIONS, |CAM_PIDS|, i, k);
  }
}
