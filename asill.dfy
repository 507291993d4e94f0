// The low-level driver of the ZWO ASI120 cameras (yaaca's asill.c). Every
// register write and vendor request is queued as a command, under the
// command lock, and sent later, in order, by run_q on the worker thread. A
// shadow copy of the sensor registers 0x3000 .. 0x3fff answers register
// reads without asking the camera, and set_reg_mask uses it to change some
// bits of a register and keep the others.

module Asill {
  import opened Bytes
  import opened Bits

  /** A queued command (struct cmd_s): CMD_SLEEP_MS with its delay,
      CMD_SET_REG with register and value, CMD_SEND with request and
      value. */
  datatype Cmd = SleepMs(ms: int) | SetRegCmd(reg: int, value: int) | Send(request: int, value: int)

  /** What run_q does for one command: a pause of so many microseconds, or
      one control transfer (bmRequestType, bRequest, wValue, wIndex). */
  datatype Transfer = Pause(us: int) | Control(requestType: Byte, request: Byte, value: UShort, index: UShort)

  /** The size by which scmd grows the command array when it is full. */
  const GROWTH: nat := 100
  /** The shadow covers registers SHADOW_BASE .. SHADOW_BASE + SHADOW_SIZE - 1. */
  const SHADOW_BASE: int := 0x3000
  const SHADOW_SIZE: nat := 0x1000
  /** ASILL_PAR_N and the parameters of asill_set_int_par. */
  const PAR_N: nat := 11
  const PAR_ANALOG_GAIN: int := 0
  const PAR_DIGITAL_GAIN: int := 1
  const PAR_DIGITAL_GAIN_R: int := 2
  const PAR_DIGITAL_GAIN_G1: int := 3
  const PAR_DIGITAL_GAIN_G2: int := 4
  const PAR_DIGITAL_GAIN_B: int := 5
  const PAR_BIAS_SUB: int := 6
  const PAR_ROW_DENOISE: int := 7
  const PAR_COL_DENOISE: int := 8
  const PAR_FLIP_X: int := 9
  const PAR_FLIP_Y: int := 10
  /** MAX_PATH, the size of save_path. */
  const MAX_PATH: nat := 255

  /** MT9M034 register addresses, after the sensor's register reference. */
  const Y_ADDR_START: int := 0x3002
  const X_ADDR_START: int := 0x3004
  const Y_ADDR_END: int := 0x3006
  const X_ADDR_END: int := 0x3008
  const GREEN1_GAIN: int := 0x3056
  const BLUE_GAIN: int := 0x3058
  const RED_GAIN: int := 0x305A
  const GREEN2_GAIN: int := 0x305C
  const GLOBAL_GAIN: int := 0x305E
  /** The registers that set_int_par changes some bits of. */
  const READ_MODE: int := 0x3040
  const ROW_NOISE: int := 0x3044
  const ANALOG_GAIN_REG: int := 0x30B0
  const COLUMN_NOISE: int := 0x30D4
  const BIAS_REG: int := 0x30EA
  const ANALOG_FINE_REG: int := 0x3EE4


  // ---------------------------------------------------------------------
  // Register values and the shadow

  /** Whether register r has a place in the shadow. */
  predicate InShadow(r: int)
  {
    SHADOW_BASE <= r < SHADOW_BASE + SHADOW_SIZE
  }

  /** get_reg on shadow sh: the shadowed value, 0 outside the shadow. */
  function Reg(sh: seq<UShort>, r: int): (v: UShort)
    requires |sh| == SHADOW_SIZE
  {
    if InShadow(r) then sh[r - SHADOW_BASE] else 0
  }

  /** The shadow after the register writes among the commands cs: a write
      to a shadowed register stores the value's low 16 bits there. */
  function Written(sh: seq<UShort>, cs: seq<Cmd>): (r: seq<UShort>)
    ensures |r| == |sh|
    decreases |cs|
  {
    if cs == [] then sh
    else
      var t := Written(sh, cs[..|cs| - 1]);
      match cs[|cs| - 1]
      case SetRegCmd(reg, v) =>
        if SHADOW_BASE <= reg < SHADOW_BASE + |t| then t[reg - SHADOW_BASE := ToUShort(v)] else t
      case _ => t
  }

  /** Writing a register and reading it back gives the low 16 bits of the
      value written, if the register is shadowed; every other register reads
      as before. */
  lemma SetRegReads(sh: seq<UShort>, r: int, v: int, q: int)
    requires |sh| == SHADOW_SIZE
    ensures Reg(Written(sh, [SetRegCmd(r, v)]), q)
         == if q == r && InShadow(r) then ToUShort(v) else Reg(sh, q)
  {
    assert [SetRegCmd(r, v)][..0] == [];
  }

  /** The shadow after two batches of commands is the shadow after the
      first, updated by the second. */
  lemma {:induction false} WrittenAppend(sh: seq<UShort>, a: seq<Cmd>, b: seq<Cmd>)
    ensures Written(sh, a + b) == Written(Written(sh, a), b)
    decreases |b|
  {
    if b == [] {
      assert a + b == a;
    } else {
      assert (a + b)[..|a + b| - 1] == a + b[..|b| - 1];
      assert (a + b)[|a + b| - 1] == b[|b| - 1];
      WrittenAppend(sh, a, b[..|b| - 1]);
    }
  }

  lemma WrittenFour(sh: seq<UShort>, a: Cmd, b: Cmd, c: Cmd, d: Cmd)
    ensures Written(sh, [a, b, c, d])
         == Written(Written(Written(Written(sh, [a]), [b]), [c]), [d])
  {
    WrittenAppend(sh, [a], [b]);
    WrittenAppend(sh, [a, b], [c]);
    WrittenAppend(sh, [a, b, c], [d]);
    assert [a] + [b] == [a, b] && [a, b] + [c] == [a, b, c] && [a, b, c] + [d] == [a, b, c, d];
  }

  lemma FourInOrder(q: seq<Cmd>, ws: seq<Cmd>)
    requires |ws| == 4
    ensures q + [ws[0]] + [ws[1]] + [ws[2]] + [ws[3]] == q + ws
    ensures ws == [ws[0], ws[1], ws[2], ws[3]]
  {
  }

  /** Commands other than register writes leave the shadow alone. */
  lemma {:induction false} WrittenNoWrites(sh: seq<UShort>, cs: seq<Cmd>)
    requires forall i :: 0 <= i < |cs| ==> !cs[i].SetRegCmd?
    ensures Written(sh, cs) == sh
    decreases |cs|
  {
    if cs != [] {
      WrittenNoWrites(sh, cs[..|cs| - 1]);
    }
  }

  // ---------------------------------------------------------------------
  // set_reg_mask

  /** The new value set_reg_mask writes: (g & ~mask) | v, of which only the
      low 16 bits are kept, since they are all the shadow and the control
      transfer hold. */
  function MaskBits(g: UShort, mask: int, v: int): (c: UShort)
  {
    Pow2Sixteen();
    AndBound(g, Not(ToUShort(mask), 16), 16);
    OrBound(And(g, Not(ToUShort(mask), 16)), ToUShort(v), 16);
    Or(And(g, Not(ToUShort(mask), 16)), ToUShort(v))
  }

  /** Bit by bit: a bit of v is set, a bit of the mask not in v is cleared,
      and every other bit of the old value is kept. */
  lemma MaskBitsBit(g: UShort, mask: int, v: int, i: nat)
    requires i < 16
    ensures Bit(MaskBits(g, mask, v), i)
         == if Bit(ToUShort(v), i) == 1 then 1 else if Bit(ToUShort(mask), i) == 1 then 0 else Bit(g, i)
  {
    Pow2Sixteen();
    BitOr(And(g, Not(ToUShort(mask), 16)), ToUShort(v), i);
    BitAnd(g, Not(ToUShort(mask), 16), i);
    BitNot(ToUShort(mask), 16, i);
  }

  /** Writing the same bits twice is writing them once. */
  lemma MaskBitsIdempotent(g: UShort, mask: int, v: int)
    ensures MaskBits(MaskBits(g, mask, v), mask, v) == MaskBits(g, mask, v)
  {
    Pow2Sixteen();
    forall i | 0 <= i < 16
      ensures Bit(MaskBits(MaskBits(g, mask, v), mask, v), i) == Bit(MaskBits(g, mask, v), i)
    {
      MaskBitsBit(g, mask, v, i);
      MaskBitsBit(MaskBits(g, mask, v), mask, v, i);
    }
    SameBits(MaskBits(MaskBits(g, mask, v), mask, v), MaskBits(g, mask, v), 16);
  }

  /** The bits of x from `low` on, as a number: the value of the bit field
      that starts at bit `low` and is `width` bits wide. */
  function Field(x: nat, low: nat, width: nat): (n: nat)
    decreases width
  {
    if width == 0 then 0 else Bit(x, low) + 2 * Field(x, low + 1, width - 1)
  }

  // ---------------------------------------------------------------------
  // asill_set_int_par

  /** The analog gain 1 .. 16 as the register field 0 .. 15: gain - 1
      clamped to that range. */
  function AnalogGain(gain: int): (n: int)
    ensures 0 <= n <= 15
    ensures 1 <= gain <= 16 ==> n == gain - 1
    ensures gain < 1 ==> n == 0
    ensures gain > 16 ==> n == 15
  {
    var ngain := gain - 1;
    var ngain := if ngain < 0 then 0 else ngain;
    if ngain > 15 then 15 else ngain
  }

  /** The parameters asill_new starts with: analog gain 8, digital gains
      0x20, bias subtraction and both denoisers on, no flips. */
  function DefaultPars(): (ps: seq<int>)
    ensures |ps| == PAR_N
  {
    [8, 0x20, 0x20, 0x20, 0x20, 0x20, 1, 1, 1, 0, 0]
  }

  /** The parameters asill_set_int_par knows. */
  predicate KnownPar(par: int)
  {
    0 <= par < PAR_N
  }

  /** The register a switch parameter (bias subtraction, denoising, flips)
      drives, the bit k (mask 1 << k), and whether a non-zero value sets
      it. */
  function SwitchOf(par: int): (s: (int, nat, bool))
    requires PAR_BIAS_SUB <= par <= PAR_FLIP_Y
    ensures s.1 < 16
  {
    if par == PAR_BIAS_SUB then (BIAS_REG, 15, false)
    else if par == PAR_ROW_DENOISE then (ROW_NOISE, 10, true)
    else if par == PAR_COL_DENOISE then (COLUMN_NOISE, 15, true)
    else if par == PAR_FLIP_X then (READ_MODE, 14, true)
    else (READ_MODE, 15, true)
  }

  /** The register writes asill_set_int_par queues, reading the bits it
      keeps from shadow sh. */
  function ParWrites(sh: seq<UShort>, par: int, gain: int): (cs: seq<Cmd>)
    requires |sh| == SHADOW_SIZE
    ensures cs == [] <==> !KnownPar(par)
    ensures |cs| <= 2 && forall i :: 0 <= i < |cs| ==> cs[i].SetRegCmd?
  {
    if par == PAR_ANALOG_GAIN then
      var n := AnalogGain(gain);
      [SetRegCmd(ANALOG_GAIN_REG, MaskBits(Reg(sh, ANALOG_GAIN_REG), 3 * Pow2(4), (n / 4) * Pow2(4))),
       SetRegCmd(ANALOG_FINE_REG, MaskBits(Reg(sh, ANALOG_FINE_REG), 3 * Pow2(8), (n % 4) * Pow2(8)))]
    else if par == PAR_DIGITAL_GAIN then [SetRegCmd(GLOBAL_GAIN, gain)]
    else if par == PAR_DIGITAL_GAIN_R then [SetRegCmd(RED_GAIN, gain)]
    else if par == PAR_DIGITAL_GAIN_G1 then [SetRegCmd(GREEN1_GAIN, gain)]
    else if par == PAR_DIGITAL_GAIN_G2 then [SetRegCmd(GREEN2_GAIN, gain)]
    else if par == PAR_DIGITAL_GAIN_B then [SetRegCmd(BLUE_GAIN, gain)]
    else if PAR_BIAS_SUB <= par <= PAR_FLIP_Y then
      var (r, k, onSets) := SwitchOf(par);
      [SetRegCmd(r, MaskBits(Reg(sh, r), Pow2(k), if (gain != 0) == onSets then Pow2(k) else 0))]
    else []
  }

  /** The two writes of the analog gain with the masks and shifts spelled
      out. */
  lemma AnalogGainWrites(sh: seq<UShort>, gain: int)
    requires |sh| == SHADOW_SIZE
    ensures var n := AnalogGain(gain);
      ParWrites(sh, PAR_ANALOG_GAIN, gain) ==
        [SetRegCmd(ANALOG_GAIN_REG, MaskBits(Reg(sh, ANALOG_GAIN_REG), 0x30, (n / 4) * 0x10)),
         SetRegCmd(ANALOG_FINE_REG, MaskBits(Reg(sh, ANALOG_FINE_REG), 0x300, (n % 4) * 0x100))]
  {
    Pow2Sixteen();
  }

  /** The pars array after asill_set_int_par: a known parameter takes the
      value, and the global digital gain also becomes the gain of each of
      the four colour channels. */
  function NewPars(ps: seq<int>, par: int, gain: int): (r: seq<int>)
    requires |ps| == PAR_N
    ensures |r| == PAR_N
  {
    if !KnownPar(par) then ps
    else if par == PAR_DIGITAL_GAIN then
      ps[PAR_DIGITAL_GAIN := gain][PAR_DIGITAL_GAIN_R := gain][PAR_DIGITAL_GAIN_G1 := gain]
        [PAR_DIGITAL_GAIN_G2 := gain][PAR_DIGITAL_GAIN_B := gain]
    else ps[par := gain]
  }

  /** An unknown parameter queues nothing and changes nothing; every known
      one queues at least one register write. */
  lemma ParWritesKnown(sh: seq<UShort>, ps: seq<int>, par: int, gain: int)
    requires |sh| == SHADOW_SIZE && |ps| == PAR_N
    ensures !KnownPar(par) ==> NewPars(ps, par, gain) == ps && ParWrites(sh, par, gain) == []
  {
  }

  /** Setting a parameter stores its value and changes no other; setting
      the digital gain gives the four channel gains that value too. */
  lemma NewParsStores(ps: seq<int>, par: int, gain: int, i: int)
    requires |ps| == PAR_N && KnownPar(par) && 0 <= i < PAR_N
    ensures NewPars(ps, par, gain)[par] == gain
    ensures par == PAR_DIGITAL_GAIN && PAR_DIGITAL_GAIN <= i <= PAR_DIGITAL_GAIN_B ==>
              NewPars(ps, par, gain)[i] == gain
    ensures i != par && !(par == PAR_DIGITAL_GAIN && PAR_DIGITAL_GAIN_R <= i <= PAR_DIGITAL_GAIN_B) ==>
              NewPars(ps, par, gain)[i] == ps[i]
  {
  }

  /** The bits of x << low for a 2-bit x. */
  lemma FieldBits(x: nat, low: nat, j: nat)
    requires x < 4
    ensures Bit(x * Pow2(low), j) == if low <= j < low + 2 then Bit(x, j - low) else 0
  {
    BitShifted(x, low, j);
    if j >= low + 2 {
      Pow2Sixteen();
      BitHigh(x, 2, j - low);
    }
  }

  lemma FieldFits(x: nat, low: nat)
    requires x < 4 && low + 2 <= 16
    ensures x * Pow2(low) <= 3 * Pow2(low) < 0x1_0000
  {
    Pow2Sixteen();
    Pow2Mono(low, 14);
  }

  lemma TwoBits(x: nat)
    requires x < 4
    ensures Bit(x, 0) + 2 * Bit(x, 1) == x
  {
    assert Bit(x, 1) == Bit(x / 2, 0);
  }

  /** set_reg_mask on a 2-bit field at bit `low` (mask 3 << low, value
      x << low): the field reads back as x and every other bit is kept. */
  lemma TwoBitField(g: UShort, low: nat, x: nat, i: nat)
    requires low + 2 <= 16 && x < 4 && i < 16
    ensures Field(MaskBits(g, 3 * Pow2(low), x * Pow2(low)), low, 2) == x
    ensures i != low && i != low + 1 ==> Bit(MaskBits(g, 3 * Pow2(low), x * Pow2(low)), i) == Bit(g, i)
  {
    FieldFits(x, low);
    FieldFits(3, low);
    TwoBitFieldBit(g, low, x, low);
    TwoBitFieldBit(g, low, x, low + 1);
    TwoBitFieldBit(g, low, x, i);
    var r := MaskBits(g, 3 * Pow2(low), x * Pow2(low));
    assert Field(r, low, 2) == Bit(r, low) + 2 * Bit(r, low + 1);
    TwoBits(x);
  }

  lemma TwoBitFieldBit(g: UShort, low: nat, x: nat, i: nat)
    requires low + 2 <= 16 && x < 4 && i < 16
    ensures Bit(MaskBits(g, 3 * Pow2(low), x * Pow2(low)), i)
         == if low <= i < low + 2 then Bit(x, i - low) else Bit(g, i)
  {
    FieldFits(x, low);
    FieldFits(3, low);
    FieldBits(x, low, i);
    FieldBits(3, low, i);
    if low <= i < low + 2 {
      assert Bit(3, i - low) == 1 by {
        assert Bit(3, 1) == Bit(1, 0);
      }
    }
    MaskBitsBit(g, 3 * Pow2(low), x * Pow2(low), i);
  }

  /** The analog gain lands in two 2-bit fields, bits 4-5 of register 0x30b0
      (the gain over 4) and bits 8-9 of register 0x3ee4 (the remainder):
      reading the two fields back gives the clamped gain, and every other
      bit of the two registers is kept. */
  lemma AnalogGainFields(sh: seq<UShort>, gain: int, i: nat)
    requires |sh| == SHADOW_SIZE && i < 16
    ensures var cs := ParWrites(sh, PAR_ANALOG_GAIN, gain);
            |cs| == 2 && cs[0].SetRegCmd? && cs[1].SetRegCmd?
            && cs[0].reg == ANALOG_GAIN_REG && cs[1].reg == ANALOG_FINE_REG
            && 0 <= cs[0].value && 0 <= cs[1].value
            && 4 * Field(cs[0].value, 4, 2) + Field(cs[1].value, 8, 2) == AnalogGain(gain)
            && (i != 4 && i != 5 ==> Bit(cs[0].value, i) == Bit(Reg(sh, ANALOG_GAIN_REG), i))
            && (i != 8 && i != 9 ==> Bit(cs[1].value, i) == Bit(Reg(sh, ANALOG_FINE_REG), i))
  {
    Pow2Sixteen();
    var n := AnalogGain(gain);
    TwoBitField(Reg(sh, ANALOG_GAIN_REG), 4, n / 4, i);
    TwoBitField(Reg(sh, ANALOG_FINE_REG), 8, n % 4, i);
  }

  /** A switch parameter sets its bit exactly when the value says so (for
      bias subtraction, when the value is 0) and keeps every other bit. */
  lemma SwitchParBit(sh: seq<UShort>, par: int, gain: int, i: nat)
    requires |sh| == SHADOW_SIZE && PAR_BIAS_SUB <= par <= PAR_FLIP_Y && i < 16
    ensures var cs := ParWrites(sh, par, gain);
            var (r, k, onSets) := SwitchOf(par);
            |cs| == 1 && cs[0] == SetRegCmd(r, cs[0].value) && 0 <= cs[0].value
            && (Bit(cs[0].value, k) == 1 <==> (gain != 0) == onSets)
            && (i != k ==> Bit(cs[0].value, i) == Bit(Reg(sh, r), i))
  {
    Pow2Sixteen();
    var (r, k, onSets) := SwitchOf(par);
    var bit := Pow2(k);
    var v := if (gain != 0) == onSets then bit else 0;
    Pow2Mono(k, 15);
    BitPow2(k, i);
    BitPow2(k, k);
    BitZero(i);
    BitZero(k);
    MaskBitsBit(Reg(sh, r), bit, v, i);
    MaskBitsBit(Reg(sh, r), bit, v, k);
  }

  // ---------------------------------------------------------------------
  // asill_set_xy

  /** The start of the window on one axis: moved back so that the window
      ends at the sensor's edge if it would pass it, in uint16_t
      arithmetic. */
  function ClampStart(x: UShort, size: UShort, max: UShort): (s: UShort)
    ensures size <= max ==> s + size <= max
    ensures x + size <= max ==> s == x
    ensures size <= max < x + size ==> s + size == max
    ensures max < size && max < x + size ==> s == 0x1_0000 - (size - max)
  {
    if x + size > max then ToUShort(max - size) else x
  }

  /** The window registers asill_set_xy writes for a window of w by h
      pixels whose first pixel is (x, y); the sensor's rows start at 2. */
  function WindowWrites(x: UShort, y: UShort, w: UShort, h: UShort): (cs: seq<Cmd>)
    ensures |cs| == 4 && forall i :: 0 <= i < 4 ==> cs[i].SetRegCmd?
    ensures cs[1].value == x && cs[0].value == y + 2
    ensures cs[3].value - cs[1].value + 1 == w && cs[2].value - cs[0].value + 1 == h
  {
    [SetRegCmd(Y_ADDR_START, 2 + y), SetRegCmd(X_ADDR_START, x),
     SetRegCmd(Y_ADDR_END, 2 + y + h - 1), SetRegCmd(X_ADDR_END, x + w - 1)]
  }

  /** A window that fits the sensor is written with its last column and row
      inside it. */
  lemma WindowInside(x: UShort, y: UShort, w: UShort, h: UShort, maxW: UShort, maxH: UShort)
    requires 1 <= w <= maxW && 1 <= h <= maxH
    ensures var cs := WindowWrites(ClampStart(x, w, maxW), ClampStart(y, h, maxH), w, h);
            cs[3].value < maxW && cs[2].value < maxH + 2
            && cs[1].value <= cs[3].value && cs[0].value <= cs[2].value
  {
  }

  // ---------------------------------------------------------------------
  // run_q

  /** The transfer run_q makes for one command: a sleep of ms milliseconds,
      a register write as request 0xa6 with register and value, a request
      alone as vendor request (its low byte) with value. */
  function TransferOf(c: Cmd): (t: Transfer)
    ensures t.Pause? <==> c.SleepMs?
    ensures t.Control? ==> t.requestType == 0x40
    ensures c.SetRegCmd? && 0 <= c.reg < 0x1_0000 && 0 <= c.value < 0x1_0000 ==>
              t.request == 0xa6 && t.value == c.reg && t.index == c.value
    ensures c.Send? && 0 <= c.value < 0x1_0000 ==> t.request == c.request % 0x100 && t.value == c.value && t.index == 0
  {
    match c
    case SleepMs(ms) => Pause(ms * 1000)
    case SetRegCmd(r, v) => Control(0x40, 0xa6, ToUShort(r), ToUShort(v))
    case Send(req, v) => Control(0x40, req % 0x100, ToUShort(v), 0)
  }

  /** The transfers for a queue of commands, first to last. */
  function Transfers(cs: seq<Cmd>): (ts: seq<Transfer>)
    ensures |ts| == |cs|
    ensures forall i :: 0 <= i < |cs| ==> ts[i] == TransferOf(cs[i])
    decreases |cs|
  {
    if cs == [] then [] else Transfers(cs[..|cs| - 1]) + [TransferOf(cs[|cs| - 1])]
  }

  // ---------------------------------------------------------------------
  // asill_set_save

  /** snprintf(buf, |buf|, "%s", t) on a buffer of at least one char: as
      much of t as fits before the terminator, the rest of buf untouched. */
  function Printed(buf: seq<char>, t: string): (r: seq<char>)
    requires |buf| >= 1
    ensures |r| == |buf|
  {
    var k := if |t| < |buf| then |t| else |buf| - 1;
    t[..k] + ['\0'] + buf[k + 1..]
  }

  /** The C string of a printed buffer is all of t when it fits; a cut copy
      is one char shorter than the buffer. */
  lemma PrintedText(buf: seq<char>, t: string)
    requires |buf| >= 1 && '\0' !in t
    ensures |t| < |buf| ==> CStr(Printed(buf, t), '\0') == t
    ensures |buf| <= |t| ==> CStr(Printed(buf, t), '\0') == t[..|buf| - 1]
  {
    var k := if |t| < |buf| then |t| else |buf| - 1;
    CStrOfPrefix(t[..k], '\0', buf[k + 1..]);
    assert '\0' !in t[..k] by {
      forall i | 0 <= i < k
        ensures t[..k][i] != '\0'
      {
        assert t[..k][i] == t[i];
      }
    }
    CStrNoNul(t[..k], '\0');
    if |t| < |buf| {
      assert t[..k] == t;
    }
  }

  /** The save_path buffer after asill_set_save: "path/" when it fits,
      otherwise a buffer starting with the terminator. */
  function SaveBuffer(buf: seq<char>, path: Option<string>): (r: seq<char>)
    requires |buf| == MAX_PATH
    ensures |r| == MAX_PATH
  {
    match path
    case None => buf[0 := '\0']
    case Some(p) =>
      var written := Printed(buf, p + "/");
      if |p + "/"| >= MAX_PATH then written[0 := '\0'] else written
  }

  /** The worker saves frames while save_path is not empty: that is after
      asill_set_save with a path short enough, and then the frames go to
      "path/". */
  lemma SaveBufferEnables(buf: seq<char>, path: Option<string>)
    requires |buf| == MAX_PATH && (path.Some? ==> '\0' !in path.value)
    ensures SaveBuffer(buf, path)[0] != '\0' <==> path.Some? && |path.value| + 1 < MAX_PATH
    ensures path.Some? && |path.value| + 1 < MAX_PATH ==>
              CStr(SaveBuffer(buf, path), '\0') == path.value + "/"
    ensures !(path.Some? && |path.value| + 1 < MAX_PATH) ==> CStr(SaveBuffer(buf, path), '\0') == []
  {
    if path.Some? {
      var t := path.value + "/";
      assert '\0' !in t by {
        forall i | 0 <= i < |t|
          ensures t[i] != '\0'
        {
          if i < |path.value| { assert t[i] == path.value[i]; }
        }
      }
      PrintedText(buf, t);
    }
  }

  // ---------------------------------------------------------------------
  // The camera

  /** The command array of asill_s: cmds, with max_cmds == cmds.Length,
      and n_cmds. */
  class CmdQueue {
    var cmds: array<Cmd>
    var n: nat

    ghost predicate Valid()
      reads this
    {
      n <= cmds.Length
    }

    /** The commands waiting for run_q, oldest first. */
    function Items(): (s: seq<Cmd>)
      reads this, cmds
      requires Valid()
    {
      cmds[..n]
    }

    /** The zeroed queue of a calloc'd asill_s: no array yet. */
    constructor ()
      ensures Valid() && Items() == [] && cmds.Length == 0 && fresh(cmds)
    {
      cmds := new Cmd[0];
      n := 0;
    }

    /** scmd with the caller's filling-in: the command goes at the end of
        the queue; a full array first grows by GROWTH slots, keeping the
        commands it holds. */
    method Push(c: Cmd)
      requires Valid()
      modifies this, cmds
      ensures cmds == old(cmds) || fresh(cmds)
      ensures Valid() && Items() == old(Items()) + [c]
      ensures cmds.Length == if old(n) >= old(cmds.Length) then old(cmds.Length) + GROWTH
                             else old(cmds.Length)
    {
      if n >= cmds.Length {
        var grown := new Cmd[cmds.Length + GROWTH](_ => SleepMs(0));
        forall i | 0 <= i < n {
          grown[i] := cmds[i];
        }
        cmds := grown;
      }
      cmds[n] := c;
      n := n + 1;
    }
  }

  class Asill {
    /** cmds, max_cmds and n_cmds */
    const q: CmdQueue
    /** shadow[0x1000] */
    const shadow: array<UShort>
    /** pars[ASILL_PAR_N] */
    const pars: array<int>
    /** save_path[MAX_PATH] */
    const savePath: array<char>
    var maxWidth: UShort
    var maxHeight: UShort
    var width: UShort
    var height: UShort
    var startX: UShort
    var startY: UShort

    ghost predicate Valid()
      reads this, q
    {
      q.Valid() && shadow.Length == SHADOW_SIZE && pars.Length == PAR_N && savePath.Length == MAX_PATH
    }

    /** The commands waiting for run_q, oldest first. */
    function Queue(): (s: seq<Cmd>)
      reads this, q, q.cmds
      requires Valid()
    {
      q.Items()
    }

    /** The camera as asill_new leaves it before init's register script:
        no command array yet, the full 1280 x 960 sensor, default
        parameters. */
    constructor ()
      ensures Valid() && fresh(q) && fresh(q.cmds) && fresh(shadow) && fresh(pars) && fresh(savePath)
      ensures Queue() == [] && q.cmds.Length == 0
      ensures forall i :: 0 <= i < SHADOW_SIZE ==> shadow[i] == 0
      ensures pars[..] == DefaultPars()
      ensures savePath[0] == '\0'
      ensures maxWidth == width == 1280 && maxHeight == height == 960 && startX == startY == 0
    {
      q := new CmdQueue();
      shadow := new UShort[SHADOW_SIZE](_ => 0);
      pars := new int[PAR_N](i requires 0 <= i < PAR_N => DefaultPars()[i]);
      savePath := new char[MAX_PATH](_ => '\0');
      maxWidth, maxHeight := 1280, 960;
      width, height := 1280, 960;
      startX, startY := 0, 0;
    }

    /** sleep_ms */
    method SleepFor(ms: int)
      requires Valid()
      modifies q, q.cmds
      ensures q.cmds == old(q.cmds) || fresh(q.cmds)
      ensures Valid() && Queue() == old(Queue()) + [SleepMs(ms)]
    {
      q.Push(SleepMs(ms));
    }

    /** send_ctrl_val; send_ctrl is the same with value 0. */
    method SendCtrlVal(v: int, v1: int)
      requires Valid()
      modifies q, q.cmds
      ensures q.cmds == old(q.cmds) || fresh(q.cmds)
      ensures Valid() && Queue() == old(Queue()) + [Send(v, v1)]
    {
      q.Push(Send(v, v1));
    }

    /** set_reg: the write is queued and, for a shadowed register, recorded
        in the shadow at once. */
    method SetReg(r: int, v: int)
      requires Valid()
      modifies q, q.cmds, shadow
      ensures q.cmds == old(q.cmds) || fresh(q.cmds)
      ensures Valid() && Queue() == old(Queue()) + [SetRegCmd(r, v)]
      ensures shadow[..] == Written(old(shadow[..]), [SetRegCmd(r, v)])
    {
      q.Push(SetRegCmd(r, v));
      assert [SetRegCmd(r, v)][..0] == [];
      if r >= 0x3000 && r < 0x4000 {
        shadow[r - 0x3000] := ToUShort(v);
      }
    }

    /** get_reg */
    function GetReg(r: int): (v: UShort)
      reads this, q, shadow
      requires Valid()
      ensures v == Reg(shadow[..], r)
    {
      if r >= 0x3000 && r < 0x4000 then shadow[r - 0x3000] else 0
    }

    /** set_reg_mask: the register's shadowed value with the mask's bits
        replaced by v. */
    method SetRegMask(r: int, mask: int, v: int)
      requires Valid()
      modifies q, q.cmds, shadow
      ensures q.cmds == old(q.cmds) || fresh(q.cmds)
      ensures Valid()
      ensures Queue() == old(Queue()) + [SetRegCmd(r, MaskBits(Reg(old(shadow[..]), r), mask, v))]
      ensures shadow[..] == Written(old(shadow[..]), [SetRegCmd(r, MaskBits(Reg(old(shadow[..]), r), mask, v))])
    {
      var nv := MaskBits(GetReg(r), mask, v);
      SetReg(r, nv);
    }

    /** run_q: every queued command is carried out, oldest first, and the
        queue is left empty (the array keeps its size). */
    method RunQueue() returns (sent: seq<Transfer>)
      requires Valid()
      modifies q
      ensures Valid() && sent == Transfers(old(Queue())) && Queue() == [] && q.cmds == old(q.cmds)
    {
      sent := [];
      var i := 0;
      while i < q.n
        invariant 0 <= i <= q.n
        invariant sent == Transfers(q.cmds[..i])
      {
        assert q.cmds[..i + 1][..i] == q.cmds[..i];
        sent := sent + [TransferOf(q.cmds[i])];
        i := i + 1;
      }
      assert q.cmds[..q.n] == old(Queue());
      q.n := 0;
    }

    /** The four window registers of asill_set_xy, for a w by h window at
        (x, y). */
    method WriteWindow(x: UShort, y: UShort, w: UShort, h: UShort)
      requires Valid()
      modifies q, q.cmds, shadow
      ensures q.cmds == old(q.cmds) || fresh(q.cmds)
      ensures Valid() && Queue() == old(Queue()) + WindowWrites(x, y, w, h)
      ensures shadow[..] == Written(old(shadow[..]), WindowWrites(x, y, w, h))
    {
      ghost var sh0, q0 := shadow[..], Queue();
      var a, b, c, d := SetRegCmd(Y_ADDR_START, 0x0002 + y), SetRegCmd(X_ADDR_START, x),
                        SetRegCmd(Y_ADDR_END, 0x0002 + y + h - 1), SetRegCmd(X_ADDR_END, x + w - 1);
      SetReg(a.reg, a.value);
      ghost var sh1 := shadow[..];
      assert Queue() == q0 + [a];
      SetReg(b.reg, b.value);
      ghost var sh2 := shadow[..];
      assert Queue() == q0 + [a] + [b];
      SetReg(c.reg, c.value);
      ghost var sh3 := shadow[..];
      assert Queue() == q0 + [a] + [b] + [c];
      SetReg(d.reg, d.value);
      assert Queue() == q0 + [a] + [b] + [c] + [d];
      FourInOrder(q0, [a, b, c, d]);
      WrittenFour(sh0, a, b, c, d);
    }

    /** asill_set_xy: the window's start is moved back where the window
        would pass the sensor's edge, and the four window registers are
        queued. */
    method SetXY(x: UShort, y: UShort) returns (ret: int)
      requires Valid()
      modifies this, q, q.cmds, shadow
      ensures q.cmds == old(q.cmds) || fresh(q.cmds)
      ensures Valid() && ret == 0
      ensures startX == ClampStart(x, width, maxWidth) && startY == ClampStart(y, height, maxHeight)
      ensures Queue() == old(Queue()) + WindowWrites(startX, startY, width, height)
      ensures shadow[..] == Written(old(shadow[..]), WindowWrites(startX, startY, width, height))
      ensures maxWidth == old(maxWidth) && maxHeight == old(maxHeight)
      ensures width == old(width) && height == old(height)
    {
      var sx, sy := x, y;
      if sx + width > maxWidth {
        sx := ToUShort(maxWidth - width);
      }
      if sy + height > maxHeight {
        sy := ToUShort(maxHeight - height);
      }
      startX, startY := sx, sy;
      WriteWindow(startX, startY, width, height);
      ret := 0;
    }

    /** One register write of asill_set_int_par, through set_reg for a whole
        register and set_reg_mask for some of its bits. */
    method SetSwitch(par: int, gain: int)
      requires Valid() && PAR_BIAS_SUB <= par <= PAR_FLIP_Y
      modifies q, q.cmds, shadow
      ensures q.cmds == old(q.cmds) || fresh(q.cmds)
      ensures Valid() && Queue() == old(Queue()) + ParWrites(old(shadow[..]), par, gain)
      ensures shadow[..] == Written(old(shadow[..]), ParWrites(old(shadow[..]), par, gain))
    {
      Pow2Sixteen();
      if par == PAR_BIAS_SUB {
        SetRegMask(0x30ea, 0x8000, if gain != 0 then 0 else 0x8000);
      } else if par == PAR_ROW_DENOISE {
        SetRegMask(0x3044, 0x0400, if gain != 0 then 0x0400 else 0);
      } else if par == PAR_COL_DENOISE {
        SetRegMask(0x30d4, 0x8000, if gain != 0 then 0x8000 else 0);
      } else if par == PAR_FLIP_X {
        SetRegMask(0x3040, 0x4000, if gain != 0 then 0x4000 else 0);
      } else {
        SetRegMask(0x3040, 0x8000, if gain != 0 then 0x8000 else 0);
      }
    }

    /** The analog gain case of asill_set_int_par. */
    method SetAnalogGain(gain: int)
      requires Valid()
      modifies q, q.cmds, shadow
      ensures q.cmds == old(q.cmds) || fresh(q.cmds)
      ensures Valid() && Queue() == old(Queue()) + ParWrites(old(shadow[..]), PAR_ANALOG_GAIN, gain)
      ensures shadow[..] == Written(old(shadow[..]), ParWrites(old(shadow[..]), PAR_ANALOG_GAIN, gain))
    {
      ghost var sh0 := shadow[..];
      var ngain := gain - 1;
      if ngain < 0 {
        ngain := 0;
      }
      if ngain > 15 {
        ngain := 15;
      }
      var a, b := ngain / 4, ngain % 4;
      ghost var c1 := SetRegCmd(ANALOG_GAIN_REG, MaskBits(Reg(sh0, ANALOG_GAIN_REG), 0x30, a * 0x10));
      ghost var c2 := SetRegCmd(ANALOG_FINE_REG, MaskBits(Reg(sh0, ANALOG_FINE_REG), 0x300, b * 0x100));
      ghost var q0 := Queue();
      SetRegMask(0x30b0, 0x30, a * 0x10);
      ghost var q1 := Queue();
      assert q1 == q0 + [c1];
      SetRegReads(sh0, 0x30b0, c1.value, 0x3ee4);
      SetRegMask(0x3ee4, 0x300, b * 0x100);
      assert Queue() == q1 + [c2];
      WrittenAppend(sh0, [c1], [c2]);
      assert [c1] + [c2] == [c1, c2];
      assert Queue() == q0 + [c1, c2];
      assert ngain == AnalogGain(gain);
      AnalogGainWrites(sh0, gain);
      assert ParWrites(sh0, PAR_ANALOG_GAIN, gain) == [c1, c2];
    }

    /** asill_set_int_par: 0 and the parameter stored (the global digital
        gain also as the four channel gains) for a parameter it knows, -1
        and nothing done otherwise. The flips' restore_rnc returns at once
        and has no effect. */
    method SetIntPar(par: int, gain: int) returns (ret: int)
      requires Valid()
      modifies q, q.cmds, shadow, pars
      ensures q.cmds == old(q.cmds) || fresh(q.cmds)
      ensures Valid() && ret == if KnownPar(par) then 0 else -1
      ensures Queue() == old(Queue()) + ParWrites(old(shadow[..]), par, gain)
      ensures shadow[..] == Written(old(shadow[..]), ParWrites(old(shadow[..]), par, gain))
      ensures pars[..] == NewPars(old(pars[..]), par, gain)
    {
      ret := 0;
      if par == PAR_ANALOG_GAIN {
        SetAnalogGain(gain);
      } else if par == PAR_DIGITAL_GAIN {
        SetReg(GLOBAL_GAIN, gain);
      } else if par == PAR_DIGITAL_GAIN_R {
        SetReg(RED_GAIN, gain);
      } else if par == PAR_DIGITAL_GAIN_G1 {
        SetReg(GREEN1_GAIN, gain);
      } else if par == PAR_DIGITAL_GAIN_G2 {
        SetReg(GREEN2_GAIN, gain);
      } else if par == PAR_DIGITAL_GAIN_B {
        SetReg(BLUE_GAIN, gain);
      } else if PAR_BIAS_SUB <= par <= PAR_FLIP_Y {
        SetSwitch(par, gain);
      } else {
        ret := -1;
        assert ParWrites(old(shadow[..]), par, gain) == [];
      }
      if ret == 0 {
        pars[par] := gain;
        if par == PAR_DIGITAL_GAIN {
          pars[PAR_DIGITAL_GAIN_R] := gain;
          pars[PAR_DIGITAL_GAIN_G1] := gain;
          pars[PAR_DIGITAL_GAIN_G2] := gain;
          pars[PAR_DIGITAL_GAIN_B] := gain;
        }
      }
    }

    /** asill_pulse: a guide pulse in direction dir of ms milliseconds, as
        the start request, a sleep and the stop request. */
    method Pulse(dir: int, ms: int)
      requires Valid()
      modifies q, q.cmds
      ensures q.cmds == old(q.cmds) || fresh(q.cmds)
      ensures Valid() && Queue() == old(Queue()) + [Send(0xb0, dir), SleepMs(ms), Send(0xb1, dir)]
    {
      SendCtrlVal(0xb0, dir);
      SleepFor(ms);
      SendCtrlVal(0xb1, dir);
    }

    /** The text in save_path. */
    function SavePath(): (s: string)
      reads this, q, savePath
      requires Valid()
    {
      CStr(savePath[..], '\0')
    }

    /** snprintf(save_path, MAX_PATH, "%s", t): returns the length of t. */
    method PrintSavePath(t: string) returns (n: nat)
      requires Valid()
      modifies savePath
      ensures n == |t| && savePath[..] == Printed(old(savePath[..]), t)
    {
      var k := if |t| < savePath.Length then |t| else savePath.Length - 1;
      var i := 0;
      while i < k
        invariant 0 <= i <= k
        invariant savePath[..i] == t[..i] && savePath[i..] == old(savePath[..])[i..]
      {
        savePath[i] := t[i];
        i := i + 1;
        assert savePath[i..] == old(savePath[..])[i..];
      }
      savePath[k] := '\0';
      assert savePath[..] == t[..k] + ['\0'] + old(savePath[..])[k + 1..];
      n := |t|;
    }

    /** asill_set_save: no path turns saving off; "path/" is stored when it
        fits, otherwise save_path is emptied and -1 returned. */
    method SetSave(path: Option<string>) returns (ret: int)
      requires Valid()
      modifies savePath
      ensures ret == if path.Some? && |path.value| + 1 >= MAX_PATH then -1 else 0
      ensures savePath[..] == SaveBuffer(old(savePath[..]), path)
    {
      if path.None? {
        savePath[0] := '\0';
        return 0;
      }
      var n := PrintSavePath(path.value + "/");
      if n >= MAX_PATH {
        savePath[0] := '\0';
        return -1;
      }
      return 0;
    }
  }
}
