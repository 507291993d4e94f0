// The HKUSBIO board driver: each call sends one request, built as a small
// array of bytes (an opcode, then its arguments), and some read a reply and
// pick one or two bytes out of it.
//
// The USB transfer itself is not modelled: a request is the frame that would
// be written to endpoint 1, and a reply is the bytes read from endpoint 0x81.

module HkUsbIo {
  import opened Bytes

  // Opcodes of the board firmware.
  const U_AD0: Byte := 0x37
  const U_AD1: Byte := 0x38
  const U_I2C_INIT: Byte := 0x40
  const U_I2C_IDLE: Byte := 0x41
  const U_I2C_STRT: Byte := 0x42
  const U_I2C_STOP: Byte := 0x43
  const U_I2C_SLAK: Byte := 0x44
  const U_I2C_WRIT: Byte := 0x45
  const U_I2C_MACK: Byte := 0x46
  const U_I2C_READ: Byte := 0x47
  const U_I2C_DTRD: Byte := 0x48
  const U_SPI_INIT: Byte := 0x50
  const U_SPI_TRAN: Byte := 0x51
  const U_SPI_CS: Byte := 0x52
  const U_ROM: Byte := 0x85
  const U_LED: Byte := 0x80
  const U_SWC: Byte := 0x81
  const U_GPD: Byte := 0x84
  const U_GPI: Byte := 0x82
  const U_GPO: Byte := 0x83
  const U_USS: Byte := 0x86
  const U_TST: Byte := 0x87
  const U_URC: Byte := 0x88
  const U_USC: Byte := 0x89
  const H_GETR: Byte := 0x98
  const H_SETR: Byte := 0x99
  const H_GETB: Byte := 0x9a
  const H_SETB: Byte := 0x9b

  /** Every request the module can send. */
  datatype Request =
    | RomVersion | ToggleLed | ReadSwitch
    | GpioInit(pin: Byte, dir: Byte) | GpioOut(pin: Byte) | GpioIn(pin: Byte)
    | AdcRa0 | AdcRa1
    | SerTest | SerPutc(chars: seq<Byte>) | SerPuts(chars: seq<Byte>) | SerGetc
    | SfrGetReg(reg: Byte) | SfrSetReg(reg: Byte, val: Byte)
    | SfrGetRegBit(reg: Byte, bit: Byte) | SfrSetRegBit(reg: Byte, bit: Byte, val: Byte)
    | I2cInit | I2cIdle | I2cStart(c: Byte) | I2cStop | I2cSlaveAck
    | I2cWrite(c: Byte) | I2cMasterAck(c: Byte) | I2cRead | I2cIsDataRdy
    | SpiInit(mode: Byte, baud: Byte, sample: Byte) | SpiTransfer(v: Byte) | SpiCs(select: Byte)

  /** A 14-byte SFR frame: the opcode at 0, the register at 10, the value or
      bit number at 11 and the bit value at 12, zeros elsewhere. */
  function SfrBytes(op: Byte, reg: Byte, b11: Byte, b12: Byte): (f: seq<Byte>)
    ensures |f| == 14
  {
    [op, 0, 0, 0, 0, 0, 0, 0, 0, 0, reg, b11, b12, 0]
  }

  /** A 14-byte I2C frame: the opcode at 0 and the argument at 1. */
  function I2cBytes(op: Byte, arg: Byte): (f: seq<Byte>)
    ensures |f| == 14
  {
    [op, arg, 0, 0, 0, 0, 0, 0, 0, 0, 0, 0, 0, 0]
  }

  /** A 5-byte SPI frame: the opcode and up to three arguments. */
  function SpiBytes(op: Byte, a1: Byte, a2: Byte, a3: Byte): (f: seq<Byte>)
    ensures |f| == 5
  {
    [op, a1, a2, a3, 0]
  }

  /** The bytes written for each request. */
  function Encode(r: Request): (f: seq<Byte>)
    ensures |f| >= 1
  {
    match r
    case RomVersion => [U_ROM]
    case ToggleLed => [U_LED]
    case ReadSwitch => [U_SWC]
    case GpioInit(pin, dir) => [U_GPD, pin, dir]
    case GpioOut(pin) => [U_GPO, pin, 1]
    case GpioIn(pin) => [U_GPI, pin]
    case AdcRa0 => [U_AD0]
    case AdcRa1 => [U_AD1]
    case SerTest => [U_TST]
    case SerPutc(chars) => [U_USC] + chars
    case SerPuts(chars) => [U_USS] + chars + [0]
    case SerGetc => [U_URC]
    case SfrGetReg(reg) => SfrBytes(H_GETR, reg, 0, 0)
    case SfrSetReg(reg, val) => SfrBytes(H_SETR, reg, val, 0)
    case SfrGetRegBit(reg, bit) => SfrBytes(H_GETB, reg, bit, 0)
    case SfrSetRegBit(reg, bit, val) => SfrBytes(H_SETB, reg, bit, val)
    case I2cInit => [U_I2C_INIT]
    case I2cIdle => [U_I2C_IDLE]
    case I2cStart(c) => I2cBytes(U_I2C_STRT, c)
    case I2cStop => [U_I2C_STOP]
    case I2cSlaveAck => [U_I2C_SLAK]
    case I2cWrite(c) => I2cBytes(U_I2C_WRIT, c)
    case I2cMasterAck(c) => I2cBytes(U_I2C_MACK, c)
    case I2cRead => [U_I2C_READ]
    case I2cIsDataRdy => [U_I2C_DTRD]
    case SpiInit(mode, baud, sample) => SpiBytes(U_SPI_INIT, mode, baud, sample)
    case SpiTransfer(v) => SpiBytes(U_SPI_TRAN, v, 0, 0)
    case SpiCs(select) => SpiBytes(U_SPI_CS, select, 0, 0)
  }

  /** What the board firmware reads out of a frame: the request is named by
      the opcode in byte 0 and its arguments sit at fixed places. */
  function Decode(f: seq<Byte>): (r: Option<Request>)
  {
    if |f| == 0 then None
    else
      var op := f[0];
      if |f| == 1 then
        if op == U_ROM then Some(RomVersion)
        else if op == U_LED then Some(ToggleLed)
        else if op == U_SWC then Some(ReadSwitch)
        else if op == U_AD0 then Some(AdcRa0)
        else if op == U_AD1 then Some(AdcRa1)
        else if op == U_TST then Some(SerTest)
        else if op == U_URC then Some(SerGetc)
        else if op == U_I2C_INIT then Some(I2cInit)
        else if op == U_I2C_IDLE then Some(I2cIdle)
        else if op == U_I2C_STOP then Some(I2cStop)
        else if op == U_I2C_SLAK then Some(I2cSlaveAck)
        else if op == U_I2C_READ then Some(I2cRead)
        else if op == U_I2C_DTRD then Some(I2cIsDataRdy)
        else if op == U_USC then Some(SerPutc([]))
        else None
      else if op == U_USC then Some(SerPutc(f[1..]))
      else if op == U_USS then
        if f[|f| - 1] == 0 then Some(SerPuts(f[1..|f| - 1])) else None
      else if op == U_GPD && |f| == 3 then Some(GpioInit(f[1], f[2]))
      else if op == U_GPO && |f| == 3 then Some(GpioOut(f[1]))
      else if op == U_GPI && |f| == 2 then Some(GpioIn(f[1]))
      else if |f| == 14 then
        if op == H_GETR then Some(SfrGetReg(f[10]))
        else if op == H_SETR then Some(SfrSetReg(f[10], f[11]))
        else if op == H_GETB then Some(SfrGetRegBit(f[10], f[11]))
        else if op == H_SETB then Some(SfrSetRegBit(f[10], f[11], f[12]))
        else if op == U_I2C_STRT then Some(I2cStart(f[1]))
        else if op == U_I2C_WRIT then Some(I2cWrite(f[1]))
        else if op == U_I2C_MACK then Some(I2cMasterAck(f[1]))
        else None
      else if |f| == 5 then
        if op == U_SPI_INIT then Some(SpiInit(f[1], f[2], f[3]))
        else if op == U_SPI_TRAN then Some(SpiTransfer(f[1]))
        else if op == U_SPI_CS then Some(SpiCs(f[1]))
        else None
      else None
  }

  /** Every request frame is unambiguous: the firmware reads back exactly the
      request that was sent. */
  lemma DecodeEncode(r: Request)
    ensures Decode(Encode(r)) == Some(r)
  {
    match r
    case SerPutc(chars) =>
      assert Encode(r)[1..] == chars;
    case SerPuts(chars) =>
      var f := Encode(r);
      assert f[1..|f| - 1] == chars;
    case GpioInit(_, _) => DecodeGpio(r);
    case GpioOut(_) => DecodeGpio(r);
    case GpioIn(_) => DecodeGpio(r);
    case SfrGetReg(_) => DecodeSfr(r);
    case SfrSetReg(_, _) => DecodeSfr(r);
    case SfrGetRegBit(_, _) => DecodeSfr(r);
    case SfrSetRegBit(_, _, _) => DecodeSfr(r);
    case I2cStart(_) => DecodeI2c(r);
    case I2cWrite(_) => DecodeI2c(r);
    case I2cMasterAck(_) => DecodeI2c(r);
    case SpiInit(_, _, _) => DecodeSpi(r);
    case SpiTransfer(_) => DecodeSpi(r);
    case SpiCs(_) => DecodeSpi(r);
    case _ => DecodeOneByte(r);
  }

  /** The requests sent as their opcode alone. */
  predicate OneByte(r: Request)
  {
    r.RomVersion? || r.ToggleLed? || r.ReadSwitch? || r.AdcRa0? || r.AdcRa1? || r.SerTest? ||
    r.SerGetc? || r.I2cInit? || r.I2cIdle? || r.I2cStop? || r.I2cSlaveAck? || r.I2cRead? ||
    r.I2cIsDataRdy?
  }

  lemma DecodeOneByte(r: Request)
    requires OneByte(r)
    ensures Decode(Encode(r)) == Some(r)
  {
  }

  lemma DecodeGpio(r: Request)
    requires r.GpioInit? || r.GpioOut? || r.GpioIn?
    ensures Decode(Encode(r)) == Some(r)
  {
  }

  lemma DecodeSfr(r: Request)
    requires r.SfrGetReg? || r.SfrSetReg? || r.SfrGetRegBit? || r.SfrSetRegBit?
    ensures Decode(Encode(r)) == Some(r)
  {
  }

  lemma DecodeI2c(r: Request)
    requires r.I2cStart? || r.I2cWrite? || r.I2cMasterAck?
    ensures Decode(Encode(r)) == Some(r)
  {
  }

  lemma DecodeSpi(r: Request)
    requires r.SpiInit? || r.SpiTransfer? || r.SpiCs?
    ensures Decode(Encode(r)) == Some(r)
  {
  }

  // ---------------------------------------------------------------------
  // Frame builders that fill an array('B') by index

  /** sfr_get_reg, sfr_set_reg, sfr_get_regbit and sfr_set_regbit: a zeroed
      14-byte array with the register, the value or bit and the bit value
      stored, then the opcode. */
  method SfrFrame(op: Byte, reg: Byte, b11: Byte, b12: Byte) returns (frame: seq<Byte>)
    ensures frame == SfrBytes(op, reg, b11, b12)
  {
    var a := new Byte[14](_ => 0);
    a[10] := reg;
    a[11] := b11;
    a[12] := b12;
    a[0] := op;
    frame := a[..];
  }

  /** i2c_start, i2c_write and i2c_master_ack: a zeroed 14-byte array with
      the opcode at 0 and the argument at 1. */
  method I2cFrame(op: Byte, arg: Byte) returns (frame: seq<Byte>)
    ensures frame == I2cBytes(op, arg)
  {
    var a := new Byte[14](_ => 0);
    a[0] := op;
    a[1] := arg;
    frame := a[..];
  }

  /** spi_init, spi_transfer and spi_cs: a zeroed 5-byte array. */
  method SpiFrame(op: Byte, a1: Byte, a2: Byte, a3: Byte) returns (frame: seq<Byte>)
    ensures frame == SpiBytes(op, a1, a2, a3)
  {
    var a := new Byte[5](_ => 0);
    a[0] := op;
    a[1] := a1;
    a[2] := a2;
    a[3] := a3;
    frame := a[..];
  }

  /** ser_puts: the opcode, the character codes and a NUL terminator. */
  method SerPutsFrame(s: seq<Byte>) returns (frame: seq<Byte>)
    ensures frame == Encode(SerPuts(s))
    ensures |frame| == |s| + 2 && frame[0] == U_USS && frame[|frame| - 1] == 0
    ensures forall i :: 0 <= i < |s| ==> frame[i + 1] == s[i]
  {
    frame := [U_USS] + s;
    frame := frame + [0];
  }

  // ---------------------------------------------------------------------
  // Reply decoders

  /** adc_ra0 / adc_ra1: the ADC result, low byte in reply byte 1 and high
      byte in reply byte 2, combined as ret[2] << 8 | ret[1]; the shifted
      high byte and the low byte share no bit, so the OR is a sum. */
  function AdcValue(ret: seq<Byte>): (v: UShort)
    requires |ret| >= 3
    ensures v % 256 == ret[1] && v / 256 == ret[2]
  {
    (ret[2] as int) * 256 + ret[1]
  }

  /** read_switch: the switch is pressed exactly when reply byte 1 is 0. */
  function SwitchPressed(ret: seq<Byte>): (pressed: bool)
    requires |ret| >= 2
    ensures pressed <==> ret[1] == 0
  {
    if ret[1] == 0 then true else false
  }

  /** gpio_in, ser_test, ser_getc, the SFR calls, i2c_slave_ack, i2c_read,
      i2c_isdatardy and spi_transfer all return reply byte 1. */
  function ReplyByte(ret: seq<Byte>): (b: Byte)
    requires |ret| >= 2
    ensures b == ret[1]
  {
    ret[1]
  }

  /** rom_version: reply bytes 1, 2 and 3 as characters, a dot after the first. */
  function RomVersionText(ret: seq<Byte>): (s: string)
    requires |ret| >= 4
    ensures |s| == 4 && s[1] == '.'
    ensures s[0] as int == ret[1] && s[2] as int == ret[2] && s[3] as int == ret[3]
  {
    [ret[1] as char, '.', ret[2] as char, ret[3] as char]
  }
}
