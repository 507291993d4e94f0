// The Robofocus focuser driver: 9-byte frames (8 command characters and an
// additive checksum), the reply check, and the selection of the commands a
// request asks for, in the driver's fixed order, stopping at the first
// error.
//
// The serial port is not modelled: what robo_write sends is returned as a
// frame, and what robo_read finds in its buffer after the read is given as
// input. Opening and closing the focuser link is the shared port logic of
// the Ports module.

module Focus {
  import opened Bytes

  const RF_CMD_LENGTH: nat := 9

  // ---------------------------------------------------------------------
  // Frames and checksum

  /** The Robofocus checksum: the sum of the first 8 bytes, in one byte. */
  function RfChecksum(s: seq<Byte>): (v: Byte)
    requires |s| >= RF_CMD_LENGTH - 1
  {
    Sum(s[..RF_CMD_LENGTH - 1]) % 256
  }

  /** rf_chksum: accumulate the first 8 bytes in a char, wrapping at 256. */
  method RfChksum(s: seq<Byte>) returns (c: Byte)
    requires |s| >= RF_CMD_LENGTH - 1
    ensures c == RfChecksum(s)
  {
    c := 0;
    var i := 0;
    while i < RF_CMD_LENGTH - 1
      invariant 0 <= i <= RF_CMD_LENGTH - 1
      invariant c == Sum(s[..i]) % 256
    {
      assert s[..i + 1] == s[..i] + [s[i]];
      SumAppend(s[..i], s[i]);
      c := (c + s[i]) % 256;
      i := i + 1;
    }
  }

  /** robo_write: the first 8 command bytes, then their checksum byte. */
  method RoboWrite(cmd: seq<Byte>) returns (frame: seq<Byte>)
    requires |cmd| >= RF_CMD_LENGTH - 1
    ensures frame == RoboFrame(cmd)
  {
    var c := RfChksum(cmd);
    frame := cmd[..RF_CMD_LENGTH - 1] + [c];
  }

  /** The frame robo_write puts on the line. */
  function RoboFrame(cmd: seq<Byte>): (f: seq<Byte>)
    requires |cmd| >= RF_CMD_LENGTH - 1
    ensures |f| == RF_CMD_LENGTH && f[..RF_CMD_LENGTH - 1] == cmd[..RF_CMD_LENGTH - 1]
  {
    cmd[..RF_CMD_LENGTH - 1] + [RfChecksum(cmd)]
  }

  /** What robo_read makes of the 9 bytes in its buffer after the read
      (bytes that did not arrive are the zeros of the memset): whether the
      checksum byte matches, and the buffer with that byte overwritten. */
  function RoboReply(buf: seq<Byte>): (r: (bool, seq<Byte>))
    requires |buf| == RF_CMD_LENGTH
    ensures r.1 == buf[..RF_CMD_LENGTH - 1] + [0]
    ensures r.0 <==> buf[RF_CMD_LENGTH - 1] == RfChecksum(buf)
  {
    (buf[RF_CMD_LENGTH - 1] == RfChecksum(buf[..RF_CMD_LENGTH - 1] + [0]), buf[..RF_CMD_LENGTH - 1] + [0])
  }

  /** robo_read on its local buffer. */
  method RoboRead(input: seq<Byte>) returns (ok: bool, buf: seq<Byte>)
    requires |input| == RF_CMD_LENGTH
    ensures (ok, buf) == RoboReply(input)
  {
    var s := new Byte[RF_CMD_LENGTH](k requires 0 <= k < RF_CMD_LENGTH => input[k]);
    var chk := s[RF_CMD_LENGTH - 1];
    s[RF_CMD_LENGTH - 1] := 0;
    buf := s[..];
    assert buf == input[..RF_CMD_LENGTH - 1] + [0];
    assert buf[..RF_CMD_LENGTH - 1] == input[..RF_CMD_LENGTH - 1];
    var c := RfChksum(buf);
    ok := chk == c;
  }

  /** A frame as robo_write sends it passes robo_read's check, and the
      reader recovers the 8 command bytes. */
  lemma RoboFrameAccepted(cmd: seq<Byte>)
    requires |cmd| >= RF_CMD_LENGTH - 1
    ensures RoboReply(RoboFrame(cmd)).0
    ensures RoboReply(RoboFrame(cmd)).1[..RF_CMD_LENGTH - 1] == cmd[..RF_CMD_LENGTH - 1]
  {
    var f := RoboFrame(cmd);
    assert f[..RF_CMD_LENGTH - 1][..RF_CMD_LENGTH - 1] == cmd[..RF_CMD_LENGTH - 1];
  }

  /** Changing one of the 8 command bytes of a good frame makes it fail the
      check. */
  lemma RoboReplyDetectsOneByteChange(f: seq<Byte>, i: nat, b: Byte)
    requires |f| == RF_CMD_LENGTH && RoboReply(f).0
    requires i < RF_CMD_LENGTH - 1 && b != f[i]
    ensures !RoboReply(f[i := b]).0
  {
    var g := f[i := b];
    SumReplace(f[..RF_CMD_LENGTH - 1], i, b);
    assert g[..RF_CMD_LENGTH - 1] == f[..RF_CMD_LENGTH - 1][i := b];
  }

  /** Replacing one element changes the sum by the difference. */
  lemma {:induction false} SumReplace(s: seq<int>, i: nat, b: int)
    requires i < |s|
    ensures Sum(s[i := b]) == Sum(s) - s[i] + b
    decreases |s|
  {
    var t := s[i := b];
    if i < |s| - 1 {
      assert t[..|t| - 1] == s[..|s| - 1][i := b];
      SumReplace(s[..|s| - 1], i, b);
    } else {
      assert t[..|t| - 1] == s[..|s| - 1];
    }
  }

  /** A device that sends nothing leaves nine zeros, which pass the check:
      the checksum cannot tell a silent focuser from a reply of zeros. */
  lemma SilentReplyAccepted()
    ensures RoboReply(seq(RF_CMD_LENGTH, _ => 0)).0
  {
    var z: seq<Byte> := seq(RF_CMD_LENGTH, _ => 0);
    assert (z[..RF_CMD_LENGTH - 1] + [0])[..RF_CMD_LENGTH - 1] == seq(RF_CMD_LENGTH - 1, _ => 0);
    SumOfZeros(RF_CMD_LENGTH - 1);
  }

  lemma {:induction false} SumOfZeros(n: nat)
    ensures Sum(seq(n, _ => 0)) == 0
  {
    if n > 0 {
      assert seq(n, _ => 0)[..n - 1] == seq(n - 1, _ => 0);
      SumOfZeros(n - 1);
    }
  }

  // ---------------------------------------------------------------------
  // Text and bytes

  /** The bytes of a command text (each char's low byte). */
  function CharBytes(s: string): (b: seq<Byte>)
    ensures |b| == |s|
    ensures forall i :: 0 <= i < |s| ==> b[i] == (s[i] as int) % 256
  {
    seq(|s|, i requires 0 <= i < |s| => (s[i] as int) % 256)
  }

  /** The characters of a reply buffer. */
  function ByteText(b: seq<Byte>): (s: string)
    ensures |s| == |b|
    ensures forall i :: 0 <= i < |b| ==> s[i] as int == b[i]
  {
    seq(|b|, i requires 0 <= i < |b| => b[i] as char)
  }

  /** Text made of 8-bit characters survives the trip to bytes and back. */
  lemma ByteTextOfCharBytes(s: string)
    requires forall i :: 0 <= i < |s| ==> s[i] as int < 256
    ensures ByteText(CharBytes(s)) == s
  {
    var b := CharBytes(s);
    var t := ByteText(b);
    forall i | 0 <= i < |s|
      ensures t[i] == s[i]
    {
      assert t[i] as int == s[i] as int;
    }
  }

  /** strtol on the C string that starts at byte k of a reply buffer. */
  function ReplyNumber(buf: seq<Byte>, k: nat): (n: int)
    requires k <= |buf|
  {
    StrToL(ByteText(CStr(buf[k..], 0)))
  }

  // ---------------------------------------------------------------------
  // Request selection (focus_robofocus)

  const FC_VERSION: bv16 := 0x0001
  const FC_MOVE_TO: bv16 := 0x0002
  const FC_MOVE_BY: bv16 := 0x0004
  const FC_STOP: bv16 := 0x0008
  const FC_MAX_TRAVEL_GET: bv16 := 0x0010
  const FC_MAX_TRAVEL_SET: bv16 := 0x0020
  const FC_CUR_POS_GET: bv16 := 0x0040
  const FC_CUR_POS_SET: bv16 := 0x0080
  const FC_BACKLASH_GET: bv16 := 0x0100
  const FC_BACKLASH_SET: bv16 := 0x0200
  const FC_MOTOR_GET: bv16 := 0x0400
  const FC_MOTOR_SET: bv16 := 0x0800
  const FC_TEMP_GET: bv16 := 0x1000

  /** The order in which focus_robofocus tries the command bits. */
  const CommandOrder: seq<bv16> := [FC_VERSION, FC_MAX_TRAVEL_GET, FC_MAX_TRAVEL_SET,
    FC_MOVE_BY, FC_MOVE_TO, FC_STOP, FC_CUR_POS_GET, FC_CUR_POS_SET,
    FC_BACKLASH_GET, FC_BACKLASH_SET, FC_MOTOR_GET, FC_MOTOR_SET, FC_TEMP_GET]

  /** struct focus. The version is kept as the text strtof would read and
      the temperature as the raw reading (half kelvin); their floating-point
      conversions are not part of this model. */
  datatype FocusRec = FocusRec(
    cmd: bv16, moveBy: int, moveTo: int, maxTravel: int, curPos: int,
    backlashSteps: int, stepSize: int, stepPause: int, dutyCycle: int,
    tempRaw: int, version: seq<Byte>, backlashIn: bool, error: bool)

  /** The serial line seen by the driver: the frames written so far and the
      reply buffers still to be read, each as robo_read finds it. */
  datatype Line = Line(written: seq<seq<Byte>>, replies: seq<seq<Byte>>)

  predicate LineValid(l: Line)
  {
    forall i :: 0 <= i < |l.replies| ==> |l.replies[i]| == RF_CMD_LENGTH
  }

  /** The next reply buffer; when nothing more arrives, the memset zeros. */
  function NextReply(l: Line): (b: seq<Byte>)
    requires LineValid(l)
    ensures |b| == RF_CMD_LENGTH
  {
    if l.replies == [] then seq(RF_CMD_LENGTH, _ => 0) else l.replies[0]
  }

  function Consume(l: Line): (m: Line)
    requires LineValid(l)
    ensures LineValid(m) && m.written == l.written
  {
    if l.replies == [] then l else Line(l.written, l.replies[1..])
  }

  function Send(l: Line, frame: seq<Byte>): (m: Line)
    ensures m.replies == l.replies && m.written == l.written + [frame]
  {
    Line(l.written + [frame], l.replies)
  }

  /** printf "%06d" */
  function Field6(v: int): (s: string)
  {
    FormatIntZeroPad(v, 6)
  }

  /** The command text written for a move by move_by steps: "FI" with the
      distance inward for move_by <= 0, "FO" with it outward otherwise. */
  function MoveByText(moveBy: int): (t: string)
    ensures |t| >= 8
    ensures moveBy <= 0 ==> t[..2] == "FI" && t[2..] == Field6(-moveBy)
    ensures moveBy > 0 ==> t[..2] == "FO" && t[2..] == Field6(moveBy)
  {
    FormatIntZeroPadShape(if moveBy <= 0 then -moveBy else moveBy, 6);
    if moveBy <= 0 then "FI" + Field6(-moveBy) else "FO" + Field6(moveBy)
  }

  /** The text written for the backlash setting: "FB", 2 for inward or 3
      for outward, and the steps in 5 digits. */
  function BacklashText(f: FocusRec): (s: string)
  {
    "FB" + (if f.backlashIn then "2" else "3") + FormatIntZeroPad(f.backlashSteps, 5)
  }

  /** The motor configuration frame: "FC000000" with bytes 2, 3 and 4
      replaced by the duty cycle, step pause and step size as chars. */
  function MotorBytes(f: FocusRec): (b: seq<Byte>)
    ensures |b| == 8
  {
    CharBytes("FC000000")[2 := f.dutyCycle % 256][3 := f.stepPause % 256][4 := f.stepSize % 256]
  }

  /** A write-then-read exchange: send the frame and take the next reply. */
  function Exchange(l: Line, cmd: seq<Byte>): (r: (bool, seq<Byte>, Line))
    requires LineValid(l) && |cmd| >= RF_CMD_LENGTH - 1
    ensures LineValid(r.2) && |r.1| == RF_CMD_LENGTH
    ensures r.2.written == l.written + [RoboFrame(cmd)]
  {
    var l1 := Send(l, RoboFrame(cmd));
    var rep := RoboReply(NextReply(l1));
    (rep.0, rep.1, Consume(l1))
  }

  /** The blocks that write a Robofocus command frame (all but STOP). */
  predicate IsFrameBlock(bit: bv16)
  {
    bit in CommandOrder && bit != FC_STOP
  }

  /** The blocks that read a reply after writing (all but the moves and STOP). */
  predicate IsExchangeBlock(bit: bv16)
  {
    IsFrameBlock(bit) && bit != FC_MOVE_BY && bit != FC_MOVE_TO
  }

  /** The 8 command characters a block writes: a constant for the queries,
      the printf'd value for the settings and moves. */
  function BlockCommand(bit: bv16, f: FocusRec): (c: seq<Byte>)
    requires IsFrameBlock(bit)
    ensures |c| >= RF_CMD_LENGTH - 1
  {
    if bit == FC_VERSION then CharBytes("FV000000")
    else if bit == FC_MAX_TRAVEL_GET then CharBytes("FL000000")
    else if bit == FC_MAX_TRAVEL_SET then FieldLength(f.maxTravel); CharBytes("FL" + Field6(f.maxTravel))
    else if bit == FC_MOVE_BY then CharBytes(MoveByText(f.moveBy))
    else if bit == FC_MOVE_TO then FieldLength(f.moveTo); CharBytes("FG" + Field6(f.moveTo))
    else if bit == FC_CUR_POS_GET then CharBytes("FS000000")
    else if bit == FC_CUR_POS_SET then FieldLength(f.curPos); CharBytes("FS" + Field6(f.curPos))
    else if bit == FC_BACKLASH_GET then CharBytes("FB000000")
    else if bit == FC_BACKLASH_SET then BacklashLength(f); CharBytes(BacklashText(f))
    else if bit == FC_MOTOR_GET then CharBytes("FC000000")
    else if bit == FC_MOTOR_SET then MotorBytes(f)
    else CharBytes("FT000000")
  }

  /** Whether a block accepts the reply: the checksum must match, and the
      version reply must also start with "FV". */
  predicate Accepted(bit: bv16, ok: bool, rep: seq<Byte>)
    requires |rep| == RF_CMD_LENGTH
  {
    ok && (bit == FC_VERSION ==> rep[0] == 'F' as int && rep[1] == 'V' as int)
  }

  /** What an accepted reply sets in struct focus, block by block. */
  function Store(bit: bv16, f: FocusRec, rep: seq<Byte>): (g: FocusRec)
    requires IsExchangeBlock(bit) && |rep| == RF_CMD_LENGTH
    ensures g.cmd == f.cmd && g.error == f.error
  {
    if bit == FC_VERSION then f.(version := CStr(rep[2..], 0))
    else if bit == FC_MAX_TRAVEL_GET || bit == FC_MAX_TRAVEL_SET then f.(maxTravel := ReplyNumber(rep, 2))
    else if bit == FC_CUR_POS_GET || bit == FC_CUR_POS_SET then f.(curPos := ReplyNumber(rep, 2))
    else if bit == FC_BACKLASH_GET || bit == FC_BACKLASH_SET then
      f.(backlashSteps := ReplyNumber(rep, 3), backlashIn := rep[2] == '2' as int)
    else if bit == FC_MOTOR_GET || bit == FC_MOTOR_SET then
      f.(dutyCycle := rep[2], stepPause := rep[3], stepSize := rep[4])
    else f.(tempRaw := ReplyNumber(rep, 2))
  }

  /** One block of focus_robofocus: nothing happens unless the bit is asked
      for and no error has been raised; a move writes its frame, STOP its
      100 X's, and every other block writes its frame and reads a reply,
      storing what the reply says or raising the error. */
  function Step(bit: bv16, f: FocusRec, l: Line): (r: (FocusRec, Line))
    requires LineValid(l)
    ensures LineValid(r.1)
  {
    if f.cmd & bit == 0 || f.error || bit !in CommandOrder then (f, l)
    else if bit == FC_STOP then (f, Send(l, CharBytes(StopText)))
    else if bit == FC_MOVE_BY || bit == FC_MOVE_TO then (f, Send(l, RoboFrame(BlockCommand(bit, f))))
    else
      var x := Exchange(l, BlockCommand(bit, f));
      if Accepted(bit, x.0, x.1) then (Store(bit, f, x.1), x.2) else (f.(error := true), x.2)
  }

  /** The 100 'X' characters that stop the focuser. */
  const StopText: string := "XXXXXXXXXXXXXXXXXXXXXXXXXXXXXXXXXXXXXXXX"
    + "XXXXXXXXXXXXXXXXXXXXXXXXXXXXXXXXXXXXXXXX" + "XXXXXXXXXXXXXXXXXXXX"

  lemma FieldLength(v: int)
    ensures |Field6(v)| >= 6
  {
    FormatIntZeroPadSplit(v, 6);
    var a := if v < 0 then -v else v;
    FormatIntZeroPadShape(a, 6);
    assert |FormatIntZeroPad(v, 6)| >= 6 by {
      var digits := NatToDec(a);
      var sign := if v < 0 then "-" else "";
      var pad := if |sign| + |digits| < 6 then 6 - |sign| - |digits| else 0;
      assert FormatIntZeroPad(v, 6) == sign + Zeros(pad) + digits;
    }
  }

  lemma BacklashLength(f: FocusRec)
    ensures |BacklashText(f)| >= 8
  {
    var v := f.backlashSteps;
    var a := if v < 0 then -v else v;
    var digits := NatToDec(a);
    var sign := if v < 0 then "-" else "";
    var pad := if |sign| + |digits| < 5 then 5 - |sign| - |digits| else 0;
    assert FormatIntZeroPad(v, 5) == sign + Zeros(pad) + digits;
  }

  /** Run the blocks from position k of CommandOrder onwards. */
  function RunFrom(k: nat, f: FocusRec, l: Line): (r: (FocusRec, Line))
    requires k <= |CommandOrder| && LineValid(l)
    ensures LineValid(r.1)
    decreases |CommandOrder| - k
  {
    if k == |CommandOrder| then (f, l)
    else
      var r := Step(CommandOrder[k], f, l);
      RunFrom(k + 1, r.0, r.1)
  }

  /** focus_robofocus: clear Error, then run every block in order. */
  function Robofocus(f: FocusRec, l: Line): (r: (FocusRec, Line))
    requires LineValid(l)
  {
    RunFrom(0, f.(error := false), l)
  }

  // ---------------------------------------------------------------------
  // Properties of the request selection

  /** A block whose bit is not asked for, or that runs after an error, does
      nothing: no write, no read, no change. */
  lemma StepSkipped(bit: bv16, f: FocusRec, l: Line)
    requires LineValid(l) && (f.cmd & bit == 0 || f.error)
    ensures Step(bit, f, l) == (f, l)
  {
  }

  /** Once an error is raised, the remaining blocks are skipped. */
  lemma {:induction false} ErrorStopsTheRest(k: nat, f: FocusRec, l: Line)
    requires k <= |CommandOrder| && LineValid(l) && f.error
    ensures RunFrom(k, f, l) == (f, l)
    decreases |CommandOrder| - k
  {
    if k < |CommandOrder| {
      StepSkipped(CommandOrder[k], f, l);
      ErrorStopsTheRest(k + 1, f, l);
    }
  }

  /** A block never changes the command word, does nothing after an error,
      and otherwise appends exactly one write when its bit is asked for and
      none when it is not. */
  lemma StepMonotone(bit: bv16, f: FocusRec, l: Line)
    requires LineValid(l)
    ensures Step(bit, f, l).0.cmd == f.cmd
    ensures f.error ==> Step(bit, f, l) == (f, l)
    ensures var w := Step(bit, f, l).1.written;
      |w| == |l.written| + (if f.cmd & bit != 0 && !f.error && bit in CommandOrder then 1 else 0)
      && w[..|l.written|] == l.written
  {
    var r := Step(bit, f, l);
    if f.cmd & bit == 0 || f.error || bit !in CommandOrder {
      assert r.1 == l;
    } else if bit == FC_STOP {
      assert r.1 == Send(l, CharBytes(StopText));
    } else if bit == FC_MOVE_BY || bit == FC_MOVE_TO {
      assert r.1 == Send(l, RoboFrame(BlockCommand(bit, f)));
    } else {
      var x := Exchange(l, BlockCommand(bit, f));
      assert r.1 == x.2;
    }
    assert r.1.written[..|l.written|] == l.written;
  }

  /** The command bits are distinct single bits. */
  lemma OtherBitsClear(i: nat, k: nat)
    requires i < |CommandOrder| && k < |CommandOrder| && i != k
    ensures CommandOrder[i] & CommandOrder[k] == 0
  {
  }

  /** Blocks whose bits are not asked for are passed over. */
  lemma {:induction false} Unasked(k: nat, j: nat, f: FocusRec, l: Line)
    requires k <= j <= |CommandOrder| && LineValid(l)
    requires forall i :: k <= i < j ==> f.cmd & CommandOrder[i] == 0
    ensures RunFrom(k, f, l) == RunFrom(j, f, l)
    decreases j - k
  {
    if k < j {
      StepSkipped(CommandOrder[k], f, l);
      Unasked(k + 1, j, f, l);
    }
  }

  /** A request for nothing writes nothing and reports no error, whatever
      Error held before the call. */
  lemma EmptyRequestDoesNothing(f: FocusRec, l: Line)
    requires LineValid(l) && f.cmd == 0
    ensures Robofocus(f, l) == (f.(error := false), l)
  {
    Unasked(0, |CommandOrder|, f.(error := false), l);
  }

  /** A request for a single command runs that command's block and no other. */
  lemma SingleRequest(k: nat, f: FocusRec, l: Line)
    requires k < |CommandOrder| && LineValid(l) && f.cmd == CommandOrder[k]
    ensures Robofocus(f, l) == Step(CommandOrder[k], f.(error := false), l)
  {
    var g := f.(error := false);
    forall i | 0 <= i < |CommandOrder| && i != k
      ensures g.cmd & CommandOrder[i] == 0
    {
      OtherBitsClear(k, i);
    }
    Unasked(0, k, g, l);
    var r := Step(CommandOrder[k], g, l);
    StepMonotone(CommandOrder[k], g, l);
    assert RunFrom(k, g, l) == RunFrom(k + 1, r.0, r.1);
    Unasked(k + 1, |CommandOrder|, r.0, r.1);
  }

  /** A move request writes exactly one frame, the move command, and never
      raises an error. */
  lemma MoveByRequest(f: FocusRec, l: Line)
    requires LineValid(l) && f.cmd == FC_MOVE_BY
    ensures Robofocus(f, l).1 == Send(l, RoboFrame(CharBytes(MoveByText(f.moveBy))))
    ensures !Robofocus(f, l).0.error
  {
    SingleRequest(3, f, l);
  }

  /** A focuser reply carrying a two-letter code and a six-digit value is
      read back as that value. */
  lemma ReplyNumberOfField(code: string, v: nat)
    requires |code| == 2 && v < 1_000_000
    ensures var cmd := CharBytes(code + Field6(v));
      |cmd| == RF_CMD_LENGTH - 1
      && RoboReply(RoboFrame(cmd)).0 && ReplyNumber(RoboReply(RoboFrame(cmd)).1, 2) == v
  {
    var field := Field6(v);
    FieldOfSmall(v);
    var t := code + field;
    assert t[2..] == field;
    var cmd := CharBytes(t);
    RoboFrameAccepted(cmd);
    assert |cmd| == RF_CMD_LENGTH - 1;
    var rep := RoboReply(RoboFrame(cmd)).1;
    assert rep == cmd + [0];
    CharBytesTail(t, 2, field);
    var digits := CharBytes(field);
    assert rep[2..] == digits + [0] + [];
    CStrOfPrefix(digits, 0, []);
    DigitBytesNonZero(field);
    CStrNoNul(digits, 0);
    assert ByteText(CStr(rep[2..], 0)) == field by {
      ByteTextOfCharBytes(field);
    }
    StrToLOfFormat(v, 6, []);
    assert field + [] == field;
  }

  lemma DigitBytesNonZero(s: string)
    requires AllDigits(s)
    ensures 0 !in CharBytes(s)
  {
    var b := CharBytes(s);
    forall i | 0 <= i < |b|
      ensures b[i] != 0
    {
      assert IsDigit(s[i]);
    }
  }

  /** Asking for the current position when the focuser answers with it
      stores that position and raises no error. */
  lemma CurPosQuery(f: FocusRec, l: Line, pos: nat)
    requires LineValid(l) && f.cmd == FC_CUR_POS_GET && pos < 1_000_000
    requires l.replies != [] && l.replies[0] == RoboFrame(CharBytes("FS" + Field6(pos)))
    ensures Robofocus(f, l).0 == f.(curPos := pos, error := false)
    ensures Robofocus(f, l).1.written == l.written + [RoboFrame(CharBytes("FS000000"))]
  {
    SingleRequest(6, f, l);
    var g := f.(error := false);
    assert CommandOrder[6] == FC_CUR_POS_GET;
    ExchangeStep(FC_CUR_POS_GET, g, l);
    assert BlockCommand(FC_CUR_POS_GET, g) == CharBytes("FS000000");
    ReplyNumberOfField("FS", pos);
  }

  /** A block that reads a reply, when the line holds one. */
  lemma ExchangeStep(bit: bv16, g: FocusRec, l: Line)
    requires LineValid(l) && IsExchangeBlock(bit) && g.cmd & bit != 0 && !g.error && l.replies != []
    ensures var rep := RoboReply(l.replies[0]);
      Step(bit, g, l) == (if Accepted(bit, rep.0, rep.1) then Store(bit, g, rep.1) else g.(error := true),
                          Line(l.written + [RoboFrame(BlockCommand(bit, g))], l.replies[1..]))
  {
  }

  /** Any block that reads a reply raises the error when the checksum byte
      is wrong, and nothing it would have stored changes. */
  lemma BadChecksumRaisesError(bit: bv16, f: FocusRec, l: Line)
    requires LineValid(l) && IsExchangeBlock(bit) && f.cmd & bit != 0 && !f.error
    requires var b := NextReply(Send(l, RoboFrame(BlockCommand(bit, f)))); b[8] != RfChecksum(b)
    ensures Step(bit, f, l).0 == f.(error := true)
  {
  }

  /** The distance in a move frame is what the focuser reads from bytes 2
      to 7, as long as it fits in six digits. */
  lemma MoveDistanceRoundTrip(moveBy: int)
    requires -1_000_000 < moveBy < 1_000_000
    ensures var t := MoveByText(moveBy);
      StrToL(ByteText(RoboFrame(CharBytes(t))[2..8])) == (if moveBy <= 0 then -moveBy else moveBy)
  {
    var a := if moveBy <= 0 then -moveBy else moveBy;
    var t := MoveByText(moveBy);
    var field := Field6(a);
    FieldOfSmall(a);
    assert t[2..] == field;
    var b := CharBytes(t);
    assert |b| == 8;
    var fr := RoboFrame(b);
    assert fr[2..8] == b[2..];
    CharBytesTail(t, 2, field);
    ByteTextOfCharBytes(field);
    assert ByteText(fr[2..8]) == field;
    StrToLOfFormat(a, 6, []);
    assert field + [] == field;
  }

  /** A value below 10^6 is written in exactly six digits. */
  lemma FieldOfSmall(a: nat)
    requires a < 1_000_000
    ensures |Field6(a)| == 6 && AllDigits(Field6(a))
    ensures forall i :: 0 <= i < 6 ==> Field6(a)[i] as int < 256
  {
    FormatIntZeroPadShape(a, 6);
    DigitCount(a);
  }

  lemma CharBytesTail(t: string, k: nat, u: string)
    requires k <= |t| && t[k..] == u
    ensures CharBytes(t)[k..] == CharBytes(u)
  {
    var b := CharBytes(t);
    forall i | 0 <= i < |u|
      ensures b[k..][i] == CharBytes(u)[i]
    {
      assert t[k + i] == u[i];
    }
  }

  /** Numbers below 10^6 have at most six digits. */
  lemma {:induction false} DigitCount(a: nat)
    requires a < 1_000_000
    ensures |NatToDec(a)| <= 6
  {
    NatToDecLength(a, 6);
  }
}
