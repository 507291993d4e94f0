// MicroStrain 3DM-GX3 command layer: request frames, the reply checksum
// test shared by every command, the two-read EEPROM query and the firmware
// version string.
//
// The serial port is not modelled: each request is given the status that
// sendBuffData and receiveData returned and the bytes that arrived.

module I3dmgx3Cmd {
  import opened Bytes
  import opened I3dmgx3Utils

  /** One request/reply on the serial port, as seen by a command routine. */
  datatype Exchange = Exchange(sendStatus: int, recvStatus: int, reply: seq<Byte>)

  // ---------------------------------------------------------------------
  // Reply checksum

  /** A reply is good when its last two bytes, most significant first, equal
      the byte sum of everything before them. */
  predicate ReplyChecksumOk(reply: seq<Byte>)
    requires |reply| >= 2
  {
    Convert2UShort(reply[|reply| - 2..]) == ChecksumOf(reply[..|reply| - 2])
  }

  /** What a device sends: a payload followed by its checksum. */
  function SealReply(payload: seq<Byte>): (r: seq<Byte>)
    ensures |r| == |payload| + 2 && r[..|payload|] == payload
  {
    payload + UShortBytes(ChecksumOf(payload))
  }

  /** A reply passes the checksum test exactly when it is its own payload
      sealed with the right checksum. */
  lemma ReplyChecksumOkIffSealed(reply: seq<Byte>)
    requires |reply| >= 2
    ensures ReplyChecksumOk(reply) <==> reply == SealReply(reply[..|reply| - 2])
  {
    var n := |reply| - 2;
    var p := reply[..n];
    assert reply == p + reply[n..];
    if ReplyChecksumOk(reply) {
      UShortBytesRoundTrip(reply[n..]);
    } else if reply == SealReply(p) {
      assert reply[n..] == UShortBytes(ChecksumOf(p));
      UShortRoundTrip(ChecksumOf(p));
      assert false;
    }
  }

  lemma SealedReplyPasses(payload: seq<Byte>)
    ensures ReplyChecksumOk(SealReply(payload))
  {
    var r := SealReply(payload);
    assert r[..|r| - 2] == payload;
    ReplyChecksumOkIffSealed(r);
  }

  /** The comparison each command makes once a reply has arrived. */
  method CheckReply(reply: seq<Byte>) returns (status: int)
    requires |reply| >= 2
    ensures status == COMM_OK <==> ReplyChecksumOk(reply)
    ensures status == COMM_OK || status == CHECKSUM_ERROR
  {
    var n := |reply| - 2;
    var wChecksum := Convert2UShort(reply[n..]);
    var wCalculated := Checksum(reply, n);
    if wChecksum != wCalculated {
      status := CHECKSUM_ERROR;
    } else {
      status := COMM_OK;
    }
  }

  // ---------------------------------------------------------------------
  // Data commands (one command byte, fixed-length reply)

  /** Reply length of each single-byte data command; None for any other byte. */
  function ReplyLength(cmd: Byte): (n: Option<nat>)
    ensures n.Some? ==> n.value >= 5 && n.value % 2 == 1
  {
    if cmd == 0xC1 || cmd == 0xC2 || cmd == 0xC3 || cmd == 0xCF then Some(31)
    else if cmd == 0xC5 || cmd == 0xC6 || cmd == 0xCB || cmd == 0xD2 || cmd == 0xD3 then Some(43)
    else if cmd == 0xC7 || cmd == 0xCE then Some(19)
    else if cmd == 0xC8 then Some(67)
    else if cmd == 0xCC then Some(79)
    else if cmd == 0xD1 then Some(15)
    else if cmd == 0xE9 then Some(7)
    else None
  }

  /** The status a data command returns: a failed send is a write error, a
      failed receive a read error, a bad checksum a checksum error, and
      otherwise the receive status COMM_OK. */
  function CommandStatus(ex: Exchange): (status: int)
    requires |ex.reply| >= 2
    ensures status == COMM_OK <==>
      ex.sendStatus == COMM_OK && ex.recvStatus == COMM_OK && ReplyChecksumOk(ex.reply)
    ensures ex.sendStatus != COMM_OK ==> status == COMM_WRITE_ERROR
    ensures ex.sendStatus == COMM_OK && ex.recvStatus != COMM_OK ==> status == COMM_READ_ERROR
    ensures ex.sendStatus == COMM_OK && ex.recvStatus == COMM_OK && !ReplyChecksumOk(ex.reply) ==>
      status == CHECKSUM_ERROR
  {
    if ex.sendStatus != COMM_OK then COMM_WRITE_ERROR
    else if ex.recvStatus != COMM_OK then COMM_READ_ERROR
    else if !ReplyChecksumOk(ex.reply) then CHECKSUM_ERROR
    else COMM_OK
  }

  /** A device that sends back a sealed reply makes every data command succeed. */
  lemma CommandSucceedsOnSealedReply(payload: seq<Byte>)
    ensures CommandStatus(Exchange(COMM_OK, COMM_OK, SealReply(payload))) == COMM_OK
  {
    SealedReplyPasses(payload);
  }

  /** The exchange of data command cmd: the command byte is sent, then
      receiveData fills the caller's record buffer `record` with exactly the
      command's reply length, and the checksum is taken over those bytes. */
  function DataCommand(cmd: Byte, sendStatus: int, recvStatus: int, record: seq<Byte>): (ex: Exchange)
    requires ReplyLength(cmd).Some? && ReplyLength(cmd).value <= |record|
    ensures ex.sendStatus == sendStatus && ex.recvStatus == recvStatus
    ensures |ex.reply| == ReplyLength(cmd).value && ex.reply == record[..|ex.reply|]
  {
    Exchange(sendStatus, recvStatus, record[..ReplyLength(cmd).value])
  }

  /** Each data command checks its reply at its own length: a device that
      sends a payload sealed to exactly that length makes it succeed,
      whatever follows in the buffer. */
  lemma DataCommandSealed(cmd: Byte, payload: seq<Byte>, rest: seq<Byte>)
    requires ReplyLength(cmd) == Some(|payload| + 2)
    ensures CommandStatus(DataCommand(cmd, COMM_OK, COMM_OK, SealReply(payload) + rest)) == COMM_OK
  {
    var r := SealReply(payload) + rest;
    assert r[..|payload| + 2] == SealReply(payload);
    SealedReplyPasses(payload);
  }

  /** The bytes past a data command's reply length are never read: two
      buffers that agree on the reply give the same status. */
  lemma DataCommandReadsItsLength(cmd: Byte, sendStatus: int, recvStatus: int, a: seq<Byte>, b: seq<Byte>)
    requires ReplyLength(cmd).Some? && ReplyLength(cmd).value <= |a| && ReplyLength(cmd).value <= |b|
    requires a[..ReplyLength(cmd).value] == b[..ReplyLength(cmd).value]
    ensures CommandStatus(DataCommand(cmd, sendStatus, recvStatus, a)) ==
            CommandStatus(DataCommand(cmd, sendStatus, recvStatus, b))
  {
  }

  // ---------------------------------------------------------------------
  // Request frames

  /** The capture-gyro-bias request: CD C1 29 and the sample time, most
      significant byte first. */
  method CaptureGyroBiasFrame(sampt: int) returns (frame: seq<Byte>)
    requires -0x8000 <= sampt < 0x8000
    ensures |frame| == 5 && frame[..3] == [0xCD, 0xC1, 0x29]
    ensures Convert2Short(frame[3..]) == sampt
  {
    var buf := new Byte[5];
    buf[0] := 0xCD;
    buf[1] := 0xC1;
    buf[2] := 0x29;
    LowSixteen(sampt);
    buf[3] := (sampt % 0x1_0000) / 256;
    buf[4] := sampt % 256;
    frame := buf[..];
  }

  /** The two bytes C stores when it writes the low 16 bits of t high byte
      first: t % 0x10000 / 256 and t % 256 (the low byte of t is the low byte
      of its low 16 bits). */
  lemma LowSixteen(t: int)
    ensures 0 <= (t % 0x1_0000) / 256 < 256
    ensures (t % 0x1_0000) / 256 * 256 + t % 256 == t % 0x1_0000
  {
    var x := t % 0x1_0000;
    var k := (t / 0x1_0000) * 256 + x / 256;
    assert t == (t / 0x1_0000) * 0x1_0000 + x;
    assert x == (x / 256) * 256 + x % 256;
    assert k * 256 == (t / 0x1_0000) * 0x1_0000 + (x / 256) * 256;
    BlockDiv(k, 256, t);
  }

  /** The transfer-to-non-volatile-memory request: D0 C1 29 and the low 16
      bits of the quantity, most significant byte first. */
  method TransferNonVolatileFrame(transfer: int) returns (frame: seq<Byte>)
    ensures |frame| == 5 && frame[..3] == [0xD0, 0xC1, 0x29]
    ensures Convert2UShort(frame[3..]) == transfer % 0x1_0000
  {
    var buf := new Byte[5];
    buf[0] := 0xD0;
    buf[1] := 0xC1;
    buf[2] := 0x29;
    LowSixteen(transfer);
    buf[3] := (transfer % 0x1_0000) / 256;
    buf[4] := transfer % 256;
    frame := buf[..];
  }

  /** The write-gyro-bias request: CA 12 A5 followed by the 12 bias bytes. */
  method WriteGyroBiasFrame(bias: seq<Byte>) returns (frame: seq<Byte>)
    requires |bias| >= 12
    ensures |frame| == 15 && frame[..3] == [0xCA, 0x12, 0xA5] && frame[3..] == bias[..12]
  {
    var buf := new Byte[15];
    buf[0] := 0xCA;
    buf[1] := 0x12;
    buf[2] := 0xA5;
    var i := 0;
    while i < 12
      invariant 0 <= i <= 12
      invariant buf[0] == 0xCA && buf[1] == 0x12 && buf[2] == 0xA5
      invariant forall j :: 0 <= j < i ==> buf[3 + j] == bias[j]
    {
      buf[3 + i] := bias[i];
      i := i + 1;
    }
    frame := buf[..];
  }

  /** The EEPROM read request: E5 00 FC and the address byte. */
  function EepromFrame(address: int): (frame: seq<Byte>)
    ensures |frame| == 4 && frame[..3] == [0xE5, 0x00, 0xFC]
    ensures (frame[3] - address) % 256 == 0
  {
    [0xE5, 0x00, 0xFC, address % 256]
  }

  /** The device-identity request: EA and the identity selector. */
  function DeviceIdentityFrame(flag: int): (frame: seq<Byte>)
    ensures |frame| == 2 && frame[0] == 0xEA && (frame[1] - flag) % 256 == 0
  {
    [0xEA, flag % 256]
  }

  // ---------------------------------------------------------------------
  // Commands with outputs

  /** captureGyroBias: the status and, on success, the 12 bias bytes that
      follow the echoed command byte. */
  function CaptureGyroBias(ex: Exchange): (r: (int, Option<seq<Byte>>))
    requires |ex.reply| == 19
    ensures r.0 == CommandStatus(ex)
    ensures r.1.Some? <==> r.0 == COMM_OK
    ensures r.1.Some? ==> r.1.value == ex.reply[1..13]
  {
    var status := CommandStatus(ex);
    if status == COMM_OK then (status, Some(ex.reply[1..13])) else (status, None)
  }

  /** getDeviceIdentity: a failed send returns the send status itself; a
      completed exchange returns OK rather than COMM_OK. */
  function GetDeviceIdentity(ex: Exchange): (status: int)
    requires |ex.reply| == 20
    ensures ex.sendStatus != COMM_OK ==> status == ex.sendStatus
    ensures ex.sendStatus == COMM_OK ==>
      (status == OK <==> ex.recvStatus == COMM_OK && ReplyChecksumOk(ex.reply))
    ensures ex.sendStatus == COMM_OK && status != OK ==>
      status == COMM_READ_ERROR || status == CHECKSUM_ERROR
  {
    if ex.sendStatus != COMM_OK then ex.sendStatus
    else if ex.recvStatus != COMM_OK then COMM_READ_ERROR
    else if !ReplyChecksumOk(ex.reply) then CHECKSUM_ERROR
    else OK
  }

  // ---------------------------------------------------------------------
  // Firmware version

  /** The version text: n/1000, (n%1000)/100 and n%100 as "%d.%d.%d". */
  function FormatVersion(n: nat): (s: string)
  {
    FormatInt(n / 1000) + "." + FormatInt((n % 1000) / 100) + "." + FormatInt(n % 100)
  }

  /** getFirmwareVersion: the status and, when the version number in bytes 3
      and 4 is positive, its text. A version number of zero or below leaves
      the text unwritten but still returns OK. */
  function GetFirmwareVersion(ex: Exchange): (r: (int, Option<string>))
    requires |ex.reply| == 7
    ensures ex.sendStatus != COMM_OK ==> r == (ex.sendStatus, None)
    ensures ex.sendStatus == COMM_OK && ex.recvStatus != COMM_OK ==> r == (COMM_READ_ERROR, None)
    ensures r.1.Some? ==>
      (r.0 == OK && Convert2Short(ex.reply[3..]) > 0 && r.1.value == FormatVersion(Convert2Short(ex.reply[3..])))
    ensures ex.sendStatus == COMM_OK ==>
      (r.0 == OK <==> ex.recvStatus == COMM_OK && ReplyChecksumOk(ex.reply))
    ensures ex.sendStatus == COMM_OK && r.0 == OK ==>
      (r.1.Some? <==> Convert2Short(ex.reply[3..]) > 0)
  {
    if ex.sendStatus != COMM_OK then (ex.sendStatus, None)
    else if ex.recvStatus != COMM_OK then (COMM_READ_ERROR, None)
    else if !ReplyChecksumOk(ex.reply) then (CHECKSUM_ERROR, None)
    else
      var n := Convert2Short(ex.reply[3..]);
      if n > 0 then (OK, Some(FormatVersion(n))) else (OK, None)
  }

  /** Reading a version text back: three non-empty decimal fields separated
      by dots, and nothing after the third. */
  function ParseVersion(s: string): (r: Option<nat>)
  {
    var a := LeadingDigits(s);
    if a == [] || |a| == |s| || s[|a|] != '.' then None
    else
      var s1 := s[|a| + 1..];
      var b := LeadingDigits(s1);
      if b == [] || |b| == |s1| || s1[|b|] != '.' then None
      else
        var s2 := s1[|b| + 1..];
        var c := LeadingDigits(s2);
        if c == [] || |c| != |s2| then None
        else Some(VersionValue(a, b, c))
  }
  /** The version number three fields stand for. */
  function VersionValue(a: string, b: string, c: string): (n: nat)
    requires AllDigits(a) && AllDigits(b) && AllDigits(c)
  {
    DecValue(a) * 1000 + DecValue(b) * 100 + DecValue(c)
  }
  lemma DotField(A: string, rest: string)
    requires AllDigits(A)
    ensures var s := A + "." + rest; |A| < |s| && LeadingDigits(s) == A && s[|A|] == '.' && s[|A| + 1..] == rest
  {
    var s := A + "." + rest;
    assert s == A + ("." + rest);
    LeadingDigitsOfDigits(A, "." + rest);
  }
  lemma ParseParts(s: string, A: string, s1: string, B: string, C: string)
    requires AllDigits(A) && AllDigits(B) && AllDigits(C)
    requires A != [] && B != [] && C != []
    requires |A| < |s| && LeadingDigits(s) == A && s[|A|] == '.' && s[|A| + 1..] == s1
    requires |B| < |s1| && LeadingDigits(s1) == B && s1[|B|] == '.' && s1[|B| + 1..] == C
    requires LeadingDigits(C) == C
    ensures ParseVersion(s) == Some(VersionValue(A, B, C))
  {
  }
  lemma VersionFieldsRecombine(n: nat)
    ensures (n / 1000) * 1000 + ((n % 1000) / 100) * 100 + n % 100 == n
  {
    var q, m := n / 1000, n % 1000;
    var r := m % 100;
    assert n == q * 1000 + m;
    assert m == (m / 100) * 100 + r;
    var k := q * 10 + m / 100;
    assert k * 100 == q * 1000 + (m / 100) * 100;
    BlockDiv(k, 100, n);
  }

  lemma ParseThreeFields(A: string, B: string, C: string)
    requires AllDigits(A) && AllDigits(B) && AllDigits(C)
    requires A != [] && B != [] && C != []
    ensures ParseVersion(A + "." + B + "." + C) == Some(VersionValue(A, B, C))
  {
    var s1 := B + "." + C;
    var s := A + "." + B + "." + C;
    assert s == A + "." + s1;
    DotField(A, s1);
    DotField(B, C);
    LeadingDigitsOfDigits(C, []);
    assert C + [] == C;
    ParseParts(s, A, s1, B, C);
  }

  /** The version text gives back the version number it was made from. */
  lemma FirmwareVersionRoundTrip(n: nat)
    ensures ParseVersion(FormatVersion(n)) == Some(n)
  {
    var a, b, c := n / 1000, (n % 1000) / 100, n % 100;
    var A, B, C := FormatInt(a), FormatInt(b), FormatInt(c);
    FormatNat(a);
    FormatNat(b);
    FormatNat(c);
    assert FormatVersion(n) == A + "." + B + "." + C;
    ParseThreeFields(A, B, C);
    VersionValueOf(n, A, B, C);
  }

  /** Fields holding n / 1000, (n % 1000) / 100 and n % 100 stand for n. */
  lemma VersionValueOf(n: nat, A: string, B: string, C: string)
    requires AllDigits(A) && AllDigits(B) && AllDigits(C)
    requires DecValue(A) == n / 1000 && DecValue(B) == (n % 1000) / 100 && DecValue(C) == n % 100
    ensures VersionValue(A, B, C) == n
  {
    VersionFieldsRecombine(n);
  }

  // ---------------------------------------------------------------------
  // EEPROM read

  /** The value getEEPROMValue hands back: one 16-bit word, a 32-bit long
      built from two words, or the four bytes that make up a float. */
  datatype EepromValue = Word(w: UShort) | Long(l: int) | FloatBytes(b: seq<Byte>)

  datatype EepromResult = EepromResult(status: int, value: Option<EepromValue>)

  /** The 4 bytes assembled from two EEPROM replies: the word at address+2
      first, then the word at address. */
  function ConvertBuff(first: seq<Byte>, second: seq<Byte>): (b: seq<Byte>)
    requires |first| == 5 && |second| == 5
    ensures |b| == 4
  {
    [second[1], second[2], first[1], first[2]]
  }

  function EepromTwoWordValue(readFlag: int, first: seq<Byte>, second: seq<Byte>): (r: EepromValue)
    requires |first| == 5 && |second| == 5
  {
    var cb := ConvertBuff(first, second);
    if readFlag == 1 then Long(ToInt32(Convert2ULong(cb))) else FloatBytes(cb)
  }

  /** getEEPROMValue as written: the second reply's checksum is compared
      with the checksum word stored in the FIRST reply. */
  function GetEepromValueAsWritten(readFlag: int, first: Exchange, second: Exchange): (r: EepromResult)
    requires |first.reply| == 5 && |second.reply| == 5
    ensures first.sendStatus != COMM_OK ==> r == EepromResult(first.sendStatus, None)
  {
    if first.sendStatus != COMM_OK then EepromResult(first.sendStatus, None)
    else if first.recvStatus != COMM_OK then EepromResult(COMM_READ_ERROR, None)
    else if !ReplyChecksumOk(first.reply) then EepromResult(CHECKSUM_ERROR, None)
    else if readFlag <= 0 then EepromResult(OK, Some(Word(Convert2UShort(first.reply[1..]))))
    else if second.sendStatus != COMM_OK then EepromResult(second.sendStatus, None)
    else if second.recvStatus != COMM_OK then EepromResult(COMM_READ_ERROR, None)
    else if Convert2UShort(first.reply[3..]) != ChecksumOf(second.reply[..3]) then EepromResult(CHECKSUM_ERROR, None)
    else EepromResult(OK, Some(EepromTwoWordValue(readFlag, first.reply, second.reply)))
  }

  lemma SumOfThree(x: Byte, y: Byte, z: Byte)
    ensures Sum([x, y, z]) == x + y + z
  {
    SumAppend([], x);
    SumAppend([x], y);
    SumAppend([x, y], z);
    assert [] + [x] == [x] && [x] + [y] == [x, y] && [x, y] + [z] == [x, y, z];
  }

  /** Two correct replies, words 1 and 2 each followed by their checksum:
      the code as written rejects the second one. */
  lemma EepromAsWrittenRejectsGoodSecondReply()
    ensures var first := Exchange(COMM_OK, COMM_OK, [0xE5, 0x00, 0x01, 0x00, 0xE6]);
      var second := Exchange(COMM_OK, COMM_OK, [0xE5, 0x00, 0x02, 0x00, 0xE7]);
      ReplyChecksumOk(first.reply) && ReplyChecksumOk(second.reply)
      && GetEepromValueAsWritten(1, first, second).status == CHECKSUM_ERROR
  {
    var r1: seq<Byte> := [0xE5, 0x00, 0x01, 0x00, 0xE6];
    var r2: seq<Byte> := [0xE5, 0x00, 0x02, 0x00, 0xE7];
    assert r1[..3] == [0xE5, 0x00, 0x01] && r1[3..] == [0x00, 0xE6];
    assert r2[..3] == [0xE5, 0x00, 0x02] && r2[3..] == [0x00, 0xE7];
    SumOfThree(0xE5, 0x00, 0x01);
    SumOfThree(0xE5, 0x00, 0x02);
  }

  /** getEEPROMValue with each reply checked against its own checksum. */
  function GetEepromValue(readFlag: int, first: Exchange, second: Exchange): (r: EepromResult)
    requires |first.reply| == 5 && |second.reply| == 5
    ensures first.sendStatus != COMM_OK ==> r == EepromResult(first.sendStatus, None)
    ensures first.sendStatus == COMM_OK && first.recvStatus != COMM_OK ==> r == EepromResult(COMM_READ_ERROR, None)
    ensures r.value.Some? ==> r.status == OK
    ensures readFlag <= 0 ==>
      (r.value.Some? <==> first.sendStatus == COMM_OK && first.recvStatus == COMM_OK && ReplyChecksumOk(first.reply))
    ensures readFlag <= 0 && r.value.Some? ==> r.value.value == Word(Convert2UShort(first.reply[1..]))
    ensures readFlag > 0 ==>
      (r.value.Some? <==>
        (first.sendStatus == COMM_OK && first.recvStatus == COMM_OK && ReplyChecksumOk(first.reply)
         && second.sendStatus == COMM_OK && second.recvStatus == COMM_OK && ReplyChecksumOk(second.reply)))
  {
    if first.sendStatus != COMM_OK then EepromResult(first.sendStatus, None)
    else if first.recvStatus != COMM_OK then EepromResult(COMM_READ_ERROR, None)
    else if !ReplyChecksumOk(first.reply) then EepromResult(CHECKSUM_ERROR, None)
    else if readFlag <= 0 then EepromResult(OK, Some(Word(Convert2UShort(first.reply[1..]))))
    else if second.sendStatus != COMM_OK then EepromResult(second.sendStatus, None)
    else if second.recvStatus != COMM_OK then EepromResult(COMM_READ_ERROR, None)
    else if !ReplyChecksumOk(second.reply) then EepromResult(CHECKSUM_ERROR, None)
    else EepromResult(OK, Some(EepromTwoWordValue(readFlag, first.reply, second.reply)))
  }

  /** With two sealed replies the long read returns the word at address+2 as
      the high half and the word at address as the low half. */
  lemma EepromLongFromSealedReplies(w1: UShort, w2: UShort)
    ensures var first := Exchange(COMM_OK, COMM_OK, SealReply([0xE5] + UShortBytes(w1)));
      var second := Exchange(COMM_OK, COMM_OK, SealReply([0xE5] + UShortBytes(w2)));
      GetEepromValue(1, first, second) == EepromResult(OK, Some(Long(ToInt32(w2 * 0x1_0000 + w1))))
  {
    var p1 := [0xE5] + UShortBytes(w1);
    var p2 := [0xE5] + UShortBytes(w2);
    SealedReplyPasses(p1);
    SealedReplyPasses(p2);
    var cb := ConvertBuff(SealReply(p1), SealReply(p2));
    assert cb == UShortBytes(w2) + UShortBytes(w1);
    assert Convert2ULong(cb) == w2 * 0x1_0000 + w1;
  }
}
