// MicroStrain 3DM-GX3 utility routines: the two reply checksums, the
// big-endian byte combiners (as compiled for a little-endian host) and the
// error-text lookup.

module I3dmgx3Utils {
  import opened Bytes

  // Status codes of the 3DM-GX3 library.
  const COMM_OK := 0
  const OK := 1
  const COMM_FAILED := -1
  const COMM_INVALID_PORTNUM := -2
  const COMM_WRITE_ERROR := -3
  const COMM_READ_ERROR := -4
  const COMM_RDLEN_ERROR := -5
  const COMM_RDTIMEOUT_ERROR := -6
  const CHECKSUM_ERROR := -7
  const INVALID_DEVICENUM := -8
  const EEPROM_DATA_ERROR := -9
  const EEPROM_ADDR_ERROR := -10
  const GYROSCALE_ERROR := -11
  const INVALID_CMD_ERROR := -12
  /** The last (most negative) error number. */
  const LAST_ERROR := -12

  /** The error-text table; entry k explains error number -k. */
  const ErrorText: seq<string> := [
    "Undefined error",
    "General failure",
    "Invalid port number",
    "Port write error",
    "Port read error",
    "Port read length error",
    "Port read timout error",
    "Checksum error",
    "Invalid device Number",
    "EEPROM data error",
    "EEPROM address error",
    "Unable to read gyro scale from EEPROM"
  ]

  // ---------------------------------------------------------------------
  // Byte combiners

  /** convert2ushort: two bytes, most significant first. */
  function Convert2UShort(b: seq<Byte>): (r: UShort)
    requires |b| >= 2
    ensures r / 256 == b[0] && r % 256 == b[1]
  {
    (b[0] as int) * 256 + b[1]
  }

  /** convert2short: the same two bytes read as a signed short. */
  function Convert2Short(b: seq<Byte>): (r: int)
    requires |b| >= 2
    ensures -0x8000 <= r < 0x8000
    ensures r % 0x1_0000 == Convert2UShort(b)
    ensures r < 0 <==> b[0] >= 0x80
  {
    ToInt16((b[0] as int) * 256 + b[1])
  }

  /** convert2ulong: four bytes, most significant first. */
  function Convert2ULong(b: seq<Byte>): (r: nat)
    requires |b| >= 4
    ensures r < 0x1_0000_0000
    ensures r / 0x100_0000 == b[0] && (r / 0x1_0000) % 256 == b[1]
    ensures (r / 256) % 256 == b[2] && r % 256 == b[3]
  {
    (((b[0] as int) * 256 + b[1]) * 256 + b[2]) * 256 + b[3]
  }

  /** convert2long: the same four bytes as a 32-bit signed long. The shift of
      the top byte into the sign bit is taken to wrap in two's complement. */
  function Convert2Long(b: seq<Byte>): (r: int)
    requires |b| >= 4
    ensures -0x8000_0000 <= r < 0x8000_0000
    ensures r % 0x1_0000_0000 == Convert2ULong(b)
  {
    ToInt32(Convert2ULong(b))
  }

  /** The two bytes a 16-bit value is sent as, most significant first. */
  function UShortBytes(v: UShort): (b: seq<Byte>)
    ensures |b| == 2
  {
    [v / 256, v % 256]
  }

  /** The four bytes a 32-bit value is sent as, most significant first. */
  function ULongBytes(v: nat): (b: seq<Byte>)
    requires v < 0x1_0000_0000
    ensures |b| == 4
  {
    [v / 0x100_0000, (v / 0x1_0000) % 256, (v / 256) % 256, v % 256]
  }

  lemma UShortRoundTrip(v: UShort)
    ensures Convert2UShort(UShortBytes(v)) == v
  {
  }

  lemma UShortBytesRoundTrip(b: seq<Byte>)
    requires |b| == 2
    ensures UShortBytes(Convert2UShort(b)) == b
  {
  }

  lemma ULongRoundTrip(v: nat)
    requires v < 0x1_0000_0000
    ensures Convert2ULong(ULongBytes(v)) == v
  {
    var q1 := v / 256;
    var q2 := q1 / 256;
    var q3 := q2 / 256;
    assert q2 == v / 0x1_0000 && q3 == v / 0x100_0000;
    var b := ULongBytes(v);
    assert b == [q3, q2 % 256, q1 % 256, v % 256];
    assert (b[0] as int) * 256 + b[1] == q2;
    assert ((b[0] as int) * 256 + b[1]) * 256 + b[2] == q1;
  }

  // ---------------------------------------------------------------------
  // Checksums

  /** i3dmgx3_Checksum: the sum of `count` bytes in an unsigned short. */
  method Checksum(bytes: seq<Byte>, count: nat) returns (sum: UShort)
    requires count <= |bytes|
    ensures sum == Sum(bytes[..count]) % 0x1_0000
  {
    sum := 0;
    var i := 0;
    while i < count
      invariant 0 <= i <= count
      invariant sum == Sum(bytes[..i]) % 0x1_0000
    {
      assert bytes[..i + 1] == bytes[..i] + [bytes[i]];
      SumAppend(bytes[..i], bytes[i]);
      sum := (sum + bytes[i]) % 0x1_0000;
      i := i + 1;
    }
  }

  /** The value i3dmgx3_Checksum computes, for use in specifications. */
  function ChecksumOf(bytes: seq<Byte>): (v: UShort)
  {
    Sum(bytes) % 0x1_0000
  }

  /** The sum of the first n signed words calcChecksum adds: the words start
      at bytes 1, 3, 5, ... */
  function WordSum(buffer: seq<Byte>, n: nat): (k: int)
    requires 2 * n < |buffer|
  {
    if n == 0 then 0 else WordSum(buffer, n - 1) + Convert2Short(buffer[2 * n - 1..])
  }

  /** The same words read as unsigned shorts. */
  function UWordSum(buffer: seq<Byte>, n: nat): (k: int)
    requires 2 * n < |buffer|
  {
    if n == 0 then 0 else UWordSum(buffer, n - 1) + Convert2UShort(buffer[2 * n - 1..])
  }

  /** calcChecksum: -1 for a buffer shorter than 4 bytes; otherwise the first
      byte plus the signed 16-bit words starting at bytes 1, 3, ... below
      length - 2, masked to 16 bits. */
  method CalcChecksum(buffer: seq<Byte>, length: int) returns (r: int)
    requires length <= |buffer|
    ensures length < 4 ==> r == -1
    ensures length >= 4 ==> r == (buffer[0] + WordSum(buffer, (length - 2) / 2)) % 0x1_0000
  {
    if length < 4 {
      return -1;
    }
    var checkSum: int := buffer[0];
    var i := 1;
    ghost var k: nat := 0;
    while i < length - 2
      invariant i == 2 * k + 1 && 2 * k <= length - 2
      invariant checkSum == buffer[0] + WordSum(buffer, k)
    {
      checkSum := checkSum + Convert2Short(buffer[i..]);
      i := i + 2;
      k := k + 1;
    }
    assert k == (length - 2) / 2;
    r := checkSum % 0x1_0000;
  }

  /** Reading the words as signed or unsigned does not change the masked sum. */
  lemma {:induction false} WordSumModulo(buffer: seq<Byte>, n: nat)
    requires 2 * n < |buffer|
    ensures (WordSum(buffer, n) - UWordSum(buffer, n)) % 0x1_0000 == 0
  {
    if n > 0 {
      WordSumModulo(buffer, n - 1);
      var d := Convert2Short(buffer[2 * n - 1..]) - Convert2UShort(buffer[2 * n - 1..]);
      assert d == 0 || d == -0x1_0000;
    }
  }

  /** For an odd length (a header byte, whole words and a 2-byte checksum) the
      sum covers bytes 0 .. length-3 exactly: the trailing checksum does not
      influence it. */
  lemma {:induction false} WordSumPrefix(b1: seq<Byte>, b2: seq<Byte>, n: nat)
    requires 2 * n < |b1| && 2 * n < |b2| && b1[..2 * n + 1] == b2[..2 * n + 1]
    ensures WordSum(b1, n) == WordSum(b2, n)
  {
    if n > 0 {
      assert b1[..2 * n - 1] == b1[..2 * n + 1][..2 * n - 1];
      assert b2[..2 * n - 1] == b2[..2 * n + 1][..2 * n - 1];
      WordSumPrefix(b1, b2, n - 1);
      assert b1[2 * n - 1] == b1[..2 * n + 1][2 * n - 1];
      assert b1[2 * n] == b1[..2 * n + 1][2 * n];
    }
  }

  lemma CalcChecksumOddIgnoresTrailer(b1: seq<Byte>, b2: seq<Byte>, length: int)
    requires 4 <= length <= |b1| && length <= |b2| && length % 2 == 1
    requires b1[..length - 2] == b2[..length - 2]
    ensures b1[0] + WordSum(b1, (length - 2) / 2) == b2[0] + WordSum(b2, (length - 2) / 2)
  {
    WordSumPrefix(b1, b2, (length - 2) / 2);
    assert b1[0] == b1[..length - 2][0];
  }

  /** For an even length the last word read is bytes length-3 and length-2,
      so the first checksum byte enters the sum: two 4-byte buffers that
      differ only there give different sums. */
  lemma CalcChecksumEvenReadsTrailer()
    ensures var b1: seq<Byte> := [0, 0, 0, 0]; var b2: seq<Byte> := [0, 0, 1, 0];
      b1[..2] == b2[..2] && WordSum(b1, (4 - 2) / 2) != WordSum(b2, (4 - 2) / 2)
  {
    var b1: seq<Byte> := [0, 0, 0, 0];
    var b2: seq<Byte> := [0, 0, 1, 0];
    assert WordSum(b1, 1) == Convert2Short(b1[1..]) == 0;
    assert WordSum(b2, 1) == Convert2Short(b2[1..]) == 1;
  }

  // ---------------------------------------------------------------------
  // Error text

  /** explainError as written: any number from LAST_ERROR to 0 indexes the
      table at -errornum. None marks a read past the end of the table. */
  function ExplainErrorAsWritten(errornum: int): (r: Option<string>)
    ensures (errornum < LAST_ERROR || errornum > 0) ==> r == Some(ErrorText[0])
  {
    if errornum < LAST_ERROR || errornum > 0 then Some(ErrorText[0])
    else if -errornum < |ErrorText| then Some(ErrorText[-errornum])
    else None
  }

  /** The guard lets INVALID_CMD_ERROR through although the table has no
      entry 12. */
  lemma ExplainErrorAsWrittenOverruns()
    ensures !(INVALID_CMD_ERROR < LAST_ERROR || INVALID_CMD_ERROR > 0)
    ensures -INVALID_CMD_ERROR == |ErrorText|
    ensures ExplainErrorAsWritten(INVALID_CMD_ERROR) == None
  {
  }

  /** explainError with the guard bounded by the table: numbers with an entry
      get it, every other number gets the "Undefined error" text. */
  function ExplainError(errornum: int): (r: string)
    ensures r in ErrorText
    ensures -|ErrorText| < errornum <= 0 ==> r == ErrorText[-errornum]
    ensures !(-|ErrorText| < errornum <= 0) ==> r == ErrorText[0]
  {
    if errornum <= -|ErrorText| || errornum > 0 then ErrorText[0] else ErrorText[-errornum]
  }

  /** Wherever the code as written reads inside its table, the corrected
      lookup gives the same text. */
  lemma ExplainErrorAgrees(errornum: int)
    requires ExplainErrorAsWritten(errornum).Some?
    ensures ExplainErrorAsWritten(errornum).value == ExplainError(errornum)
  {
  }
}
