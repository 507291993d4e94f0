# RLAGS instrument software: a Dafny model of its protocol, buffer and state-machine core

The RLAGS balloon payload's ground and flight software drives a telescope
mount, a focuser, several cameras and an inertial measurement unit. This
project models the parts of it that are sequential, integer- or
byte-based logic below the hardware and GUI code, and proves what that
logic promises:

- **GoQat** (the SEDI camera control program):
  - the Gemini/LX200 mount protocol with its XOR checksum, the RA/Dec reply
    checks, status queries and the shared serial-port reference counts
    (`Telescope`, `Ports`);
  - the Robofocus 9-byte frames and their additive checksum (`Focus`);
  - the task-list flags, its tokenizer and its BeginLoop/If/While nesting
    check (`Tasks`);
  - the event-loop flag words and its re-arming timeout (`Loop`);
  - the Starlight Xpress command blocks, camera-info decoding, Torben
    median, progressive unpacking and guide bitmask (`Sx`);
  - `is_in_image`, subframe embedding and the FITS layout (`Image`);
  - the two-slot V4L frame FIFO, pixel-format table and integer grey
    conversion (`Augcam`);
  - double-buffered video recording (`Video`) and playback with time-stamp
    rewriting (`Playback`).
- **MicroStrain 3DM-GX3 library**: checksums, big-endian conversions,
  error texts (`I3dmgx3Utils`), and command framing with reply checks and
  firmware formatting (`I3dmgx3Cmd`).
- **Odroid USB-IO board**: opcode frames and reply decoders (`HkUsbIo`).
- **oaCapture**:
  - the camera's per-control "update needed" bitsets (`Camera`);
  - the preview's in-place flips and 16-to-8-bit reduction
    (`PreviewWidget`);
  - the output file name template (`OutputHandler`).
- **yaaca's ASI120 driver**: the command queue, register shadow and
  parameters (`Asill`).

`Bytes` and `Bits` hold the shared byte, decimal-text and bit helpers.

## How the model is built

- There is one module per source file, in its file.
- State that the source updates in place is a `class`:
  - each method is specified by a step function on a value of the state: `State() == Step(old(State()), ...)`;
  - lemmas about the step functions state what the source promises.
- Buffers the source rewrites in place are `array`s, with loops carrying their invariants.
- I/O (serial replies, USB transfers, `fopen`, `fwrite`, `fseeko`, clocks) does not appear. Instead:
  - success or failure is a `bool` parameter;
  - data read is a parameter;
  - data written is a sequence the model appends to.
- C integer widths are written out wherever a value can leave its type:
  - a conversion to `gushort`, `short` or `gint` is `Bytes.ToUShort`, `Bytes.ToInt16` or `Bytes.ToInt32`, which take the value modulo 2^16 or 2^32 into the type's range;
  - the `guint` frame offset of the playback time stamps makes their products and sums modulo 2^32 (`Video.FrameTimeAsWritten`), and the playback batches write those stamps;
  - a `long` coordinate stored in a 32-bit unsigned field is `Sx.ToU32`;
  - elsewhere the arithmetic is on unbounded integers, which agrees with C while the values stay inside their types; where the model relies on that, "## Left out" names the member.

## Model

| member | source | states |
|---|---|---|
| I3dmgx3Utils.Convert2UShort | micro_strain/Windows/Code/C/Library/source/i3dmgx3_Utils.c:155-163 | the value's high byte is the first byte and its low byte the second |
| I3dmgx3Utils.Convert2Short | micro_strain/Windows/Code/C/Library/source/i3dmgx3_Utils.c:139-147 | the same two bytes as a two's-complement short: in range, congruent to the unsigned reading modulo 2^16, negative exactly when the first byte's top bit is set |
| I3dmgx3Utils.Convert2ULong | micro_strain/Windows/Code/C/Library/source/i3dmgx3_Utils.c:187-195 | a value below 2^32 whose four bytes, most significant first, are the input bytes |
| I3dmgx3Utils.Convert2Long | micro_strain/Windows/Code/C/Library/source/i3dmgx3_Utils.c:171-179 | the same four bytes as a 32-bit signed long: in range and congruent to the unsigned reading modulo 2^32 |
| I3dmgx3Utils.UShortBytes | micro_strain/Windows/Code/C/Library/source/i3dmgx3_Utils.c:155-163 | a 16-bit value is two bytes, high byte first, the bytes convert2ushort joins |
| I3dmgx3Utils.ULongBytes | micro_strain/Windows/Code/C/Library/source/i3dmgx3_Utils.c:187-195 | a 32-bit value is four bytes, most significant first, the bytes convert2ulong joins |
| I3dmgx3Utils.UShortRoundTrip | micro_strain/Windows/Code/C/Library/source/i3dmgx3_Utils.c:155-163 | reading back the two big-endian bytes of a 16-bit value gives the value |
| I3dmgx3Utils.UShortBytesRoundTrip | micro_strain/Windows/Code/C/Library/source/i3dmgx3_Utils.c:155-163 | any two bytes are the big-endian bytes of the value they read as |
| I3dmgx3Utils.ULongRoundTrip | micro_strain/Windows/Code/C/Library/source/i3dmgx3_Utils.c:187-195 | reading back the four big-endian bytes of a 32-bit value gives the value |
| I3dmgx3Utils.Checksum | micro_strain/Windows/Code/C/Library/source/i3dmgx3_Utils.c:82-93 | the sum of the first count bytes modulo 2^16, as the unsigned short accumulator wraps |
| I3dmgx3Utils.ChecksumOf | micro_strain/Windows/Code/C/Library/source/i3dmgx3_Utils.c:82-93 | no contract of its own: the byte sum modulo 2^16 of the unsigned short accumulator; specified by Checksum |
| I3dmgx3Utils.CalcChecksum | micro_strain/Windows/Code/C/Library/source/i3dmgx3_Utils.c:56-68 | -1 below four bytes; otherwise the first byte plus the signed words at odd offsets 1, 3, ... below length-2, masked to 16 bits |
| I3dmgx3Utils.WordSum | micro_strain/Windows/Code/C/Library/source/i3dmgx3_Utils.c:56-68 | no contract of its own: the signed words at bytes 1, 3, 5, ... that calcChecksum adds; specified by CalcChecksum and WordSumModulo |
| I3dmgx3Utils.UWordSum | micro_strain/Windows/Code/C/Library/source/i3dmgx3_Utils.c:56-68 | no contract of its own: the same words read unsigned; specified by WordSumModulo |
| I3dmgx3Utils.WordSumModulo | micro_strain/Windows/Code/C/Library/source/i3dmgx3_Utils.c:56-68 | reading the words as signed or unsigned shorts gives sums equal modulo 2^16, so the mask hides the sign |
| I3dmgx3Utils.WordSumPrefix | micro_strain/Windows/Code/C/Library/source/i3dmgx3_Utils.c:56-68 | the word sum depends only on the bytes it reads |
| I3dmgx3Utils.CalcChecksumOddIgnoresTrailer | micro_strain/Windows/Code/C/Library/source/i3dmgx3_Utils.c:56-68 | for an odd length, the sum does not depend on the two checksum bytes at the end |
| I3dmgx3Utils.CalcChecksumEvenReadsTrailer | micro_strain/Windows/Code/C/Library/source/i3dmgx3_Utils.c:56-68 | for an even length, the last word read takes in the first checksum byte: two 4-byte buffers differing only there sum differently |
| I3dmgx3Utils.ExplainErrorAsWritten | micro_strain/Windows/Code/C/Library/source/i3dmgx3_Utils.c:204-209 | numbers below LAST_ERROR or above 0 give "Undefined error"; the rest index the table at -errornum, None past its end |
| I3dmgx3Utils.ExplainErrorAsWrittenOverruns | micro_strain/Windows/Code/C/Library/source/i3dmgx3_Utils.c:204-209 | the guard lets -12 (INVALID_CMD_ERROR) through, and the 12-entry table has no entry 12 |
| I3dmgx3Utils.ExplainError | micro_strain/Windows/Code/C/Library/source/i3dmgx3_Utils.c:204-209 | always one of the table's texts: entry -errornum when the table has one, "Undefined error" otherwise |
| I3dmgx3Utils.ExplainErrorAgrees | micro_strain/Windows/Code/C/Library/source/i3dmgx3_Utils.c:204-209 | wherever the code as written stays inside the table, the corrected lookup gives the same text |
| Bytes.ToUShort | Rlags_project/SEDI_Camera/src/tasks.c:1341 | the (gushort) cast gives a value from 0 to 65535 and keeps every value already in that range |
| Bytes.ToInt16 | micro_strain/Windows/Code/C/Library/source/i3dmgx3_Utils.c:139-147 | the conversion to short lies in -2^15 .. 2^15 - 1 and differs from the value by a multiple of 2^16 |
| Bytes.ToInt32 | Rlags_project/SEDI_Camera/src/video.c:866-875 | storing in a gint gives a value in -2^31 .. 2^31 - 1 that differs from the value by a multiple of 2^32, and keeps every value already in range |
| Bytes.StrToL | Rlags_project/SEDI_Camera/src/focus.c:230 | strtol gives 0 for a text that is blank, and a negative number only when the first character after the blanks is '-' |
| Bytes.IsCSpace | Rlags_project/SEDI_Camera/src/focus.c:195 | no contract of its own: the blanks strtol skips, as isspace names them in the C locale |
| Bytes.SkipSpace | Rlags_project/SEDI_Camera/src/focus.c:195 | the text strtol starts from is a suffix of its input with no blank in front |
| Bytes.LeadingDigits | Rlags_project/SEDI_Camera/src/focus.c:195 | the digits strtol reads are the longest run of digits the text starts with |
| Bytes.LeadingDigitsOfDigits | Rlags_project/SEDI_Camera/src/focus.c:195 | the digit run of digits followed by a non-digit is exactly those digits |
| Bytes.StrToLDigits | Rlags_project/SEDI_Camera/src/focus.c:195 | strtol of digits followed by a non-digit is their decimal value |
| Bytes.StrToLMinusDigits | Rlags_project/SEDI_Camera/src/focus.c:195 | strtol of '-' and digits followed by a non-digit is minus their decimal value |
| Bytes.IsDigit | Rlags_project/SEDI_Camera/src/focus.c:195 | no contract of its own: a decimal digit character, as strtol accepts them |
| Bytes.AllDigits | Rlags_project/SEDI_Camera/src/focus.c:195 | no contract of its own: every character of a text is a decimal digit |
| Bytes.DigitValue | Rlags_project/SEDI_Camera/src/focus.c:195 | the value of a digit character is below 10 |
| Bytes.DigitChar | Rlags_project/SEDI_Camera2/src/sx.c:913-916 | the character printf writes for a digit is a digit character of that value |
| Bytes.DecValue | Rlags_project/SEDI_Camera/src/focus.c:195 | no contract of its own: the value strtol reads from a string of decimal digits; specified by Bytes.DecValueOfNatToDec and Bytes.StrToLDigits |
| Bytes.FormatInt | Rlags_project/SEDI_Camera2/src/sx.c:913-916 | printf's %d text of a value is never empty and starts with '-' exactly when the value is negative |
| Bytes.NatToDec | Rlags_project/SEDI_Camera2/src/sx.c:913-916 | printf's %d of a non-negative value: at least one digit, all digits, and no leading zero unless the value is 0 |
| Bytes.Pow10 | rlags/SEDI_Camera/src/image.c:954 | 10^k is at least 1; the bound Bytes.NatToDecLength and Bytes.FormatIntLength state digit counts against |
| Bytes.NatToDecLength | rlags/SEDI_Camera/src/image.c:954 | a value below 10^k takes at most k digits |
| Bytes.FormatIntLength | rlags/SEDI_Camera/src/image.c:954-1045 | %d of a value of magnitude below 10^k takes at most k + 1 characters, so it fits a %20i field for k up to 19 |
| Bytes.FormatIntZeroPad | Rlags_project/SEDI_Camera/src/focus.c:200 | no contract of its own: printf's %0<width>d, the sign and the digits of the magnitude zero-padded to the width; specified by FormatIntZeroPadShape and FormatIntZeroPadSplit |
| Bytes.Zeros | Rlags_project/SEDI_Camera/src/focus.c:200 | the k zero characters of a zero-padded %0kd field: k characters, all '0' and all digits |
| Bytes.DecValueZerosPrefix | Rlags_project/SEDI_Camera/src/focus.c:200 | leading zeros do not change the value a digit string reads as |
| Bytes.DecValueZeros | Rlags_project/SEDI_Camera/src/focus.c:200 | a field of zeros reads as 0 |
| Bytes.FormatIntZeroPadShape | Rlags_project/SEDI_Camera/src/focus.c:200 | %0<width>d of a non-negative value is all digits, exactly the width long unless the value needs more, and reads back as the value |
| Bytes.FormatIntZeroPadSplit | Rlags_project/SEDI_Camera/src/focus.c:200 | after its sign, %0<width>d is all digits and reads back as the magnitude of the value |
| Bytes.StrToLOfFormat | Rlags_project/SEDI_Camera2/src/sx.c:447-467 | strtol of a number printed with %d (or zero padded), followed by anything but a digit, gives the number back |
| Bytes.DecValueOfNatToDec | Rlags_project/SEDI_Camera2/src/sx.c:913-916 | the decimal digits printed for a natural number have that number as their value |
| Bytes.CStr | Rlags_project/SEDI_Camera/src/telescope.c:2415-2418 | a C string is the part of the buffer before its first NUL, with no NUL in it, the NUL following it when there is one |
| Bytes.CStrNoNul | Rlags_project/SEDI_Camera/src/telescope.c:2415-2418 | a buffer with no NUL is its own C string |
| Bytes.CStrAtNul | Rlags_project/SEDI_Camera/src/telescope.c:2415-2418 | a buffer whose first NUL is at i holds the C string of its first i elements |
| Bytes.CStrOfPrefix | Rlags_project/SEDI_Camera/src/telescope.c:2415-2418 | writing a NUL after a text cuts whatever follows off the C string |
| Bytes.Sum | Rlags_project/SEDI_Camera/src/focus.c:335-336 | no contract of its own: the byte sum checksums are built from; specified by Bytes.SumAppend |
| Bytes.SumAppend | Rlags_project/SEDI_Camera/src/focus.c:335-336 | adding one more byte adds it to the sum, one turn of the checksum loop |
| Bytes.FormatNat | Rlags_project/SEDI_Camera2/src/sx.c:913-916 | the %d text of a natural number is decimal digits whose value is the number |
| Bytes.Dotted | Rlags_project/SEDI_Camera2/src/sx.c:913-916 | two texts joined by a dot split back at the dot into the same two texts |
| Bits.Pow2 | test_code/yaaca-master/asill.c:881-912 | 2^k, the value of 1 << k, is at least 1 |
| Bits.Bit | test_code/yaaca-master/asill.c:200-206 | bit i of a value is 0 or 1 |
| Bits.And | test_code/yaaca-master/asill.c:202 | no contract of its own: C's & on non-negative values; specified by Bits.BitAnd and Bits.AndBound |
| Bits.Or | test_code/yaaca-master/asill.c:204 | no contract of its own: C's bitwise or on non-negative values; specified by Bits.BitOr and Bits.OrBound |
| Bits.Not | test_code/yaaca-master/asill.c:202 | no contract of its own: C's ~ on the low k bits; specified by Bits.BitNot |
| Bits.BitAnd | test_code/yaaca-master/asill.c:202 | a bit of x & y is set exactly when it is set in both |
| Bits.BitOr | test_code/yaaca-master/asill.c:204 | a bit of x or y is set exactly when it is set in either |
| Bits.BitNot | test_code/yaaca-master/asill.c:202 | below bit k, a bit of ~x is set exactly when it is clear in x |
| Bits.BitShifted | test_code/yaaca-master/asill.c:881-882 | bit i of x << k is clear below k and is bit i - k of x from k on |
| Bits.AndBound | test_code/yaaca-master/asill.c:202 | x & y of values below 2^k stays below 2^k |
| Bits.OrBound | test_code/yaaca-master/asill.c:204 | x or y of values below 2^k stays below 2^k |
| Bits.SameBits | test_code/yaaca-master/asill.c:200-206 | two values below 2^k with the same bits are equal |
| Bits.BitPow2 | test_code/yaaca-master/asill.c:900-912 | the only bit set in 1 << k is bit k |
| I3dmgx3Cmd.ReplyChecksumOk | micro_strain/Windows/Code/C/Library/source/i3dmgx3_Cmd.c:140-144 | no contract of its own: the reply's last two bytes, most significant first, equal the byte sum of the rest; specified by ReplyChecksumOkIffSealed and SealedReplyPasses |
| I3dmgx3Cmd.SealReply | micro_strain/Windows/Code/C/Library/source/i3dmgx3_Cmd.c:140-143 | a reply as a device sends it: the payload unchanged, then two more bytes |
| I3dmgx3Cmd.ReplyChecksumOkIffSealed | micro_strain/Windows/Code/C/Library/source/i3dmgx3_Cmd.c:140-143 | a reply passes the comparison of its last two bytes with the byte sum of the rest exactly when it is its own payload sealed with that sum |
| I3dmgx3Cmd.SealedReplyPasses | micro_strain/Windows/Code/C/Library/source/i3dmgx3_Cmd.c:140-143 | every sealed payload passes the checksum comparison |
| I3dmgx3Cmd.CheckReply | micro_strain/Windows/Code/C/Library/source/i3dmgx3_Cmd.c:140-143 | COMM_OK exactly when the stored checksum equals the computed one, CHECKSUM_ERROR otherwise |
| I3dmgx3Cmd.ReplyLength | micro_strain/Windows/Code/C/Library/source/i3dmgx3_Cmd.c:92-400 | the data commands' fixed reply lengths (7 to 79) are all odd and at least five bytes |
| I3dmgx3Cmd.DataCommand | micro_strain/Windows/Code/C/Library/source/i3dmgx3_Cmd.c:92-118 | a data command's exchange keeps the send and receive statuses and takes exactly the command's reply length from the record buffer |
| I3dmgx3Cmd.DataCommandSealed | micro_strain/Windows/Code/C/Library/source/i3dmgx3_Cmd.c:92-118 | a payload sealed to exactly the command's reply length makes the data command succeed, whatever follows in the buffer |
| I3dmgx3Cmd.DataCommandReadsItsLength | micro_strain/Windows/Code/C/Library/source/i3dmgx3_Cmd.c:92-118 | the status depends only on the reply's bytes: buffers that agree up to the reply length give the same status |
| I3dmgx3Cmd.CommandStatus | micro_strain/Windows/Code/C/Library/source/i3dmgx3_Cmd.c:127-150 | a data command's status: COMM_OK exactly when send, receive and checksum all succeed; a failed send is COMM_WRITE_ERROR, a failed receive COMM_READ_ERROR, a bad sum CHECKSUM_ERROR |
| I3dmgx3Cmd.CommandSucceedsOnSealedReply | micro_strain/Windows/Code/C/Library/source/i3dmgx3_Cmd.c:127-150 | a device that sends back a sealed reply makes the data command succeed |
| I3dmgx3Cmd.CaptureGyroBiasFrame | micro_strain/Windows/Code/C/Library/source/i3dmgx3_Cmd.c:420-424 | the 5-byte request CD C1 29 followed by the sample time, which reads back as the same signed short |
| I3dmgx3Cmd.LowSixteen | micro_strain/Windows/Code/C/Library/source/i3dmgx3_Cmd.c:420-424 | the two bytes C stores for the low 16 bits of a value, high byte first, are bytes and rebuild exactly those 16 bits |
| I3dmgx3Cmd.TransferNonVolatileFrame | micro_strain/Windows/Code/C/Library/source/i3dmgx3_Cmd.c:583-587 | the 5-byte request D0 C1 29 followed by the quantity's low 16 bits, most significant first |
| I3dmgx3Cmd.WriteGyroBiasFrame | micro_strain/Windows/Code/C/Library/source/i3dmgx3_Cmd.c:468-473 | the 15-byte request CA 12 A5 followed by the first 12 bias bytes in order |
| I3dmgx3Cmd.EepromFrame | micro_strain/Windows/Code/C/Library/source/i3dmgx3_Cmd.c:738-741 | the 4-byte request E5 00 FC followed by the address, truncated to a byte |
| I3dmgx3Cmd.DeviceIdentityFrame | micro_strain/Windows/Code/C/Library/source/i3dmgx3_Cmd.c:820-821 | the request EA followed by the identity selector, truncated to a byte |
| I3dmgx3Cmd.CaptureGyroBias | micro_strain/Windows/Code/C/Library/source/i3dmgx3_Cmd.c:410-447 | the data command's status, and the 12 bias bytes after the echoed command byte exactly when it succeeds |
| I3dmgx3Cmd.GetDeviceIdentity | micro_strain/Windows/Code/C/Library/source/i3dmgx3_Cmd.c:812-838 | a failed send returns the send status itself; otherwise OK exactly when the receive and the checksum succeed, else COMM_READ_ERROR or CHECKSUM_ERROR |
| I3dmgx3Cmd.FormatVersion | micro_strain/Windows/Code/C/Library/source/i3dmgx3_Cmd.c:881-884 | no contract of its own: "%d.%d.%d" of n/1000, (n%1000)/100 and n%100; specified by FirmwareVersionRoundTrip |
| I3dmgx3Cmd.ParseVersion | micro_strain/Windows/Code/C/Library/source/i3dmgx3_Cmd.c:884 | no contract of its own: the reading back of a "%d.%d.%d" text as three dotted digit fields, the inverse FirmwareVersionRoundTrip proves |
| I3dmgx3Cmd.DotField | micro_strain/Windows/Code/C/Library/source/i3dmgx3_Cmd.c:884 | a digit field followed by a dot and the rest splits back there: the leading digits are the field and the rest follows the dot |
| I3dmgx3Cmd.ParseParts | micro_strain/Windows/Code/C/Library/source/i3dmgx3_Cmd.c:881-884 | a text made of three digit fields joined by dots parses to the version value of those fields |
| I3dmgx3Cmd.VersionValue | micro_strain/Windows/Code/C/Library/source/i3dmgx3_Cmd.c:881-883 | no contract of its own: the version number three fields stand for, major * 1000 + minor * 100 + build |
| I3dmgx3Cmd.GetFirmwareVersion | micro_strain/Windows/Code/C/Library/source/i3dmgx3_Cmd.c:852-889 | send and read failures as for the data commands; a completed exchange returns OK and writes the version text exactly when the version number in bytes 3-4 is positive, the text being n/1000, (n%1000)/100 and n%100 joined by dots |
| I3dmgx3Cmd.FirmwareVersionRoundTrip | micro_strain/Windows/Code/C/Library/source/i3dmgx3_Cmd.c:880-884 | the "%d.%d.%d" version text reads back as the version number it was written from |
| I3dmgx3Cmd.ParseThreeFields | micro_strain/Windows/Code/C/Library/source/i3dmgx3_Cmd.c:884 | three non-empty digit fields joined by dots read back as their combined value |
| I3dmgx3Cmd.VersionFieldsRecombine | micro_strain/Windows/Code/C/Library/source/i3dmgx3_Cmd.c:881-883 | the three fields n/1000, (n%1000)/100 and n%100 recombine to n |
| I3dmgx3Cmd.VersionValueOf | micro_strain/Windows/Code/C/Library/source/i3dmgx3_Cmd.c:881-883 | fields holding n / 1000, (n % 1000) / 100 and n % 100 stand for n again |
| I3dmgx3Cmd.ConvertBuff | micro_strain/Windows/Code/C/Library/source/i3dmgx3_Cmd.c:756-775 | the four bytes taken from the two replies |
| I3dmgx3Cmd.EepromTwoWordValue | micro_strain/Windows/Code/C/Library/source/i3dmgx3_Cmd.c:773-786 | no contract of its own: with readFlag 1 the long convert2ulong makes of the four bytes, otherwise the four bytes of the float; specified by EepromLongFromSealedReplies |
| I3dmgx3Cmd.GetEepromValueAsWritten | micro_strain/Windows/Code/C/Library/source/i3dmgx3_Cmd.c:724-797 | a failed first send returns its status; the second reply is compared with the checksum stored in the first reply |
| I3dmgx3Cmd.EepromAsWrittenRejectsGoodSecondReply | micro_strain/Windows/Code/C/Library/source/i3dmgx3_Cmd.c:769-772 | two correctly sealed replies (words 1 and 2) make the long read fail with CHECKSUM_ERROR as written |
| I3dmgx3Cmd.SumOfThree | micro_strain/Windows/Code/C/Library/source/i3dmgx3_Cmd.c:140-143 | the checksum sum of the three leading reply bytes is their plain sum |
| I3dmgx3Cmd.GetEepromValue | micro_strain/Windows/Code/C/Library/source/i3dmgx3_Cmd.c:724-797 | corrected: failed sends and reads as in the source; a word read succeeds exactly when the first exchange passes, a two-word read exactly when both pass, each against its own checksum; the word read returns the first reply's word |
| I3dmgx3Cmd.EepromLongFromSealedReplies | micro_strain/Windows/Code/C/Library/source/i3dmgx3_Cmd.c:756-781 | with two sealed replies the long read returns the word at address+2 as the high half and the word at address as the low half |
| HkUsbIo.SfrBytes | rlags/Odroid-USBIO-master/usbio/linux/hk_usb_io.py:154-184 | an SFR frame is fourteen bytes |
| HkUsbIo.I2cBytes | rlags/Odroid-USBIO-master/usbio/linux/hk_usb_io.py:190-210 | an I2C frame is fourteen bytes |
| HkUsbIo.SpiBytes | rlags/Odroid-USBIO-master/usbio/linux/hk_usb_io.py:219-237 | an SPI frame is five bytes |
| HkUsbIo.Encode | rlags/Odroid-USBIO-master/usbio/linux/hk_usb_io.py:98-237 | every request writes at least its opcode |
| HkUsbIo.Decode | rlags/Odroid-USBIO-master/usbio/linux/hk_usb_io.py:98-237 | no contract of its own: the reading of a frame by its opcode in byte 0 and arguments at fixed places, the independent reference for the frames these functions send; tied to Encode by HkUsbIo.DecodeEncode |
| HkUsbIo.OneByte | rlags/Odroid-USBIO-master/usbio/linux/hk_usb_io.py:98-215 | no contract of its own: the requests sent as their opcode alone (rom_version, toggle_led, read_switch, adc_ra0, adc_ra1, ser_test, ser_getc and the argument-free i2c calls) |
| HkUsbIo.DecodeEncode | rlags/Odroid-USBIO-master/usbio/linux/hk_usb_io.py:98-237 | every request's bytes decode back to exactly that request, the frames being unambiguous |
| HkUsbIo.DecodeOneByte | rlags/Odroid-USBIO-master/usbio/linux/hk_usb_io.py:98-215 | a one-byte request reads back as itself |
| HkUsbIo.DecodeGpio | rlags/Odroid-USBIO-master/usbio/linux/hk_usb_io.py:117-124 | gpio_init, gpio_out and gpio_in frames read back as the request with its pin and direction |
| HkUsbIo.DecodeSfr | rlags/Odroid-USBIO-master/usbio/linux/hk_usb_io.py:154-184 | the four SFR frames read back as the request with its register, value and bit |
| HkUsbIo.DecodeI2c | rlags/Odroid-USBIO-master/usbio/linux/hk_usb_io.py:190-210 | i2c_start, i2c_write and i2c_master_ack frames read back as the request with its value |
| HkUsbIo.DecodeSpi | rlags/Odroid-USBIO-master/usbio/linux/hk_usb_io.py:219-237 | spi_init, spi_transfer and spi_cs frames read back as the request with its arguments |
| HkUsbIo.SfrFrame | rlags/Odroid-USBIO-master/usbio/linux/hk_usb_io.py:154-184 | the zeroed 14-byte array with the register at 10, the value or bit at 11 and 12, and the opcode at 0 is the SFR frame |
| HkUsbIo.I2cFrame | rlags/Odroid-USBIO-master/usbio/linux/hk_usb_io.py:190-210 | the zeroed 14-byte array with the opcode at 0 and the argument at 1 is the I2C frame |
| HkUsbIo.SpiFrame | rlags/Odroid-USBIO-master/usbio/linux/hk_usb_io.py:219-237 | the zeroed 5-byte array with the opcode and its arguments is the SPI frame |
| HkUsbIo.SerPutsFrame | rlags/Odroid-USBIO-master/usbio/linux/hk_usb_io.py:145-149 | the opcode, the character codes in order and a NUL terminator: two bytes more than the string |
| HkUsbIo.AdcValue | rlags/Odroid-USBIO-master/usbio/linux/hk_usb_io.py:125-136 | the 16-bit reading has reply byte 1 as its low byte and reply byte 2 as its high byte |
| HkUsbIo.SwitchPressed | rlags/Odroid-USBIO-master/usbio/linux/hk_usb_io.py:110-116 | pressed exactly when reply byte 1 is 0 |
| HkUsbIo.ReplyByte | rlags/Odroid-USBIO-master/usbio/linux/hk_usb_io.py:121-124 | the reading is reply byte 1 |
| HkUsbIo.RomVersionText | rlags/Odroid-USBIO-master/usbio/linux/hk_usb_io.py:98-107 | four characters: reply byte 1, a dot, reply bytes 2 and 3 |
| Ports.PortValid | Rlags_project/SEDI_Camera/src/telescope.c:294-356 | no contract of its own: ref_count counts each holder in user once, and the device file is open exactly while the count is positive; kept by Ports.OpenKeepsValid and Ports.CloseKeepsValid |
| Ports.CloseKeepsValid | Rlags_project/SEDI_Camera/src/telescope.c:338-356 | closing keeps each holder counted once and the device open exactly while someone holds it; afterwards the closing user no longer holds the port and the holders are the old ones minus it |
| Ports.CloseStep | Rlags_project/SEDI_Camera/src/telescope.c:344-356 | a close never adds a holder or a count; on an open port the user no longer holds it, and a count that reaches 0 closes the device |
| Ports.OpenStep | Rlags_project/SEDI_Camera/src/telescope.c:294-311 | an acquire that succeeds leaves the user among the holders of a counted port and keeps the other holders; one that fails changes nothing and happens only when the port was unused and the device would not open |
| Ports.OpenLink | Rlags_project/SEDI_Camera/src/telescope.c:281-336 | a successful open leaves the user holding a counted port and keeps the other holders; a failed one adds no holder |
| Ports.CloseOnlyForHolder | Rlags_project/SEDI_Camera/src/telescope.c:338-356 | closing for a user that does not hold the port changes nothing; the device stays open exactly when another user still holds it |
| Ports.OpenKeepsValid | Rlags_project/SEDI_Camera/src/telescope.c:281-336 | opening (acquire, then probe) keeps the port valid; on success the holders gain the user, on failure the port is as before |
| Ports.OpenThenCloseRestores | Rlags_project/SEDI_Camera/src/telescope.c:281-356 | a successful open by a user that did not hold the port, followed by that user's close, leaves the port exactly as it was |
| Ports.Port.constructor | Rlags_project/SEDI_Camera/src/serial.c:74-82 | a fresh port: count 0, no holders, device closed, no focuser driver |
| Ports.Port.State | Rlags_project/SEDI_Camera/src/serial.c:75-84 | no contract of its own: the port's ref_count, user bits and open device file as one value; specified by the Ports.Port methods |
| Ports.Port.Close | Rlags_project/SEDI_Camera/src/telescope.c:338-356 | the telescope and autoguider close: the new count, holders and open flag are the release step of the old ones |
| Ports.Port.CloseFocus | Rlags_project/SEDI_Camera/src/focus.c:111-133 | the focuser close: the release step, and the Robofocus driver pointer is cleared once the device closes |
| Ports.Port.Open | Rlags_project/SEDI_Camera/src/telescope.c:281-336 | the telescope and autoguider open: already-held returns true unchanged, the first user opens the device, later users join; a failed status probe closes again and fails |
| Ports.Port.OpenFocus | Rlags_project/SEDI_Camera/src/focus.c:61-109 | the focuser open: as the telescope's, the probe being the Robofocus version request; success installs the Robofocus driver |
| Telescope.Code | Rlags_project/SEDI_Camera/src/telescope.c:2383 | no contract of its own: the byte a character is written as, its code modulo 256; its use is specified by Ascii |
| Telescope.Ascii | Rlags_project/SEDI_Camera/src/telescope.c:2383 | a text goes out as one byte per character, each the character's low byte |
| Telescope.GeminiChecksum | Rlags_project/SEDI_Camera/src/telescope.c:2478-2492 | the Gemini checksum lies in 0x40..0xBF, so it is never NUL and never '#' |
| Telescope.ChecksumByte | Rlags_project/SEDI_Camera/src/telescope.c:2489 | keeping 7 bits and adding 0x40 lands in 0x40..0xBF |
| Telescope.XorOf | Rlags_project/SEDI_Camera/src/telescope.c:2486-2488 | no contract of its own: the exclusive or of a run of bytes, which chksum folds into c; specified by ChksumAtNul, XorOfAppend and MaskedXorCancels |
| Telescope.ZeroXor | Rlags_project/SEDI_Camera/src/telescope.c:2486-2488 | folding from the checksum's starting value 0 leaves a byte unchanged |
| Telescope.XorOfSnoc | Rlags_project/SEDI_Camera/src/telescope.c:2486-2488 | appending one byte folds it into the running checksum, one turn of the loop |
| Telescope.Chksum | Rlags_project/SEDI_Camera/src/telescope.c:2478-2492 | the loop over the C string, which folds in the terminating NUL too, computes the exclusive-or checksum of the string up to its NUL |
| Telescope.ChksumAtNul | Rlags_project/SEDI_Camera/src/telescope.c:2486-2489 | the fold that stops after the NUL has taken in exactly the C string |
| Telescope.XorOfAppend | Rlags_project/SEDI_Camera/src/telescope.c:2486-2488 | the fold of a concatenation is the exclusive or of the folds |
| Telescope.XorAssoc | Rlags_project/SEDI_Camera/src/telescope.c:2486-2488 | the order in which the loop groups its xors does not matter |
| Telescope.XorOfMiddle | Rlags_project/SEDI_Camera/src/telescope.c:2486-2488 | the fold of a text with one byte in the middle is the fold of the rest with that byte xored in |
| Telescope.XorReorder | Rlags_project/SEDI_Camera/src/telescope.c:2486-2488 | a byte may be xored in before or after the rest of the text |
| Telescope.MaskedXorCancels | Rlags_project/SEDI_Camera/src/telescope.c:2489 | masking to 7 bits commutes with folding in a common byte |
| Telescope.ChecksumDetectsLowBitChange | Rlags_project/SEDI_Camera/src/telescope.c:2478-2492 | changing one byte of a text changes its checksum exactly when the change touches the low 7 bits |
| Telescope.GeminiFrame | Rlags_project/SEDI_Camera/src/telescope.c:2379 | a framed command is the text, one checksum byte and a closing '#' |
| Telescope.GeminiGetBody | Rlags_project/SEDI_Camera/src/telescope.c:2375-2378 | no contract of its own: "<id:" and, for the PEC data query, "<id:-n" with the gushort index n; its framing is specified by GeminiGetCommand |
| Telescope.GeminiGetCommand | Rlags_project/SEDI_Camera/src/telescope.c:2375-2379 | the get request written is "<id:" (or "<511:-n" for the PEC data query) followed by a checksum byte and '#' that the unit's checksum test accepts |
| Telescope.GeminiSetBody | Rlags_project/SEDI_Camera/src/telescope.c:2454-2460 | no contract of its own: ">id:v" with the integer value, or ">id:a;b;c" for the PEC data; its framing is specified by GeminiSetCommand |
| Telescope.GeminiSetCommand | Rlags_project/SEDI_Camera/src/telescope.c:2450-2463 | the set command written is ">id:v" (or ">511:a;b;c" for PEC data) followed by a checksum byte and '#' that the unit's checksum test accepts |
| Telescope.FrameChecksumOk | Rlags_project/SEDI_Camera/src/telescope.c:2379 | no contract of its own: the unit's test of a received frame, '#' last and before it the checksum of the text; specified by FrameChecksumOkIffFramed |
| Telescope.FrameChecksumOkIffFramed | Rlags_project/SEDI_Camera/src/telescope.c:2379 | a frame passes the unit's checksum test exactly when it is the framing of its own text |
| Telescope.FirstHash | Rlags_project/SEDI_Camera/src/telescope.c:2397-2405 | the first '#' of the reply: a position holding '#' with none before it, or None when there is no '#' |
| Telescope.FirstHashAt | Rlags_project/SEDI_Camera/src/telescope.c:2397-2405 | a '#' with none before it is the first one |
| Telescope.GeminiReply | Rlags_project/SEDI_Camera/src/telescope.c:2394-2424 | an accepted reply is a text of at most 7 bytes with neither '#' nor NUL in it |
| Telescope.GeminiReplyOfFrame | Rlags_project/SEDI_Camera/src/telescope.c:2387-2424 | a unit that answers with a framed text of up to 7 bytes has that text accepted, whatever follows the '#' |
| Telescope.GeminiReplyRejectsBadChecksum | Rlags_project/SEDI_Camera/src/telescope.c:2414-2424 | a reply whose checksum byte differs from the text's checksum in its low 7 bits is refused |
| Telescope.GeminiGetReply | Rlags_project/SEDI_Camera/src/telescope.c:2387-2424 | the scan for '#' (failing at index 8 or with a bare '#') and the checksum comparison accept exactly the replies the reply function accepts, returning its text |
| Telescope.QueryStatus | Rlags_project/SEDI_Camera/src/telescope.c:2290-2339 | "b#" gives TEL_START_WAIT, "G#" gives the inquiry flags (0 when the inquiry fails), any other reply TEL_UNKNOWN |
| Telescope.AxisLetter | Rlags_project/SEDI_Camera/src/telescope.c:463-481 | an axis letter exists exactly when some direction bit is set |
| Telescope.MoveStart | Rlags_project/SEDI_Camera/src/telescope.c:463-481 | a 4-byte ":M?#" command exactly when some direction bit is set; None where the C code would write from a NULL pointer |
| Telescope.MoveStop | Rlags_project/SEDI_Camera/src/telescope.c:484-504 | TM_ALL writes the 3 bytes ":Q#"; any other direction with a bit set writes a 4-byte ":Q?#" |
| Telescope.StopMatchesStart | Rlags_project/SEDI_Camera/src/telescope.c:463-504 | stopping one direction addresses the axis starting it moved: the commands differ only in 'M' against 'Q' |
| Telescope.RaOk | Rlags_project/SEDI_Camera/src/telescope.c:1825-1834 | no contract of its own: the rubbish check on the RA reply, ':' at 2 and 5 and digits elsewhere in 0..7; specified by CheckedRa and CheckRaBuffer |
| Telescope.RaCharOk | Rlags_project/SEDI_Camera/src/telescope.c:1827-1833 | no contract of its own: the test of one RA character |
| Telescope.DecOk | Rlags_project/SEDI_Camera/src/telescope.c:1849-1864 | no contract of its own: the rubbish check on the Dec reply, a sign at 0, ':' or '*' at 3, ':' at 6 and digits elsewhere in 0..8; specified by CheckedDec and CheckDecBuffer |
| Telescope.DecCharOk | Rlags_project/SEDI_Camera/src/telescope.c:1851-1863 | no contract of its own: the test of one Dec character |
| Telescope.CheckedRa | Rlags_project/SEDI_Camera/src/telescope.c:1819-1841 | the RA text is the reply when its digits and colons check, "00:00:00" otherwise, and is always a good RA |
| Telescope.CheckedDec | Rlags_project/SEDI_Camera/src/telescope.c:1843-1872 | the Dec text is the reply with '*' turned into ':' when its sign, digits and separators check, "+00:00:00" otherwise, and is always a good Dec |
| Telescope.PutText | Rlags_project/SEDI_Camera/src/telescope.c:1807-1808 | sprintf of a constant writes the text and its NUL and leaves the rest of the buffer alone |
| Telescope.CheckRaBuffer | Rlags_project/SEDI_Camera/src/telescope.c:1805-1841 | on the reply buffer: the first 8 characters become the checked RA and the terminator is written at 8 |
| Telescope.CheckDecBuffer | Rlags_project/SEDI_Camera/src/telescope.c:1808-1872 | on the reply buffer: the first 9 characters become the checked Dec and the terminator is written at 9 |
| Telescope.MeanOf | Rlags_project/SEDI_Camera/src/telescope.c:2586-2587 | no contract of its own: the sum of pos[j] / size over the buffer, in the order mean_pos adds it; specified by BufferMean, MeanOfConstant and MeanOfConstantPrefix |
| Telescope.MeanOfConstant | Rlags_project/SEDI_Camera/src/telescope.c:2586-2587 | a buffer holding one value everywhere has that value as its mean |
| Telescope.MeanOfConstantPrefix | Rlags_project/SEDI_Camera/src/telescope.c:2586-2587 | the mean of size equal values is their number times the value over size |
| Telescope.ZeroFill | Rlags_project/SEDI_Camera/src/telescope.c:2573-2580 | the reset fills the whole buffer with zeros |
| Telescope.BufferMean | Rlags_project/SEDI_Camera/src/telescope.c:2586-2587 | the loop sums every entry divided by the size, which is the buffer's mean |
| Telescope.MeanPos.constructor | Rlags_project/SEDI_Camera/src/telescope.c:2569 | both cursors start at 0 |
| Telescope.MeanPos.Cursor | Rlags_project/SEDI_Camera/src/telescope.c:2569-2571 | no contract of its own: the static cursor of the direction, h_i or v_i; specified by Update |
| Telescope.MeanPos.Update | Rlags_project/SEDI_Camera/src/telescope.c:2563-2594 | the new value is stored at the axis's cursor (0 after a reset, which zeroes the buffer first), the cursor moves on and wraps at the size, the other axis's cursor is unchanged, and the mean of the whole buffer is returned |
| Focus.RfChecksum | Rlags_project/SEDI_Camera/src/focus.c:329-339 | no contract of its own: the sum of the first 8 bytes modulo 256, which rf_chksum accumulates in a char; specified by RfChksum, RoboReply and RoboReplyDetectsOneByteChange |
| Focus.RfChksum | Rlags_project/SEDI_Camera/src/focus.c:329-340 | the loop adding the first 8 bytes into a char computes their sum modulo 256 |
| Focus.SumReplace | Rlags_project/SEDI_Camera/src/focus.c:335-336 | replacing one byte of a frame changes its byte sum by the difference, which is how a one-byte change moves the checksum |
| Focus.SumOfZeros | Rlags_project/SEDI_Camera/src/focus.c:319-323 | the memset zeros that robo_read leaves when no byte arrives sum to 0, so their checksum byte 0 matches |
| Focus.RoboWrite | Rlags_project/SEDI_Camera/src/focus.c:303-311 | robo_write puts the 8 command bytes and then their checksum byte on the line |
| Focus.RoboFrame | Rlags_project/SEDI_Camera/src/focus.c:303-311 | a frame is 9 bytes whose first 8 are the command's |
| Focus.RoboReply | Rlags_project/SEDI_Camera/src/focus.c:313-327 | a reply is accepted exactly when its ninth byte is the sum of the first eight; the buffer keeps those eight and a NUL in place of the checksum |
| Focus.RoboRead | Rlags_project/SEDI_Camera/src/focus.c:313-327 | robo_read on its buffer gives the acceptance and the buffer the reply function describes |
| Focus.RoboFrameAccepted | Rlags_project/SEDI_Camera/src/focus.c:303-327 | a frame as robo_write sends it passes robo_read's check, and the reader recovers the 8 command bytes |
| Focus.RoboReplyDetectsOneByteChange | Rlags_project/SEDI_Camera/src/focus.c:313-340 | changing one of the 8 command bytes of an accepted frame makes it fail the check |
| Focus.SilentReplyAccepted | Rlags_project/SEDI_Camera/src/focus.c:319-322 | nine zero bytes (what the memset leaves when nothing arrives) pass the check |
| Focus.CharBytes | Rlags_project/SEDI_Camera/src/focus.c:186 | a command text goes out as one byte per character, the character's low byte |
| Focus.ByteText | Rlags_project/SEDI_Camera/src/focus.c:187 | a reply buffer is read as one character per byte |
| Focus.ByteTextOfCharBytes | Rlags_project/SEDI_Camera/src/focus.c:186-187 | 8-bit text survives the trip to bytes and back |
| Focus.LineValid | Rlags_project/SEDI_Camera/src/focus.c:319-320 | no contract of its own: every reply still to be read is RF_CMD_LENGTH bytes, the size s_read fills |
| Focus.NextReply | Rlags_project/SEDI_Camera/src/focus.c:319-320 | the next buffer robo_read sees is always 9 bytes |
| Focus.Consume | Rlags_project/SEDI_Camera/src/focus.c:320 | taking a reply keeps the line's replies well-formed and writes nothing |
| Focus.Send | Rlags_project/SEDI_Camera/src/focus.c:309-310 | writing a frame appends it to what was written and reads nothing |
| Focus.MoveByText | Rlags_project/SEDI_Camera/src/focus.c:208-214 | "FI" and the inward distance for move_by <= 0, "FO" and the distance otherwise, the distance zero-padded to six places |
| Focus.Field6 | Rlags_project/SEDI_Camera/src/focus.c:200 | no contract of its own: printf's %06d; specified by FieldLength, FieldOfSmall and MoveDistanceRoundTrip |
| Focus.FieldLength | Rlags_project/SEDI_Camera/src/focus.c:200 | a %06d field is at least six characters long, so every setting fills the 8 command bytes |
| Focus.BacklashText | Rlags_project/SEDI_Camera/src/focus.c:254-255 | no contract of its own: "FB", then 2 for inward or 3 for outward, then the steps as %05d; specified by BacklashLength |
| Focus.BacklashLength | Rlags_project/SEDI_Camera/src/focus.c:254-256 | the backlash text is at least 8 characters long, so robo_write sends 8 of its bytes |
| Focus.MotorBytes | Rlags_project/SEDI_Camera/src/focus.c:276-283 | the motor frame is 8 bytes |
| Focus.Exchange | Rlags_project/SEDI_Camera/src/focus.c:183-190 | a write-then-read exchange appends the command's frame to what was written and yields a 9-byte reply |
| Focus.BlockCommand | Rlags_project/SEDI_Camera/src/focus.c:183-300 | each block writes at least 8 command characters |
| Focus.IsFrameBlock | Rlags_project/SEDI_Camera/src/focus.c:183-300 | no contract of its own: the command bits whose block writes a Robofocus frame, every block but STOP |
| Focus.IsExchangeBlock | Rlags_project/SEDI_Camera/src/focus.c:183-300 | no contract of its own: the blocks that read a reply after their frame, all but the two moves and STOP |
| Focus.Accepted | Rlags_project/SEDI_Camera/src/focus.c:186 | no contract of its own: a reply is taken when its checksum matches, and the version reply must also start with "FV"; specified by ExchangeStep and BadChecksumRaisesError |
| Focus.ReplyNumber | Rlags_project/SEDI_Camera/src/focus.c:195 | no contract of its own: strtol of the text from byte k of the reply; specified by ReplyNumberOfField and CurPosQuery |
| Focus.Store | Rlags_project/SEDI_Camera/src/focus.c:183-300 | storing a reply changes neither the request bits nor the error flag |
| Focus.Step | Rlags_project/SEDI_Camera/src/focus.c:183-300 | one block keeps the line's replies well-formed |
| Focus.RunFrom | Rlags_project/SEDI_Camera/src/focus.c:176-301 | running the blocks keeps the line's replies well-formed |
| Focus.Robofocus | Rlags_project/SEDI_Camera/src/focus.c:176-301 | no contract of its own: Error cleared, then every block run in the source's order; specified by EmptyRequestDoesNothing, SingleRequest, MoveByRequest and CurPosQuery |
| Focus.StepSkipped | Rlags_project/SEDI_Camera/src/focus.c:183-300 | a block whose bit is not asked for, or that comes after an error, writes nothing, reads nothing and changes nothing |
| Focus.ErrorStopsTheRest | Rlags_project/SEDI_Camera/src/focus.c:183-300 | once the error is raised, every remaining block is skipped |
| Focus.StepMonotone | Rlags_project/SEDI_Camera/src/focus.c:183-300 | a block keeps the request bits, does nothing after an error, and writes at most one frame |
| Focus.OtherBitsClear | Rlags_project/SEDI_Camera/src/focus.c:183-300 | the command bits are distinct single bits |
| Focus.Unasked | Rlags_project/SEDI_Camera/src/focus.c:183-300 | blocks whose bits are not asked for are passed over |
| Focus.EmptyRequestDoesNothing | Rlags_project/SEDI_Camera/src/focus.c:176-182 | a request for nothing writes nothing and reports no error, whatever Error held before |
| Focus.SingleRequest | Rlags_project/SEDI_Camera/src/focus.c:176-301 | a request for one command runs that command's block and no other |
| Focus.MoveByRequest | Rlags_project/SEDI_Camera/src/focus.c:208-215 | a move request writes exactly the move frame and never raises an error |
| Focus.ReplyNumberOfField | Rlags_project/SEDI_Camera/src/focus.c:191-198 | a reply carrying a two-letter code and a six-digit value passes the check and is read back as that value |
| Focus.CurPosQuery | Rlags_project/SEDI_Camera/src/focus.c:226-233 | asking for the position when the focuser answers "FS" and the position stores it, raises no error and writes only "FS000000" |
| Focus.ExchangeStep | Rlags_project/SEDI_Camera/src/focus.c:183-300 | a reading block appends its frame, takes the next reply, and stores it when accepted or raises the error |
| Focus.BadChecksumRaisesError | Rlags_project/SEDI_Camera/src/focus.c:313-327 | a reading block raises the error when the checksum byte is wrong and stores nothing |
| Focus.MoveDistanceRoundTrip | Rlags_project/SEDI_Camera/src/focus.c:208-214 | the distance in a move frame is what the focuser reads from bytes 2 to 7, as long as it fits in six digits |
| Focus.FieldOfSmall | Rlags_project/SEDI_Camera/src/focus.c:200 | a value below 10^6 takes exactly six digits in "%06d" |
| Focus.DigitBytesNonZero | Rlags_project/SEDI_Camera/src/focus.c:200-203 | the bytes of a digit field hold no NUL, so strtol and the C string end where the field does |
| Focus.CharBytesTail | Rlags_project/SEDI_Camera/src/focus.c:195 | the bytes after the two command letters of a frame are the bytes of its number field |
| Focus.DigitCount | Rlags_project/SEDI_Camera/src/focus.c:200 | a number below 10^6 has at most six digits, so %06d gives exactly six characters |
| Tasks.EntryAction | Rlags_project/SEDI_Camera/src/tasks.c:995-1008 | execute_tasks returns FALSE at once exactly when T_STOP is set, and TRUE at once (waiting) exactly when it is not set but T_PAUSE or T_EXEC is |
| Tasks.TaskFlags.constructor | Rlags_project/SEDI_Camera/src/tasks.c:377 | the task flags start empty |
| Tasks.TaskFlags.Start | Rlags_project/SEDI_Camera/src/tasks.c:380-387 | tasks_start sets T_START and clears T_STOP and T_EXEC, and nothing else |
| Tasks.TaskFlags.Pause | Rlags_project/SEDI_Camera/src/tasks.c:402-410 | pausing sets T_PAUSE and continuing clears it, and nothing else |
| Tasks.TaskFlags.Stop | Rlags_project/SEDI_Camera/src/tasks.c:446-448 | tasks_stop sets T_STOP and clears T_NEXT, and nothing else |
| Tasks.TaskFlags.TaskDone | Rlags_project/SEDI_Camera/src/tasks.c:452-458 | only the task type that is running clears T_EXEC; any other leaves the flags alone |
| Tasks.TaskFlags.GetStatus | Rlags_project/SEDI_Camera/src/tasks.c:1852-1869 | the status is active exactly when T_NEXT is set, test-only exactly when T_TESTONLY is set, and has no other bit |
| Tasks.TaskFlags.Entering | Rlags_project/SEDI_Camera/src/tasks.c:995-1008 | the early returns of execute_tasks, as the entry function describes them |
| Tasks.TaskFlags.Begin | Rlags_project/SEDI_Camera/src/tasks.c:1012-1028 | the T_START step clears T_START, notes the test-only mode, sets T_NEXT exactly when the list has a first row, and keeps the pause, stop and exec bits |
| Tasks.StopStops | Rlags_project/SEDI_Camera/src/tasks.c:412-449 | after tasks_stop, execute_tasks stops at once and the status is inactive |
| Tasks.StartProceeds | Rlags_project/SEDI_Camera/src/tasks.c:380-387 | after tasks_start, execution proceeds unless the list is paused, and a task that was executing is forgotten |
| Tasks.PauseResume | Rlags_project/SEDI_Camera/src/tasks.c:402-410 | a pause followed by a continue restores a list that was not paused, and a paused list waits unless stopped |
| Tasks.NonBlank | Rlags_project/SEDI_Camera/src/tasks.c:2373-2396 | the non-blank tokens keep none that is blank and are no more than the tokens |
| Tasks.NonBlankOfBlanks | Rlags_project/SEDI_Camera/src/tasks.c:2389-2393 | leading blank tokens do not change the non-blank ones |
| Tasks.Tokenizer.constructor | Rlags_project/SEDI_Camera/src/tasks.c:2373-2396 | the tokens still to come are the non-blank ones |
| Tasks.Tokenizer.Valid | Rlags_project/SEDI_Camera/src/tasks.c:2373-2396 | no contract of its own: the class invariant, the cursor lies between -1 and the end of the tokens; kept by Tasks.Tokenizer.NextToken |
| Tasks.Tokenizer.Rest | Rlags_project/SEDI_Camera/src/tasks.c:2373-2396 | no contract of its own: the non-blank tokens later calls will still return; specified by Tasks.Tokenizer.NextToken and Tasks.RestSkipsBlanks |
| Tasks.Tokenizer.NextToken | Rlags_project/SEDI_Camera/src/tasks.c:2373-2396 | next_token returns the first non-blank token still to come (from the start when Init is set) and moves past it, or NULL when none is left |
| Tasks.RestSkipsBlanks | Rlags_project/SEDI_Camera/src/tasks.c:2389-2393 | blank tokens are never returned: the next one is the first non-blank entry |
| Tasks.Marks | Rlags_project/SEDI_Camera/src/tasks.c:177 | the markers of open blocks in loop_check are non-zero |
| Tasks.MarksZeroTail | Rlags_project/SEDI_Camera/src/tasks.c:177 | zero slots at the end of loop_check close nothing |
| Tasks.MarksSnoc | Rlags_project/SEDI_Camera/src/tasks.c:1336 | pushing a non-zero marker opens one more block |
| Tasks.TopMark | Rlags_project/SEDI_Camera/src/tasks.c:1350-1362 | the innermost open block is the last non-zero slot, and zeroing it closes that block |
| Tasks.CloseTop | Rlags_project/SEDI_Camera/src/tasks.c:1350-1362 | no contract of its own: a closing statement pops the innermost open block of its kind and reports a mismatch for another kind; the contract of Tasks.LoopCheck.Close, specified by Tasks.CloseMarks |
| Tasks.CloseMarks | Rlags_project/SEDI_Camera/src/tasks.c:1350-1362 | the closing scan down from lec finds the last non-zero slot and zeroes it when it is of the closing kind, reporting a mismatch when it is not |
| Tasks.LoopCheck.constructor | Rlags_project/SEDI_Camera/src/tasks.c:177 | no block is open |
| Tasks.LoopCheck.Valid | Rlags_project/SEDI_Camera/src/tasks.c:1350-1362 | no contract of its own: the class invariant, -1 <= lec <= lc inside loop_check and every slot above lec up to lc closed (0); kept by the Tasks.LoopCheck methods |
| Tasks.LoopCheck.Restart | Rlags_project/SEDI_Camera/src/tasks.c:394-395 | tasks_start's lc = lec = -1 leaves no block open |
| Tasks.LoopCheck.Clear | Rlags_project/SEDI_Camera/src/tasks.c:443-445 | tasks_stop zeroes every slot |
| Tasks.LoopCheck.Open | Rlags_project/SEDI_Camera/src/tasks.c:177 | no contract of its own: the open blocks that loop_check[0 .. lc] records, innermost last; specified by Tasks.LoopCheck.Push and Tasks.LoopCheck.Close |
| Tasks.LoopCheck.Push | Rlags_project/SEDI_Camera/src/tasks.c:1336-1337 | an opening statement pushes its marker: the open blocks gain it at the top, while a slot of loop_check is free (see Left out) |
| Tasks.LoopCheck.PushChecked | Rlags_project/SEDI_Camera/src/tasks.c:1336-1337 | with the missing bound check: the marker is pushed exactly when a slot is free, and loop_check is never written past its end |
| Tasks.Openings | Rlags_project/SEDI_Camera/src/tasks.c:1336-1518 | a pass takes one loop_check slot per opening statement and gives none back, never more than the list's length |
| Tasks.LoopPairs | Rlags_project/SEDI_Camera/src/tasks.c:1317-1386 | a list of k BeginLoop/EndLoop pairs has 2k statements; used by Tasks.LoopPairsPass and Tasks.LoopCheckOverflows |
| Tasks.LoopPairsPass | Rlags_project/SEDI_Camera/src/tasks.c:1317-1386 | k BeginLoop/EndLoop pairs leave the pass where it started, with no error, and take k slots |
| Tasks.LoopCheckOverflows | Rlags_project/SEDI_Camera/src/tasks.c:1329-1337 | 401 BeginLoop/EndLoop pairs pass the check without error yet take 401 slots of the 400-slot loop_check |
| Tasks.LoopCheck.InnermostOpen | Rlags_project/SEDI_Camera/src/tasks.c:1350-1352 | the downward search stops at the innermost open block at or below lec, or at -1 when none is open, and every slot it passes over is closed |
| Tasks.LoopCheck.Close | Rlags_project/SEDI_Camera/src/tasks.c:1350-1362 | a closing statement changes the open blocks as the closing function describes |
| Tasks.LoopCheck.AnyOpen | Rlags_project/SEDI_Camera/src/tasks.c:1830-1839 | the end-of-pass scan reports an error exactly when some block is still open |
| Tasks.LoopCheck.ScanDown | Rlags_project/SEDI_Camera/src/tasks.c:1830-1839 | the scan stops just below the highest non-zero slot, or at -1 when every slot is zero |
| Tasks.Marker | Rlags_project/SEDI_Camera/src/tasks.c:1336 | the loop, if and while markers are non-zero |
| Tasks.PairingValid | Rlags_project/SEDI_Camera/src/tasks.c:180 | no contract of its own: the counters -1 <= iep <= ip of an If or While pairing, with one slot per statement seen |
| Tasks.OpenPair | Rlags_project/SEDI_Camera/src/tasks.c:1400-1408 | an If or While test pass: ++ip (an error from MAX_IF on) and iep = ip, opening one more unpaired slot |
| Tasks.LastOpenSlot | Rlags_project/SEDI_Camera/src/tasks.c:1476-1485 | the walk down from iep stops at the last slot without a closing partner, or at -1 |
| Tasks.ClosePair | Rlags_project/SEDI_Camera/src/tasks.c:1476-1493 | a closing statement pairs with the last unpaired slot and is an error exactly when there is none |
| Tasks.Check | Rlags_project/SEDI_Camera/src/tasks.c:1317-1570 | one statement of the test pass keeps the pass state well-formed and never clears the error |
| Tasks.CheckAll | Rlags_project/SEDI_Camera/src/tasks.c:968-1849 | the whole test pass keeps the state well-formed and never clears the error |
| Tasks.PassValid | Rlags_project/SEDI_Camera/src/tasks.c:180 | no contract of its own: both pairings of a pass are valid; kept by Tasks.Check |
| Tasks.MismatchIsError | Rlags_project/SEDI_Camera/src/tasks.c:1350-1362 | a closing statement whose innermost open block is of another kind raises the error and closes nothing |
| Tasks.TooDeepIsError | Rlags_project/SEDI_Camera/src/tasks.c:1329-1335 | a BeginLoop at depth MAX_NEST or more raises the error |
| Tasks.ErrorSticks | Rlags_project/SEDI_Camera/src/tasks.c:968-1849 | once raised, the error stays raised for the rest of the pass |
| Tasks.OpenAtEndIsError | Rlags_project/SEDI_Camera/src/tasks.c:1830-1839 | a list that ends with a block still open fails the test pass |
| Tasks.OthersChangeNothing | Rlags_project/SEDI_Camera/src/tasks.c:1317-1570 | statements other than the block statements leave the pass state alone |
| Tasks.TestOnlyError | Rlags_project/SEDI_Camera/src/tasks.c:1830-1849 | no contract of its own: the Error a TestOnly pass over the whole list reports, the final check for blocks left open included; specified by Tasks.TestOnlyErrorIffIllFormed |
| Tasks.MayOpen | Rlags_project/SEDI_Camera/src/tasks.c:1329-1507 | no contract of its own: the limits an opening statement must respect, loops nested at most MAX_NEST deep and at most MAX_IF Ifs and MAX_WHILE Whiles |
| Tasks.Wellformed | Rlags_project/SEDI_Camera/src/tasks.c:1317-1839 | no contract of its own: the reference definition of a list TestOnly accepts, every block closed by its own kind, every number parsing and the limits of Tasks.MayOpen kept; tied to the pass by Tasks.TestOnlyErrorIffIllFormed |
| Tasks.Count | Rlags_project/SEDI_Camera/src/tasks.c:177 | the blocks of one kind are no more than all open blocks |
| Tasks.CountPush | Rlags_project/SEDI_Camera/src/tasks.c:1336 | pushing a block adds one to its kind's count |
| Tasks.Bump | Rlags_project/SEDI_Camera/src/tasks.c:1400-1518 | the statement count of a kind goes up by at most one per statement |
| Tasks.OpenSlots | Rlags_project/SEDI_Camera/src/tasks.c:1476-1485 | the unpaired slots are no more than all slots |
| Tasks.OpenSlotsNone | Rlags_project/SEDI_Camera/src/tasks.c:1476-1485 | no slot is unpaired exactly when every slot has its closing statement |
| Tasks.OpenSlotsSet | Rlags_project/SEDI_Camera/src/tasks.c:1478 | pairing an unpaired slot leaves one fewer |
| Tasks.OpenSlotsPush | Rlags_project/SEDI_Camera/src/tasks.c:1408 | an opening statement adds one unpaired slot |
| Tasks.Tidy | Rlags_project/SEDI_Camera/src/tasks.c:1476-1485 | no contract of its own: every slot above iep already has its closing statement, so the walk down from iep finds the last open slot; kept by Tasks.OpenPairCounts and Tasks.ClosePairCounts |
| Tasks.Tracks | Rlags_project/SEDI_Camera/src/tasks.c:1317-1565 | no contract of its own: loop_check holds the open blocks, the depth counts the open loops and the open If and While slots their open Ifs and Whiles; kept by Tasks.BeginTracks, Tasks.EndTracks and Tasks.CheckAllTracks |
| Tasks.ClosePairCounts | Rlags_project/SEDI_Camera/src/tasks.c:1476-1493 | a closing statement finds a partner exactly when some slot is unpaired, and uses one up |
| Tasks.OpenPairCounts | Rlags_project/SEDI_Camera/src/tasks.c:1400-1408 | an opening statement adds one unpaired slot and fails exactly from MAX_IF on |
| Tasks.TracksFresh | Rlags_project/SEDI_Camera/src/tasks.c:389-396 | the pass starts tracking an empty list |
| Tasks.BeginTracks | Rlags_project/SEDI_Camera/src/tasks.c:1317-1518 | an opening statement raises the error exactly when it breaks a rule (bad parameter, too deep, too many), and otherwise keeps the tracking |
| Tasks.BeginLoopTracks | Rlags_project/SEDI_Camera/src/tasks.c:1317-1347 | BeginLoop raises the error exactly for a bad repeat or too deep a nest, and otherwise keeps the tracking |
| Tasks.BeginIfTracks | Rlags_project/SEDI_Camera/src/tasks.c:1388-1423 | IfTrue and IfFalse raise the error exactly for a bad parameter or too many statements, and otherwise keep the tracking |
| Tasks.BeginWhileTracks | Rlags_project/SEDI_Camera/src/tasks.c:1495-1536 | While raises the error exactly for a bad parameter or too many statements, and otherwise keeps the tracking |
| Tasks.CountPop | Rlags_project/SEDI_Camera/src/tasks.c:1354 | closing the top block takes one from its kind's count |
| Tasks.EndTracks | Rlags_project/SEDI_Camera/src/tasks.c:1348-1565 | a closing statement raises the error exactly when it does not match the innermost open block, and otherwise keeps the tracking |
| Tasks.CheckAllTracks | Rlags_project/SEDI_Camera/src/tasks.c:968-1849 | from a tracking state, the pass ends with an error or a block open exactly when the rest of the list is not well formed |
| Tasks.CheckAllBegin | Rlags_project/SEDI_Camera/src/tasks.c:1317-1518 | the tracking argument across an opening statement |
| Tasks.CheckAllEnd | Rlags_project/SEDI_Camera/src/tasks.c:1348-1565 | the tracking argument across a closing statement |
| Tasks.TestOnlyErrorIffIllFormed | Rlags_project/SEDI_Camera/src/tasks.c:968-1849 | the test pass reports an error exactly when the list's BeginLoop/EndLoop, If/EndIf and While/EndWhile statements are not properly nested, within the depth and count limits, with good parameters |
| Tasks.Loops.constructor | Rlags_project/SEDI_Camera/src/tasks.c:397 | loop depth -1 |
| Tasks.Loops.Valid | Rlags_project/SEDI_Camera/src/tasks.c:1338-1347 | no contract of its own: the class invariant, the repeat and count arrays are distinct, MAX_NEST long, and the depth lies between -1 and MAX_NEST - 1; kept by Tasks.Loops.BeginLoop and Tasks.Loops.EndLoop |
| Tasks.Loops.BeginLoop | Rlags_project/SEDI_Camera/src/tasks.c:1338-1347 | BeginLoop goes one deeper and stores the repeat as a gushort with the count at 1, leaving every other level alone |
| Tasks.Loops.EndLoop | Rlags_project/SEDI_Camera/src/tasks.c:1369-1386 | EndLoop at depth -1 does nothing; otherwise it goes round again while the count (then incremented) is below the repeat, and leaves the loop and goes up a level when it is not |
| Tasks.Runs | Rlags_project/SEDI_Camera/src/tasks.c:1369-1386 | from count c a loop body runs at least once and at most 2^16 - c times, and exactly once when the count has reached the repeat |
| Tasks.RunsFrom | Rlags_project/SEDI_Camera/src/tasks.c:1369-1386 | a loop at count c of repeat r runs its body r - c + 1 more times |
| Tasks.RepeatTruncated | Rlags_project/SEDI_Camera/src/tasks.c:1321-1341 | as written: 70000 repeats pass the REP_MAX = 99999 check but become 4464 in the gushort, and the loop runs 4464 times |
| Tasks.RepeatExact | Rlags_project/SEDI_Camera/src/tasks.c:1321-1341 | corrected: with repeats limited to what a gushort holds, a loop runs exactly its repeat count |
| Loop.Since | Rlags_project/SEDI_Camera/src/loop.c:726 | the guint difference of the clock and the timer is the plain difference, or wraps round by 2^32 when the clock is behind the timer |
| Loop.TimeoutStep | Rlags_project/SEDI_Camera/src/loop.c:717-731 | an unset timer is armed at the current time and does not fire; an armed one fires exactly when more than msec milliseconds (in guint arithmetic) have gone by, and is then cleared, otherwise kept |
| Loop.Timer.constructor | Rlags_project/SEDI_Camera/src/loop.c:721-724 | a timer starts unset |
| Loop.Timer.Timeout | Rlags_project/SEDI_Camera/src/loop.c:717-731 | the timer and the answer are those of the timeout step |
| Loop.TimeoutRearms | Rlags_project/SEDI_Camera/src/loop.c:721-729 | after firing, the next call re-arms the timer and does not fire |
| Loop.TimeoutArmedAt | Rlags_project/SEDI_Camera/src/loop.c:726-730 | a timer armed at a non-zero time fires at the first call more than msec after it, and a call before that keeps it |
| Loop.TimeoutArmedAtZero | Rlags_project/SEDI_Camera/src/loop.c:721-724 | a timer armed while the clock still reads 0 stays unset, so the next call arms it again |
| Loop.CcdBit | Rlags_project/SEDI_Camera/src/loop.c:47-62 | each CCD flag is one of the 16 low bits of the word |
| Loop.AugBit | Rlags_project/SEDI_Camera/src/loop.c:64-85 | each autoguider flag is one of the 22 low bits of the word |
| Loop.CcdBitsDistinct | Rlags_project/SEDI_Camera/src/loop.c:47-62 | no two CCD flags share a bit |
| Loop.AugBitsDistinct | Rlags_project/SEDI_Camera/src/loop.c:64-85 | no two autoguider flags share a bit |
| Loop.ExposureWaitStep | Rlags_project/SEDI_Camera/src/loop.c:388-409 | a wait clears ASE and records the direction; the end of a correction forgets the direction and sets ASE exactly when no direction is left; no other autoguider flag changes |
| Loop.ExposureWaits | Rlags_project/SEDI_Camera/src/loop.c:388-409 | any run of calls changes no autoguider flag but ASE |
| Loop.ExposureWaitsAse | Rlags_project/SEDI_Camera/src/loop.c:388-409 | after any run of calls ASE is off when the last one was a wait, and on when the last ended a correction and no direction is left recorded |
| Loop.OverlappingCorrections | Rlags_project/SEDI_Camera/src/loop.c:400-408 | with two corrections under way, the end of the first does not let an exposure start and the end of the second does |
| Loop.CancelStep | Rlags_project/SEDI_Camera/src/loop.c:1244-1248 | on a cancel request, CCE, CEP, CSF, CST and CSE are cleared; without one nothing changes; no other flag changes |
| Loop.ImageReadyStep | Rlags_project/SEDI_Camera/src/loop.c:1250-1257 | when the image is ready CIR and CEP are cleared, CDI is set and AGE cleared exactly when the capture succeeded; otherwise nothing changes; only those flags change |
| Loop.QuitStep | Rlags_project/SEDI_Camera/src/loop.c:1721-1727 | the loop ends exactly when it is quitting and no camera, autoguider or live-view close nor focuser motion is pending, and then OIQ is cleared |
| Loop.QuitOnce | Rlags_project/SEDI_Camera/src/loop.c:1721-1727 | once the loop has quit it does not quit again |
| Loop.NoExposureAfter | Rlags_project/SEDI_Camera/src/loop.c:1244-1257 | after the cancel check or the image-ready check has acted, no CCD exposure is in progress |
| Loop.LoopFlags.constructor | Rlags_project/SEDI_Camera/src/loop.c:132-144 | all flag words and the guide-motion mask start empty |
| Loop.LoopFlags.ExposureWait | Rlags_project/SEDI_Camera/src/loop.c:388-409 | the autoguider word and the guide motion are those of the step; the other words are unchanged |
| Loop.LoopFlags.CheckCancel | Rlags_project/SEDI_Camera/src/loop.c:1244-1248 | the CCD word is that of the cancel step; the other words are unchanged |
| Loop.LoopFlags.CheckImageReady | Rlags_project/SEDI_Camera/src/loop.c:1250-1257 | the CCD and autoguider words are those of the image-ready step; the others are unchanged |
| Loop.LoopFlags.CheckQuit | Rlags_project/SEDI_Camera/src/loop.c:1721-1727 | the loop word and the answer are those of the quit step; the other words are unchanged |
| Sx.ToU32 | Rlags_project/SEDI_Camera2/src/sx.c:636-645 | the conversion of a long coordinate to the unsigned field keeps every value that fits in 32 bits |
| Sx.Lo | Rlags_project/SEDI_Camera2/src/sx.c:1116-1124 | the low byte of a value, x & 0xFF; a value below 256 is its own low byte |
| Sx.Hi | Rlags_project/SEDI_Camera2/src/sx.c:1117-1125 | no contract of its own: x >> 8 stored in an unsigned char; specified by Sx.LE16OfLoHi |
| Sx.LE16 | Rlags_project/SEDI_Camera2/src/sx.c:944 | no contract of its own: a little-endian 16-bit reply field, ReadBlock[0] or ReadBlock[1] << 8; specified by Sx.LE16OfLoHi and Sx.CameraInfoRoundTrip |
| Sx.LE16OfLoHi | Rlags_project/SEDI_Camera2/src/sx.c:1106-1126 | splitting a 16-bit value into its low and high byte and joining them little endian gives the value back |
| Sx.Header | Rlags_project/SEDI_Camera2/src/sx.c:876-885 | every command block starts with exactly eight header bytes: request type, request, value, 0, the device id, 0, the length of what follows, 0 |
| Sx.ResetBlock | Rlags_project/SEDI_Camera2/src/sx.c:878-885 | no contract of its own: the eight bytes sx_reset sends (type 64, request 6, the device id, no data); its length is Sx.Header's ensures |
| Sx.ModelBlock | Rlags_project/SEDI_Camera2/src/sx.c:932-939 | no contract of its own: the camera-model query of sx_get_camera_info (type 192, request 14, the device id, a 2-byte reply); its length is Sx.Header's ensures |
| Sx.CcdParamsBlock | Rlags_project/SEDI_Camera2/src/sx.c:958-965 | no contract of its own: the CCD-parameter query (type 64, request 8, the device id, a 17-byte reply); its length is Sx.Header's ensures |
| Sx.FirmwareBlock | Rlags_project/SEDI_Camera2/src/sx.c:901-908 | no contract of its own: sx_get_firmware_version's query (type 64, request 255, device 0, a 4-byte reply); its length is Sx.Header's ensures |
| Sx.RowDataBlock | Rlags_project/SEDI_Camera2/src/sx.c:1107-1124 | no contract of its own: the 18-byte sx_get_row_data block; specified by Sx.RowDataCommand and Sx.RowDataFields |
| Sx.RowDataCommand | Rlags_project/SEDI_Camera2/src/sx.c:1097-1131 | the command block of sx_get_row_data is the 8-byte header followed by x, y, width and height as 16-bit little-endian pairs and the two bin factors, exactly as the specification function lays it out |
| Sx.RowDataFields | Rlags_project/SEDI_Camera2/src/sx.c:1106-1126 | the region the camera reads back out of the block is the region requested, for coordinates below 65536 and bins below 256 |
| Sx.InterlacedModel | Rlags_project/SEDI_Camera2/src/sx.c:946-951 | no contract of its own: bit 0x40 or model 0x84 marks an interlaced chip, except when the low five bits are 0x16 to 0x19; specified by Sx.Interlaced |
| Sx.MaxAdu | Rlags_project/SEDI_Camera2/src/sx.c:993 | the largest pixel value is defined exactly when the shift stays below the sign bit of an int, and then it is 2^bits - 1 |
| Sx.Interlaced | Rlags_project/SEDI_Camera2/src/sx.c:947-952 | the step-by-step IsInterlaced decision (bit 6, then model 0x84, then the low five bits 0x16 to 0x19) agrees with the one-formula interlacing rule for every model number |
| Sx.Colour | Rlags_project/SEDI_Camera2/src/sx.c:954 | the camera is colour exactly when the first byte of the model reply is at least 0x80 |
| Sx.CameraInfo | Rlags_project/SEDI_Camera2/src/sx.c:921-1003 | the camera is interlaced exactly for the model numbers the decode marks so, colour exactly when the top bit of the first model byte is set; the chip width, height (doubled when interlaced) and bit depth are the little-endian fields of the CCD reply |
| Sx.CcdReply | Rlags_project/SEDI_Camera2/src/sx.c:967-1001 | a CCD-parameter reply is 17 bytes, with the width at 2-3, the height at 6-7, the depth at 14 and the capability flags at 16; used by Sx.CameraInfoRoundTrip |
| Sx.CameraInfoRoundTrip | Rlags_project/SEDI_Camera2/src/sx.c:971-1001 | decoding a CCD reply built from a chip size, depth and capability byte recovers the width, the height (doubled for an interlaced chip), the depth and the three capability flags |
| Sx.ByteBit | Rlags_project/SEDI_Camera2/src/sx.c:997-1001 | the capability tests `& 0x01`, `& 0x10`, `& 0x20` are bits 0, 4 and 5 of the byte |
| Sx.FirmwareVersionAsWritten | Rlags_project/SEDI_Camera2/src/sx.c:913-916 | the version as written is the decimal digits of the 16-bit major number (bytes 2 and 3), a dot, and digits whose value is below 256, whatever the bytes |
| Sx.FirmwareVersion | Rlags_project/SEDI_Camera2/src/sx.c:913-916 | the corrected version is the decimal digits of the major number (bytes 2 and 3), a dot, and the decimal digits of the minor number (bytes 0 and 1, little endian) |
| Sx.FirmwareVersionReadsBack | Rlags_project/SEDI_Camera2/src/sx.c:913-916 | the corrected version string is major, a dot and minor, and strtol reads each number back from it |
| Sx.FirmwareMinorLost | Rlags_project/SEDI_Camera2/src/sx.c:913-916 | as written, firmware bytes 00 01 01 00 (version 1.256) are reported as "1.1"; the corrected decode reports "1.256" |
| Sx.GuideBlock | Rlags_project/SEDI_Camera2/src/sx.c:1133-1159 | the guide command is an 8-byte block that carries the direction mask in its value field |
| Sx.GuideAfter | Rlags_project/SEDI_Camera2/src/sx.c:1144-1147 | a command changes only the mask bits it names; with SXStop it clears all of them, otherwise it sets all of them |
| Sx.SxDirections | Rlags_project/SEDI_Camera2/src/sx.c:796-828 | the SX bits for a set of telescope directions never include the SXStop bit |
| Sx.Guide.constructor | Rlags_project/SEDI_Camera2/src/sx.c:1141 | the running-guide mask starts empty |
| Sx.Guide.Valid | Rlags_project/SEDI_Camera2/src/sx.c:1133-1159 | no contract of its own: the class invariant, the SXStop bit is never recorded in the running-guide mask; kept by Sx.Guide.Command |
| Sx.Guide.Command | Rlags_project/SEDI_Camera2/src/sx.c:1133-1159 | a command with SXStop clears its bits from the mask, any other sets them; the block sent carries the new mask |
| Sx.Guide.CommandIf | Rlags_project/SEDI_Camera2/src/sx.c:796-828 | a requested direction updates the mask and appends one block; an unrequested one changes nothing |
| Sx.Guide.Start | Rlags_project/SEDI_Camera2/src/sx.c:796-811 | with a guide camera, one block per requested direction and the mask updated for each; without one, nothing is sent and the mask is unchanged |
| Sx.Guide.Stop | Rlags_project/SEDI_Camera2/src/sx.c:813-828 | the same with each command carrying SXStop |
| Sx.GuideIf | Rlags_project/SEDI_Camera2/src/sx.c:796-828 | no contract of its own: one conditional sx_guide call of sxc_guide_start or sxc_guide_stop; specified by Sx.StartMask and Sx.StopMask |
| Sx.GuideStartAfter | Rlags_project/SEDI_Camera2/src/sx.c:796-811 | no contract of its own: the mask after sxc_guide_start's four conditional commands; specified by Sx.StartMask and Sx.Guide.Start |
| Sx.GuideStopAfter | Rlags_project/SEDI_Camera2/src/sx.c:813-828 | no contract of its own: the mask after sxc_guide_stop's four conditional commands; specified by Sx.StopMask, Sx.StartThenStopRestores and Sx.Guide.Stop |
| Sx.StartMask | Rlags_project/SEDI_Camera2/src/sx.c:796-811 | starting adds exactly the SX bits of the requested directions to the mask |
| Sx.StopMask | Rlags_project/SEDI_Camera2/src/sx.c:813-828 | stopping removes exactly those bits, from a mask that does not record SXStop |
| Sx.StartThenStopRestores | Rlags_project/SEDI_Camera2/src/sx.c:796-828 | starting and then stopping the same directions gives back a mask in which they were not running |
| Sx.DirectionCount | Rlags_project/SEDI_Camera2/src/sx.c:796-811 | at most four directions are requested |
| Sx.GuideStartThenStop | Rlags_project/SEDI_Camera2/src/sx.c:1143-1147 | one guide command and its stop leave the mask without those bits, and restore it when they were not set; a stop clears exactly its bits |
| Sx.PulseBlocks | Rlags_project/SEDI_Camera2/src/sx.c:1161-1196 | a timed pulse sends two blocks per requested direction |
| Sx.PulsesAlternate | Rlags_project/SEDI_Camera2/src/sx.c:1161-1196 | the pulse blocks alternate between a single direction bit and the all-stop mask |
| Sx.ReportedSize | Rlags_project/SEDI_Camera2/src/sx.c:746-760 | the reported bytes per pixel are 1 or 2 |
| Sx.SxCam.constructor | Rlags_project/SEDI_Camera2/src/sx.c:528-534 | a camera set up from its capabilities keeps the chip's interlacing and depth, with no region, no bins and no inversion yet |
| Sx.SxCam.SetImageArraySize | Rlags_project/SEDI_Camera2/src/sx.c:633-660 | the region is stored as unsigned values, the vertical start and height halved for an interlaced chip, nothing else changes |
| Sx.SxCam.SetInvert | Rlags_project/SEDI_Camera2/src/sx.c:582-584 | inversion is on exactly for a non-zero value, the region is unchanged |
| Sx.SxCam.GetImageArraySize | Rlags_project/SEDI_Camera2/src/sx.c:746-760 | the reported width, height and bytes are the stored region divided by the bins, the height doubled for an interlaced chip |
| Sx.SetThenReported | Rlags_project/SEDI_Camera2/src/sx.c:633-760 | no contract of its own: the size sxc_get_imagearraysize reports for a region sxc_set_imagearraysize stored; specified by Sx.SetThenReportedSizes and Sx.InterlacedEvenHeight |
| Sx.QuotientFits | Rlags_project/SEDI_Camera2/src/sx.c:754-756 | a quotient of a non-negative int keeps its value through the cast back to int |
| Sx.SetThenReportedSizes | Rlags_project/SEDI_Camera2/src/sx.c:633-760 | setting a region and reading it back gives the width and height divided by the bins, an interlaced chip losing the odd row of an odd height |
| Sx.InterlacedEvenHeight | Rlags_project/SEDI_Camera2/src/sx.c:633-760 | unbinned, an interlaced chip reports an even height unchanged |
| Sx.OutRow | Rlags_project/SEDI_Camera2/src/sx.c:1290-1296 | no contract of its own: the output row chip row v lands in, counted from the bottom when InvertImage is set; specified by Sx.Dst, Sx.OtherRowsOutside and Sx.DstInjective |
| Sx.Dst | Rlags_project/SEDI_Camera2/src/sx.c:1290-1296 | every pixel of the chip is stored inside the output image |
| Sx.Src | Rlags_project/SEDI_Camera2/src/sx.c:1294 | the pixel stored is the same row read from the right-hand end |
| Sx.OtherRowsOutside | Rlags_project/SEDI_Camera2/src/sx.c:1290-1296 | pixels of other chip rows land outside the output row of row v |
| Sx.DstInjective | Rlags_project/SEDI_Camera2/src/sx.c:1290-1296 | no two chip pixels land on the same output position, so the output is a permutation of the unpacked frame |
| Sx.UnpackPixels | Rlags_project/SEDI_Camera2/src/sx.c:1284-1287 | each pixel is the little-endian pair of bytes at twice its index; the rest of the buffer is unchanged |
| Sx.MirrorRow | Rlags_project/SEDI_Camera2/src/sx.c:1293-1295 | one chip row is copied mirrored into its output row; nothing else changes |
| Sx.RowInPlace | Rlags_project/SEDI_Camera2/src/sx.c:1292-1296 | copying chip row v into its output row and nothing else puts one more row in place |
| Sx.MirroredUpTo | Rlags_project/SEDI_Camera2/src/sx.c:1290-1296 | no contract of its own: the first v chip rows are in their output rows, each read from its right-hand end; the invariant of Sx.MirrorRows |
| Sx.RowBounds | Rlags_project/SEDI_Camera2/src/sx.c:1290-1296 | where each row is read from and written to lies inside the frame, and the write position steps by the row width |
| Sx.MirrorRows | Rlags_project/SEDI_Camera2/src/sx.c:1289-1296 | every chip pixel is in its mirrored (and, when inverting, row-reversed) place; the buffer past the image is unchanged |
| Sx.Below | Rlags_project/SEDI_Camera2/src/sx.c:1552-1553 | the number of values below x is at most n; counted by less in torben's pass |
| Sx.Same | Rlags_project/SEDI_Camera2/src/sx.c:1558 | the number of values equal to x is at most n; counted by equal |
| Sx.Above | Rlags_project/SEDI_Camera2/src/sx.c:1555-1556 | the number of values above x is at most n; counted by greater |
| Sx.Partition | Rlags_project/SEDI_Camera2/src/sx.c:1551-1558 | every value lies below, at or above the guess, so the three counts add up to n |
| Sx.BelowNext | Rlags_project/SEDI_Camera2/src/sx.c:1560-1566 | the values below x + 1 are those below x and those equal to x |
| Sx.Gap | Rlags_project/SEDI_Camera2/src/sx.c:1564-1566 | without a value in [a, b), as many values lie below a as below b |
| Sx.Between | Rlags_project/SEDI_Camera2/src/sx.c:1564-1566 | more values below b than below a means some value lies in [a, b) |
| Sx.NoneOutside | Rlags_project/SEDI_Camera2/src/sx.c:1541-1544 | nothing lies below the minimum or above the maximum |
| Sx.IsMedian | Rlags_project/SEDI_Camera2/src/sx.c:1529-1567 | no contract of its own: torben's result, a value of the array with fewer than half the values below it and at most half above it; the postcondition of Sx.Torben, made unique by Sx.MedianUnique |
| Sx.MedianUnique | Rlags_project/SEDI_Camera2/src/sx.c:1529-1567 | the (lower) median of a sequence is unique |
| Sx.MedianOrder | Rlags_project/SEDI_Camera2/src/sx.c:1564-1566 | a value with at most half the values above it has more than half below any larger value |
| Sx.SameOf | Rlags_project/SEDI_Camera2/src/sx.c:1560-1566 | every value of the sequence is counted as equal to itself |
| Sx.BelowMono | Rlags_project/SEDI_Camera2/src/sx.c:1560-1566 | the count below x grows with x |
| Sx.SameIn | Rlags_project/SEDI_Camera2/src/sx.c:1560-1566 | a value counted as equal at least once is a value of the sequence |
| Sx.Around | Rlags_project/SEDI_Camera2/src/sx.c:1547-1559 | no contract of its own: the counts and extremes of one pass over the values; specified by Sx.AroundCounts, Sx.AroundMaxBelow and Sx.AroundMinAbove |
| Sx.AroundCounts | Rlags_project/SEDI_Camera2/src/sx.c:1548-1559 | one counting pass gives the numbers of values below, above and equal to the guess |
| Sx.AroundMaxBelow | Rlags_project/SEDI_Camera2/src/sx.c:1549-1554 | the largest value below the guess the pass finds is the starting minimum or a value of the sequence below the guess, and no value below the guess exceeds it |
| Sx.AroundMinAbove | Rlags_project/SEDI_Camera2/src/sx.c:1550-1557 | the smallest value above the guess is the starting maximum or a value above the guess, and no value above the guess is smaller |
| Sx.CountAround | Rlags_project/SEDI_Camera2/src/sx.c:1547-1559 | the counting loop computes exactly the specification's counts and extremes |
| Sx.LargestBelow | Rlags_project/SEDI_Camera2/src/sx.c:1565 | narrowing max to the largest value below the guess keeps every value that was below it inside the range |
| Sx.SmallestAbove | Rlags_project/SEDI_Camera2/src/sx.c:1566 | narrowing min to the smallest value above the guess keeps every value that was above it inside the range |
| Sx.Torben | Rlags_project/SEDI_Camera2/src/sx.c:1535-1567 | the value returned is the lower median of the first n pixels: a pixel value with at most (n-1)/2 pixels below it and at most n/2 above; the array is not changed |
| Sx.Serial | Rlags_project/SEDI_Camera2/src/sx.c:447 | the synthetic serial number starts with '#' |
| Sx.SerialReadsBack | Rlags_project/SEDI_Camera2/src/sx.c:447-467 | sxc_connect's strtol of the serial after the '#' gives back the device index it was made from |
| Sx.ClampCameras | Rlags_project/SEDI_Camera2/src/sx.c:435 | the requested camera count is capped at SX_MAX_CAMERAS and otherwise unchanged |
| Sx.GetCameras | Rlags_project/SEDI_Camera2/src/sx.c:423-458 | on a failed device listing, FALSE and the clamped count; otherwise TRUE, the listings of the specification scan and their number |
| Sx.Matches | Rlags_project/SEDI_Camera2/src/sx.c:445-453 | no contract of its own: the listings one pid-table entry gives, one per detected device with that pid, in device order; specified by Sx.MatchesSound, Sx.MatchesComplete and Sx.MatchesIdx |
| Sx.Listings | Rlags_project/SEDI_Camera2/src/sx.c:444-454 | no contract of its own: the listings of the first entries of the pid table, in table order; specified by Sx.ListingsSound, Sx.ListingsComplete, Sx.ListingsIdx and Sx.ListingsInTableOrder |
| Sx.MatchOf | Rlags_project/SEDI_Camera2/src/sx.c:445-453 | no contract of its own: a listing for table entry i names a detected device with that entry's pid and carries its description |
| Sx.ListingOf | Rlags_project/SEDI_Camera2/src/sx.c:444-454 | no contract of its own: a listing points at a table entry and is a match of that entry |
| Sx.MatchesSound | Rlags_project/SEDI_Camera2/src/sx.c:445-453 | each listing of one table entry's scan is a device with that entry's pid |
| Sx.ListingsSound | Rlags_project/SEDI_Camera2/src/sx.c:444-454 | each listing is a detected device of a table model, with that model's description |
| Sx.MatchesComplete | Rlags_project/SEDI_Camera2/src/sx.c:445-453 | every device with the entry's pid is listed in that entry's scan |
| Sx.ListingsComplete | Rlags_project/SEDI_Camera2/src/sx.c:444-454 | every detected device of a supported model is listed under each table entry with its pid |
| Sx.MatchesIdx | Rlags_project/SEDI_Camera2/src/sx.c:450 | the listings of one entry's scan record that entry's index |
| Sx.ListingsIdx | Rlags_project/SEDI_Camera2/src/sx.c:450 | every listing records an index inside the table |
| Sx.InTableOrder | Rlags_project/SEDI_Camera2/src/sx.c:444-454 | no contract of its own: the table indices cam->idx of the listings never decrease |
| Sx.ListingsInTableOrder | Rlags_project/SEDI_Camera2/src/sx.c:444-454 | the listings follow the order of the pid table |
| Sx.CameraListingsSound | Rlags_project/SEDI_Camera2/src/sx.c:423-467 | the serial of each listing reads back as the index of a detected device whose pid is the listed model's, and the description is that model's |
| Sx.CameraListingsComplete | Rlags_project/SEDI_Camera2/src/sx.c:423-458 | every detected device of a supported model is listed under its synthetic serial number |
| Image.Max | rlags/SEDI_Camera/src/image.c:755-758 | no contract of its own: the MAX macro of is_in_image |
| Image.Min | rlags/SEDI_Camera/src/image.c:755-758 | no contract of its own: the MIN macro of is_in_image |
| Image.InBoth | rlags/SEDI_Camera/src/image.c:755-762 | no contract of its own: a column (or row) lies both in the exposed area and in the selection rectangle; the meaning Image.IsInImageExact gives the overlap |
| Image.IsInImage | rlags/SEDI_Camera/src/image.c:735-771 | no contract of its own: the overlap corners as is_in_image computes them, each cast to gushort before the comparison, and FALSE (None) when they cross; specified by IsInImageExact, IsInImageWraps and IsInImageChecked |
| Image.IsInImageExact | rlags/SEDI_Camera/src/image.c:735-771 | while no cast wraps, an overlap is reported exactly when some pixel lies both in the exposed area and in the selection, and the offsets then bound exactly those pixels |
| Image.IsInImageWraps | rlags/SEDI_Camera/src/image.c:755-756 | a selection wholly left of column 0 wraps its right edge to 65535 on the cast, and an overlap is reported although no pixel is selected |
| Image.IsInImageChecked | rlags/SEDI_Camera/src/image.c:735-771 | with the corners compared before the cast, an overlap is reported exactly when a pixel lies in both, and the offsets bound exactly those pixels |
| Image.Fill | rlags/SEDI_Camera/src/image.c:866-867 | counting down, every pixel of the full-chip frame gets the minimum value; the rest of the buffer is unchanged |
| Image.InWindow | rlags/SEDI_Camera/src/image.c:869-883 | no contract of its own: a chip position lies in the first rows of the exposed area, the part image_embed_data has filled so far |
| Image.EmbeddedAt | rlags/SEDI_Camera/src/image.c:866-883 | no contract of its own: a frame position holds the binned pixel that covers it inside the filled rows of the exposed area and the minimum value elsewhere |
| Image.EmbeddedUpTo | rlags/SEDI_Camera/src/image.c:866-883 | no contract of its own: Image.EmbeddedAt holds at every frame position below n; the invariant of Image.EmbedData |
| Image.RowFrom | rlags/SEDI_Camera/src/image.c:872-880 | no contract of its own: a run of a frame row holds the binned pixels of vadr from base on, each h_bin wide; established by Image.EmbedRow |
| Image.Binned | rlags/SEDI_Camera/src/image.c:874-875 | no contract of its own: the index in vadr of the binned pixel over a chip row and column of the exposed area; specified by BinnedRow and EmbeddedBlock |
| Image.Replicate | rlags/SEDI_Camera/src/image.c:873-880 | one binned pixel is repeated across its hBin columns and nothing else changes |
| Image.RowStep | rlags/SEDI_Camera/src/image.c:872-880 | repeating the next binned pixel over the next hBin positions extends the embedded row by one binned pixel |
| Image.EmbedRow | rlags/SEDI_Camera/src/image.c:872-881 | one chip row of the exposed area holds, from its start in the frame, each binned pixel of its vadr row repeated hBin times; the rest of the frame is unchanged |
| Image.StepInside | rlags/SEDI_Camera/src/image.c:872-873 | inside the row the next block of hBin positions is a whole binned pixel |
| Image.EmbedStep | rlags/SEDI_Camera/src/image.c:869-883 | putting the next chip row in place extends what is embedded by one row |
| Image.EmbedStepAt | rlags/SEDI_Camera/src/image.c:869-883 | the same step at one frame position |
| Image.EmbedChipRow | rlags/SEDI_Camera/src/image.c:871-883 | one round of the loop over m: chip row v + m of the exposed area lands in its frame row, one more row is embedded, nothing past the frame changes and k ends at the start of the next row |
| Image.RowMembership | rlags/SEDI_Camera/src/image.c:882 | in a frame maxH wide, the positions of a chip row's exposed columns are those in its row of the frame at the right columns |
| Image.EmbedNone | rlags/SEDI_Camera/src/image.c:866-867 | a frame of the minimum value holds no row of the exposure yet |
| Image.EmbedNoColumns | rlags/SEDI_Camera/src/image.c:872 | with hBin 0 the column loop does nothing, so no row changes what is embedded |
| Image.RowPlace | rlags/SEDI_Camera/src/image.c:870-876 | the loop indices name a chip row inside the binned image and a frame row inside the frame, the vadr row being v / vBin |
| Image.BinnedRow | rlags/SEDI_Camera/src/image.c:874-875 | the index expression hPix * v / vBin is the start of binned row vb |
| Image.FrameRow | rlags/SEDI_Camera/src/image.c:882 | a frame row lies inside the frame and the next one starts maxH further on |
| Image.EmbedData | rlags/SEDI_Camera/src/image.c:848-886 | FALSE without either buffer, the frame untouched; otherwise TRUE, every pixel outside the exposed area holds the minimum and each exposed chip pixel holds the binned pixel that covers it |
| Image.BlockBounds | rlags/SEDI_Camera/src/image.c:872-880 | position c of block q, blocks b wide, lies before the end of n blocks |
| Image.EmbeddedBlock | rlags/SEDI_Camera/src/image.c:869-883 | after embedding, chip pixel (hb * hBin + c, vb * vBin + m) of the exposed area holds binned pixel (hb, vb) |
| Image.InBlock | rlags/SEDI_Camera/src/image.c:874-875 | position c of block q lies inside the first n blocks and divides back to q, as the binned index h / h_bin does |
| Image.FramePlace | rlags/SEDI_Camera/src/image.c:869-882 | row and column of a frame max_h wide give a position inside the frame that divides back into them |
| Image.EmbeddedInWindow | rlags/SEDI_Camera/src/image.c:866-883 | where the frame holds a chip position of the exposed area it holds the binned pixel that covers it |
| Image.BinnedBlock | rlags/SEDI_Camera/src/image.c:874-875 | a chip pixel inside a bin block lies in the exposed area and bins to that block's pixel |
| Image.NumBytes | rlags/SEDI_Camera/src/image.c:922-923 | no contract of its own: numbytes, the header record, two bytes per pixel and the padding up to the record length; specified by NumBytesRecords |
| Image.NumBytesRecords | rlags/SEDI_Camera/src/image.c:918-923 | the unit is a whole number of 2880-byte records, and the padding after the data is at least one byte and at most one record |
| Image.Chars | rlags/SEDI_Camera/src/image.c:939-1152 | the characters of a card become the bytes of the record one to one |
| Image.Block | rlags/SEDI_Camera/src/image.c:926-1152 | the header record is HEAD_LEN bytes with no NUL left in it, each byte the card character at its position |
| Image.Memset | rlags/SEDI_Camera/src/image.c:926 | the record is filled with spaces |
| Image.Sprintf | rlags/SEDI_Camera/src/image.c:939-1151 | sprintf writes the card's characters at its offset followed by a NUL, and nothing else |
| Image.StrLen | rlags/SEDI_Camera/src/image.c:941 | strlen finds the first NUL |
| Image.CardStep | rlags/SEDI_Camera/src/image.c:939-1152 | writing card i at 80 * i over the record of the earlier cards, and replacing its NUL by a space, gives the record of one more card |
| Image.WriteHeader | rlags/SEDI_Camera/src/image.c:926-1152 | the header written is exactly the record of the cards: each card at 80 times its number, padded with spaces, then spaces to the end |
| Image.BlockCard | rlags/SEDI_Camera/src/image.c:939-1152 | card i of the record is the card padded with spaces to 80 characters |
| Image.BlockTail | rlags/SEDI_Camera/src/image.c:926 | after the last card the record holds only spaces |
| Image.Spaces | rlags/SEDI_Camera/src/image.c:926 | n spaces |
| Image.CardChar | rlags/SEDI_Camera/src/image.c:926-1152 | no contract of its own: what the header record holds at a position once the cards are written, the card's character or a space; specified by Image.Block, Image.CardStep and Image.WriteHeader |
| Image.CardsFit | rlags/SEDI_Camera/src/image.c:926-1152 | no contract of its own: at most 35 cards, none longer than 80 characters, so that they fit the 2880-byte header record; the precondition of Image.WriteHeader |
| Image.ValueCard | rlags/SEDI_Camera/src/image.c:939-1072 | no contract of its own: a card whose value is right-justified in the 20 columns that end in column 30, as the literal cards and the %20i and %20.<d>f cards lay it out; specified by RightJust, IntCardFits and IntCardReads |
| Image.IntCard | rlags/SEDI_Camera/src/image.c:954-1045 | no contract of its own: a %20i card of an integer value; specified by IntCardFits and IntCardReads |
| Image.StringCard | rlags/SEDI_Camera/src/image.c:966-968 | no contract of its own: the CTYPE1 and CTYPE2 cards, whose quoted blank is left-justified in the value columns; specified by LeftJust |
| Image.QuotedCard | rlags/SEDI_Camera/src/image.c:1053-1112 | no contract of its own: the quoted DATE-OBS, UTSTART, RA and DEC cards with the spaces before their comment; specified by LeftJust and RightJust |
| Image.EntryCard | rlags/SEDI_Camera/src/image.c:1075-1097 | no contract of its own: TELESCOP, INSTRUME, OBSERVER and OBJECT with the entry's text, quoted, and empty for a video frame |
| Image.Axes | rlags/SEDI_Camera/src/image.c:954-962 | no contract of its own: the NAXIS1 and NAXIS2 values, the whole chip for a full-frame display copy and the binned exposure otherwise; specified by LayoutMatchesAxes |
| Image.Crval | rlags/SEDI_Camera/src/image.c:976-1004 | no contract of its own: the CRVAL1 and CRVAL2 offsets, 0 unless a CCD exposure is saved as read, then the left edge and max_v less the bottom of the exposed rows |
| Image.Cards | rlags/SEDI_Camera/src/image.c:936-1152 | no contract of its own (see Left out): the cards of image_save_as_fits in the source's order, the Bayer card only when its condition holds, then END; where each card lands is specified by CardStep, WriteHeader and BlockCard |
| Image.HeadCards | rlags/SEDI_Camera/src/image.c:939-962 | no contract of its own: SIMPLE, BITPIX, NAXIS, NAXIS1 and NAXIS2 |
| Image.AxisCards | rlags/SEDI_Camera/src/image.c:965-1010 | no contract of its own: CTYPE, CRPIX, CRVAL and CDELT of both axes |
| Image.ValueCards | rlags/SEDI_Camera/src/image.c:1012-1035 | no contract of its own: BINX1, BINX2, BZERO, DATAMAX and DATAMIN |
| Image.ObsCards | rlags/SEDI_Camera/src/image.c:1037-1073 | no contract of its own: CCDTEMP, FOCUSPOS, FOCUSTMP, DATE-OBS, UTSTART, TM-START and EXPTIME |
| Image.EntryCards | rlags/SEDI_Camera/src/image.c:1075-1112 | no contract of its own: the four entry cards, EQUINOX, RA and DEC |
| Image.BayerCards | rlags/SEDI_Camera/src/image.c:1114-1148 | no contract of its own: the BAYERPAT card for an undebayered, unbinned CCD frame with a pattern, and nothing otherwise |
| Image.RightJust | rlags/SEDI_Camera/src/image.c:954 | %<n>s puts the text at the right of at least n columns, spaces before |
| Image.LeftJust | rlags/SEDI_Camera/src/image.c:1053 | %-<n>s puts the text at the left of at least n columns, spaces after |
| Image.BayerName | rlags/SEDI_Camera/src/image.c:1127-1144 | each tile's Bayer name is two characters |
| Image.IntCardFits | rlags/SEDI_Camera/src/image.c:954-1045 | a %20i card whose value has fewer than k digits fits its 80 columns when the comment leaves room |
| Image.SkipSpaces | rlags/SEDI_Camera/src/image.c:954 | strtol skips the spaces that lead the right-justified value |
| Image.IntCardReads | rlags/SEDI_Camera/src/image.c:954-1045 | a reader that applies strtol from column 11 of an integer card gets back the value printed |
| Image.FormatIntHead | rlags/SEDI_Camera/src/image.c:954 | a %d text starts with a sign or a digit, never a space |
| Image.TailOfJoin | rlags/SEDI_Camera/src/image.c:954 | the text after the first n characters of a card joined to another text is the rest of the card followed by that text |
| Image.SameSkip | rlags/SEDI_Camera/src/image.c:954 | two texts equal after their leading spaces read as the same number |
| Image.SaveLayout | rlags/SEDI_Camera/src/image.c:1164-1210 | the full-chip frame is read exactly for a full-frame CCD display, and the three-sample stride exactly for the augmented camera or a colour CCD plane; the plane lies inside the stride |
| Image.Word | rlags/SEDI_Camera/src/image.c:1172 | a sample minus BZERO lies in the range of a signed 16-bit word |
| Image.BigEndian | rlags/SEDI_Camera/src/image.c:1172 | no contract of its own: GINT16_TO_BE, the word's two bytes most significant first; specified by BigEndianReads |
| Image.Pixel | rlags/SEDI_Camera/src/image.c:1168-1178 | no contract of its own: the pixel saved at a data position, rows from the last to the first, each left to right; specified by PixelFlip |
| Image.Idx | rlags/SEDI_Camera/src/image.c:1171-1194 | no contract of its own: where pixel j sits in the buffer being saved, j or colour + 3j; specified by IdxBelow and SavedPixels |
| Image.SampleAt | rlags/SEDI_Camera/src/image.c:1172-1210 | no contract of its own: the pixel's value less BZERO, the word the source stores; specified by SaveData and SavedPixels |
| Image.BigEndianReads | rlags/SEDI_Camera/src/image.c:1172 | a FITS reader that takes the two bytes as a signed big-endian word and adds BZERO gets the sample back |
| Image.PixelFlip | rlags/SEDI_Camera/src/image.c:1168-1172 | the row-reversing position map stays inside the image and undoes itself |
| Image.IdxBelow | rlags/SEDI_Camera/src/image.c:1164-1210 | pixels before the last saved one lie in the source buffer when the last one does |
| Image.SaveRow | rlags/SEDI_Camera/src/image.c:1171-1172 | one row of samples, converted, is stored from position i on, and nothing else changes |
| Image.SaveStep | rlags/SEDI_Camera/src/image.c:1168-1172 | a row written at its flipped position extends what has been saved by one row |
| Image.SaveRows | rlags/SEDI_Camera/src/image.c:1168-1172 | the row loop, from the last row of the image down to the first, leaves each of the first w * rows data words the converted sample of its row-flipped pixel |
| Image.SaveData | rlags/SEDI_Camera/src/image.c:1164-1216 | each data word of the image is the converted sample of its row-flipped pixel, and the words after the image are zero |
| Image.RowArith | rlags/SEDI_Camera/src/image.c:1168-1170 | the row offsets of the outer loop lie inside the image and step by one row |
| Image.SavedUpTo | rlags/SEDI_Camera/src/image.c:1168-1178 | no contract of its own: the first n words of the data hold the big-endian words of their pixels; the invariant of Image.SaveData |
| Image.SaveRowAt | rlags/SEDI_Camera/src/image.c:1174-1178 | one round of the outer loop: row r goes to the next w words, and the words saved so far stay saved |
| Image.IdxMono | rlags/SEDI_Camera/src/image.c:1171-1178 | a later pixel index never lies before an earlier one in the source buffer |
| Image.SavedPixels | rlags/SEDI_Camera/src/image.c:1164-1210 | every pixel saved lies in the source buffer, and each pixel is saved at exactly one position |
| Image.LayoutMatchesAxes | rlags/SEDI_Camera/src/image.c:954-962 | the rows written are as wide as NAXIS1 and as many as NAXIS2 say |
| Augcam.Fifo.Queue | Rlags_project/SEDI_Camera/src/augcam.c:1380-1415 | at most two frames wait in the FIFO, oldest first |
| Augcam.Fifo.Valid | Rlags_project/SEDI_Camera/src/augcam.c:1380-1415 | no contract of its own: the class invariant, slot 1 is filled only while slot 0 is, each slot points at alloc or alloc + size and two full slots at different ones; kept by Augcam.Fifo.Grab and Augcam.Fifo.Release |
| Augcam.Fifo.Frame | Rlags_project/SEDI_Camera/src/augcam.c:1384-1400 | no contract of its own: the frame held at one of the two locations of the fifo allocation, alloc or alloc + size; specified by Augcam.Fifo.Grab and Augcam.Fifo.CopyTo |
| Augcam.Fifo.constructor | Rlags_project/SEDI_Camera/src/augcam.c:1306-1307 | the FIFO has room for two frames of the buffer size, both slots empty and no frame counted |
| Augcam.Fifo.CopyTo | Rlags_project/SEDI_Camera/src/augcam.c:1398-1400 | the dequeued frame is copied to its location and the other location is unchanged |
| Augcam.Fifo.Grab | Rlags_project/SEDI_Camera/src/augcam.c:1354-1422 | an empty FIFO takes the frame in slot 0 at the first location; with one frame waiting it goes to the other location in slot 1; with both full it is dropped and counted; the waiting frames gain the new one at the end, and the total counts the frames kept |
| Augcam.Fifo.ImageReady | Rlags_project/SEDI_Camera/src/augcam.c:579-582 | a V4L image is ready exactly when a frame is waiting |
| Augcam.Fifo.Oldest | Rlags_project/SEDI_Camera/src/augcam.c:666-673 | the frame processed is the oldest one waiting, at one of the two locations, and there is one exactly when a frame is waiting |
| Augcam.Fifo.Release | Rlags_project/SEDI_Camera/src/augcam.c:685-690 | releasing moves slot 1 into slot 0 and empties slot 1: the oldest frame leaves the queue, the counts stay |
| Augcam.InitialiseImageDecoding | Rlags_project/SEDI_Camera/src/augcam.c:1919-1978 | UYVY frames start at the second byte and every other format at the first; 10- to 16-bit grey is read two bytes at a time, RGB and BGR as three, the YUV formats step by two and the rest by one, and every pixel's bytes lie inside its step |
| Augcam.Width | Rlags_project/SEDI_Camera/src/augcam.c:2052-2078 | no contract of its own: the bytes of a pixel convert_to_grey reads for VIDBUF_GREY1, VIDBUF_GREY2 and VIDBUF_COL3; specified by Augcam.OffsetFits |
| Augcam.Offset | Rlags_project/SEDI_Camera/src/augcam.c:2046-2079 | no contract of its own: where pixel i starts, byte_offset plus i byte_incr steps of iptr; specified by Augcam.OffsetFits |
| Augcam.IsVideo | Rlags_project/SEDI_Camera/src/augcam.c:2017-2019 | no contract of its own: the Unicap and V4L devices, whose frame is the byte buffer r083 |
| Augcam.IsStarlight | Rlags_project/SEDI_Camera/src/augcam.c:2020-2022 | no contract of its own: the Starlight Xpress camera and guide head, whose frame is the 16-bit buffer r161 |
| Augcam.OffsetFits | Rlags_project/SEDI_Camera/src/augcam.c:2046-2079 | the bytes read for each pixel of an n-pixel frame lie in the first n steps of the frame |
| Augcam.Max3 | Rlags_project/SEDI_Camera/src/augcam.c:2073 | the maximum of three bytes is one of them and not below any |
| Augcam.Min3 | Rlags_project/SEDI_Camera/src/augcam.c:2069-2070 | the minimum of three values is one of them and not above any |
| Augcam.Lumin | Rlags_project/SEDI_Camera/src/augcam.c:2058-2067 | the weighted luminance of three bytes, truncated, is a byte value |
| Augcam.DesatAsWritten | Rlags_project/SEDI_Camera/src/augcam.c:2068-2071 | DESAT as written stays between the darkest and the brightest byte |
| Augcam.DesatAsWrittenOrder | Rlags_project/SEDI_Camera/src/augcam.c:2068-2071 | as written, bytes (100, 200, 0) give grey 150 and the same levels as (0, 200, 100) give 100 |
| Augcam.Desat | Rlags_project/SEDI_Camera/src/augcam.c:2068-2071 | the corrected desaturation is the midpoint of the brightest and the darkest byte, rounded down |
| Augcam.DesatSymmetric | Rlags_project/SEDI_Camera/src/augcam.c:2068-2071 | the corrected desaturation does not depend on the order of the bytes |
| Augcam.Raw | Rlags_project/SEDI_Camera/src/augcam.c:2047-2082 | a pixel read fits 16 bits; one-byte grey is the byte at the pixel's offset, a Starlight Xpress pixel is the camera value |
| Augcam.DarkAverage | Rlags_project/SEDI_Camera/src/augcam.c:2086-2087 | averaging a dark exposure into the dark frame keeps the entry between its old value and the new one, so it fits a gushort |
| Augcam.DarkAverageBetween | Rlags_project/SEDI_Camera/src/augcam.c:2087 | the running average (dk * n + v) / (n + 1) lies between dk and v |
| Augcam.Corrected | Rlags_project/SEDI_Camera/src/augcam.c:2091-2096 | the kept value is the reading less the dark level (when subtracting) and the black level, floored at 0, and never above the reading |
| Augcam.Shown | Rlags_project/SEDI_Camera/src/augcam.c:2137-2149 | a video pixel is shown as its low byte; a Starlight Xpress pixel at gamma 1 and 16 bits is shown as its high byte |
| Augcam.Pixels | Rlags_project/SEDI_Camera/src/augcam.c:2047 | no contract of its own: the pixel count h_pix * v_pix that the conversion loop and the dark file cover |
| Augcam.DarkRead | Rlags_project/SEDI_Camera/src/augcam.c:998-1016 | a dark file of another resolution gives ndark 0 and a zero frame over the image; one of this resolution gives its ndark and its frame over the image, the entries a short read misses keeping their old values; entries past the image are never touched |
| Augcam.DarkFlushed | Rlags_project/SEDI_Camera/src/augcam.c:1019-1033 | the flushed file carries the current resolution, no exposures and a zero frame over the image, and keeps whatever followed in the file |
| Augcam.DarkReadIdempotent | Rlags_project/SEDI_Camera/src/augcam.c:998-1016 | reading the same file a second time changes neither the dark frame nor ndark |
| Augcam.DarkWritten | Rlags_project/SEDI_Camera/src/augcam.c:1035-1046 | the written file carries the current resolution and the given ndark, holds the dark frame over the image, and keeps whatever followed in the file |
| Augcam.WrittenReadsBack | Rlags_project/SEDI_Camera/src/augcam.c:998-1046 | a written file reads back as exactly the dark frame and ndark written, so each capturing frame goes on from the count the previous one left and the capture runs as DarkAfter and DarkStops say |
| Augcam.WrittenAfterFlush | Rlags_project/SEDI_Camera/src/augcam.c:1005-1046 | a write after a flush leaves the same file as the write alone |
| Augcam.FlushedReadsBack | Rlags_project/SEDI_Camera/src/augcam.c:1007-1033 | after a mismatching file is flushed, reading the rewritten file gives back the zero frame and ndark 0 the flush left |
| Augcam.Dark.ReadFrame | Rlags_project/SEDI_Camera/src/augcam.c:998-1033 | the dark frame and ndark become those DarkRead gives, the file is left as it was or flushed exactly when its resolution differs, and the capture and subtract flags and num are unchanged |
| Augcam.Dark.constructor | Rlags_project/SEDI_Camera/src/augcam.c:189-191 | the dark frame starts neither capturing nor subtracting, with no exposures averaged |
| Augcam.Dark.EndFrame | Rlags_project/SEDI_Camera/src/augcam.c:2188-2195 | at the end of a capturing frame ndark steps on and the capture stops when it reaches num; the rest is unchanged |
| Augcam.DarkEnd | Rlags_project/SEDI_Camera/src/augcam.c:2188-2193 | without a capture nothing changes; with one, ndark steps on as a gushort and the capture goes on exactly while ndark differs from num |
| Augcam.DarkStops | Rlags_project/SEDI_Camera/src/augcam.c:2188-2193 | a capture started with ndark below num runs for exactly num - ndark frames and then holds num exposures |
| Augcam.DarkStopped | Rlags_project/SEDI_Camera/src/augcam.c:2188 | once the capture has stopped, further frames change nothing |
| Augcam.DarkAfter | Rlags_project/SEDI_Camera/src/augcam.c:2188-2193 | no contract of its own: the capture flag and ndark after k more capturing frames; specified by Augcam.DarkStops |
| Augcam.Converted | Rlags_project/SEDI_Camera/src/augcam.c:2047-2151 | the conversion of the first k pixels gives k dark-frame entries and k kept values |
| Augcam.Covers | Rlags_project/SEDI_Camera/src/augcam.c:2046-2081 | no contract of its own: the frame holds enough bytes (video) or samples (Starlight Xpress) for every pixel the loop reads |
| Augcam.ConvertedPixel | Rlags_project/SEDI_Camera/src/augcam.c:2047-2151 | entry j of the dark frame and kept value j are those of pixel j read, averaged and corrected in turn, each pixel starting from the previous kept value |
| Augcam.Tripled | Rlags_project/SEDI_Camera/src/augcam.c:2137-2149 | the display holds three bytes per kept value |
| Augcam.Shows | Rlags_project/SEDI_Camera/src/augcam.c:2137-2140 | no contract of its own: the devices whose pixels convert_to_grey puts in disp083 |
| Augcam.TripledAt | Rlags_project/SEDI_Camera/src/augcam.c:2137-2149 | display bytes 3j, 3j + 1 and 3j + 2 show kept value j |
| Augcam.ConvertToGrey | Rlags_project/SEDI_Camera/src/augcam.c:1980-2198 | when capturing, the dark frame and ndark are first read from the dark file, a file of another resolution being flushed and rewritten; then the dark frame, the kept values and the display are those of the conversion of every pixel from what was read, the capture count moves on as DarkEnd says, the subtract flag and num are unchanged, and after a capturing frame the file holds the current resolution, the new ndark and the new dark frame (`DarkWritten`), while without a capture it is untouched |
| Augcam.ConvertFrame | Rlags_project/SEDI_Camera/src/augcam.c:2047-2151 | the pixel loop leaves the dark frame, the kept values and the display those of the conversion, the rest of each buffer unchanged |
| Augcam.ConvertLoop | Rlags_project/SEDI_Camera/src/augcam.c:2047-2151 | after the loop over n pixels the first n dark entries, the first n kept values and the first 3n display bytes (when the device shows) are the conversion's and the rest of each array is as it was |
| Augcam.ConvertStep | Rlags_project/SEDI_Camera/src/augcam.c:2047-2151 | one pass of the loop writes pixel i's dark entry, kept value and display bytes |
| Augcam.WriteStep | Rlags_project/SEDI_Camera/src/augcam.c:2086-2150 | the writes of pixel i move one more entry of each buffer to its converted value |
| Augcam.PixelValues | Rlags_project/SEDI_Camera/src/augcam.c:2047-2096 | the dark entry and kept value computed for pixel i are the conversion's; without a capture the dark entry is unchanged |
| Augcam.ShowValue | Rlags_project/SEDI_Camera/src/augcam.c:2137-2149 | kept value i is shown as its three display bytes |
| Augcam.ConvertPixel | Rlags_project/SEDI_Camera/src/augcam.c:2047-2096 | the value kept for a pixel is its reading, averaged into the dark frame when capturing, less the dark level and the black level |
| Augcam.ShowPixel | Rlags_project/SEDI_Camera/src/augcam.c:2138-2147 | the display shows pixel i as three equal bytes |
| Augcam.SetImageSize | Rlags_project/SEDI_Camera/src/augcam.c:725-735 | the image is width by height from the top left corner, its bottom right corner width - 1 and height - 1 further on (65535 for a size of 0, as the gushort wraps), the binning unchanged |
| Video.Micros | Rlags_project/SEDI_Camera/src/video.c:74-77 | no contract of its own: a frame_times value as microseconds, sec * 10^6 + usec; the measure in which Video.Increment and Video.FrameTime state their results |
| Video.Normal | Rlags_project/SEDI_Camera/src/video.c:871-875 | no contract of its own: microseconds in [0, 10^6), as gettimeofday gives them; established by Video.Increment and Video.FrameTime |
| Video.CDivision | Rlags_project/SEDI_Camera/src/video.c:871-872 | C's quotient and remainder by 10^6 rebuild the dividend, and the remainder lies strictly between -10^6 and 10^6 with the dividend's sign |
| Video.CQuot | Rlags_project/SEDI_Camera/src/video.c:871 | no contract of its own: C's usec / 1000000 on an int, rounded toward zero; specified by CDivision |
| Video.CRem | Rlags_project/SEDI_Camera/src/video.c:872 | no contract of its own: C's usec % 1000000, with the sign of usec; specified by CDivision |
| Video.Increment | Rlags_project/SEDI_Camera/src/video.c:618-624 | the increment between the first two marked stamps is their exact difference in microseconds, and is normalised when both stamps are |
| Video.FrameTime | Rlags_project/SEDI_Camera/src/video.c:866-875 | the stamp of the frame n after the first marked one is the first stamp plus n increments, exactly, in microseconds, and is normalised when the inputs' microseconds are non-negative |
| Video.FrameTimeAsWritten | Rlags_project/SEDI_Camera/src/video.c:866-875 | with the guint frame offset the products and sums are taken modulo 2^32 and stored back in gints: both fields of the stamp fit a gint and the microseconds lie strictly inside (-10^6, 10^6) |
| Video.InGint | Rlags_project/SEDI_Camera/src/video.c:74-77 | no contract of its own: both fields fit the gint sec and usec of frame_times; established by Video.FrameTimeAsWritten |
| Video.SameInt32 | Rlags_project/SEDI_Camera/src/video.c:866-871 | two values that differ by a multiple of 2^32 are stored as the same gint |
| Video.Rewrap | Rlags_project/SEDI_Camera/src/video.c:866-871 | wrapping the seconds to a gint before adding the carry gives the same gint as wrapping the whole sum |
| Video.StampFits | Rlags_project/SEDI_Camera/src/video.c:866-872 | no contract of its own: the microsecond sum and the resulting seconds of frame n fit a gint; the precondition under which Video.AsWrittenExact shows the code exact |
| Video.AsWrittenExact | Rlags_project/SEDI_Camera/src/video.c:866-875 | whenever the exact microsecond sum and the exact seconds fit a gint, the stamp as written equals the exact stamp of frame n |
| Video.FrameTimeWraps | Rlags_project/SEDI_Camera/src/video.c:866-872 | at 40000 us a frame, 53688 frames after a first stamp at 1400000000 s the written code gives a negative microsecond field and a time 2147 s before the first stamp, where the exact time is 2147 s after it |
| Video.FramesToFlush | Rlags_project/SEDI_Camera/src/video.c:334-335 | the frames flushed number from 1 to nbf, agree with num_frames modulo nbf, and are a whole half exactly when num_frames is a multiple of nbf |
| Video.StartStep | Rlags_project/SEDI_Camera/src/video.c:176-237 | a start keeps the recorder well formed; success means a buffer and an open file with nbf at least 1, and failure clears the record flag |
| Video.OpenStep | Rlags_project/SEDI_Camera/src/video.c:202-236 | the allocation, fopen and header write keep the recorder well formed; success leaves a buffer and an open file, and each failure clears the record flag |
| Video.BufferStep | Rlags_project/SEDI_Camera/src/video.c:261-317 | a frame is stored exactly when there is a buffer, the first frame has passed and save_every frames have been counted; a stored frame adds one to num_frames and its stamp and first fr_size bytes go to the current write slot; a skipped frame changes no slot and no count |
| Video.StoreStep | Rlags_project/SEDI_Camera/src/video.c:288-315 | a stored frame adds one to num_frames, resets save_count, sets the latest time and goes to the current write slot, leaving the file alone; when it fills the half the flush of that half is requested and the other half is current with a count of 0, otherwise the request, the half and its write position move on by one |
| Video.BufferStepWellFormed | Rlags_project/SEDI_Camera/src/video.c:261-317 | every call of video_buffer_frame keeps the recorder well formed |
| Video.WriteHalf | Rlags_project/SEDI_Camera/src/video.c:337-344 | writing a half keeps the recorder well formed |
| Video.FlushStep | Rlags_project/SEDI_Camera/src/video.c:320-346 | video_flush_buffer keeps the recorder well formed |
| Video.PendingStep | Rlags_project/SEDI_Camera/src/loop.c:1536-1540 | serving a flush request keeps the recorder well formed |
| Video.Close | Rlags_project/SEDI_Camera/src/video.c:663-690 | closing keeps the recorder well formed |
| Video.StopStep | Rlags_project/SEDI_Camera/src/video.c:240-247 | stopping keeps the recorder well formed |
| Video.StopFixedStep | Rlags_project/SEDI_Camera/src/video.c:240-247 | the corrected stop keeps the recorder well formed |
| Video.Base | Rlags_project/SEDI_Camera/src/video.c:307-308 | the first slot of half b is b * nbf, as the source computes the half's start |
| Video.Blank | Rlags_project/SEDI_Camera/src/video.c:203-204 | no contract of its own: a slot as g_malloc0 leaves it, a zero stamp and zero pixels |
| Video.BlankSlots | Rlags_project/SEDI_Camera/src/video.c:203-204 | the 2 * nbf slots of the fresh allocation are all zeroed |
| Video.Slots | Rlags_project/SEDI_Camera/src/video.c:295-302 | the frames stored in a run of slots, one per slot and in slot order |
| Video.SlotsPush | Rlags_project/SEDI_Camera/src/video.c:295-302 | storing a frame in the slot after a run extends the run by exactly that frame |
| Video.Shaped | Rlags_project/SEDI_Camera/src/video.c:86-107 | no contract of its own: two write pointers, two flushed flags and a buffer number 0 or 1, as rec_play_buffer holds them |
| Video.WellFormed | Rlags_project/SEDI_Camera/src/video.c:79-108 | no contract of its own: the record state is shaped, the requested half is 0 or 1, and once a buffer exists every slot of both halves is allocated and the frame count of a half stays below nbf; kept by Video.BufferStepWellFormed |
| Video.ResetBuf | Rlags_project/SEDI_Camera/src/video.c:190-199 | no contract of its own: the buffer reset of video_record_start, nbf and fr_size set, half 0 current, both halves flushed; specified through Halves.Reset, StartStarts and Started |
| Video.AllocBuf | Rlags_project/SEDI_Camera/src/video.c:203-209 | no contract of its own: the zeroed allocation with each half's write position at its first slot; specified through Halves.Alloc and StartStarts |
| Video.StoreBuf | Rlags_project/SEDI_Camera/src/video.c:295-302 | no contract of its own: the stamp and the first fr_size pixel bytes stored at the current half's write position, which moves on one frame, and f_num counted up; specified by StoreExtendsHalf, BufferStoresInHalf and BufferStoresAndSwaps |
| Video.StoreExtendsHalf | Rlags_project/SEDI_Camera/src/video.c:295-302 | storing a frame in the current half extends the frames that half holds by exactly that frame |
| Video.SwapBuf | Rlags_project/SEDI_Camera/src/video.c:302-314 | no contract of its own: f_num reset and the other half made current, restarting at its first slot only if it has been flushed; specified by BufferStoresAndSwaps and LateFlushCutsHalf |
| Video.MarkFlushed | Rlags_project/SEDI_Camera/src/video.c:343 | no contract of its own: half b marked flushed after a successful fwrite; specified by PendingWritesHalf |
| Video.StartStarts | Rlags_project/SEDI_Camera/src/video.c:188-236 | a successful start leaves the first half selected, each half at its first slot, both halves flushed, no frames counted, every slot zeroed and the file empty |
| Video.Started | Rlags_project/SEDI_Camera/src/video.c:188-236 | no contract of its own: the state right after video_record_start, with both halves empty and flushed and no frame stored; established by Video.StartStarts |
| Video.FirstFrameReady | Rlags_project/SEDI_Camera/src/video.c:272-279 | the first frame after a start is not stored, and the recorder is then ready with nothing stored |
| Video.Ready | Rlags_project/SEDI_Camera/src/video.c:261-317 | no contract of its own: recording with no flush pending, the file followed by the frames of the current half being every frame stored; kept by Video.BufferStoresInHalf and reached by Video.PendingWritesHalf |
| Video.CountStep | Rlags_project/SEDI_Camera/src/video.c:302-303 | one more frame steps the frame count of a half on modulo nbf, wrapping to 0 when the half is full, as ++f_num == rp.nbf resets it |
| Video.BufferStoresInHalf | Rlags_project/SEDI_Camera/src/video.c:281-297 | a stored frame that leaves room in the half is appended to the frames held, and the recorder stays ready |
| Video.Swapped | Rlags_project/SEDI_Camera/src/video.c:299-315 | no contract of its own: just swapped, the full half waiting for its flush and the file followed by that half being every frame stored; reached by Video.BufferStoresAndSwaps |
| Video.BufferStoresAndSwaps | Rlags_project/SEDI_Camera/src/video.c:299-315 | a stored frame that fills the half hands that half to the main loop and the other half takes over, with every frame stored still in order in the file and the full half |
| Video.BufferKeepsFrames | Rlags_project/SEDI_Camera/src/video.c:261-317 | each call either appends the frame to the frames stored (staying ready, or handing over a full half) or, for a skipped frame, keeps them |
| Video.PendingWritesHalf | Rlags_project/SEDI_Camera/src/video.c:320-346 | serving the flush of a full half appends the whole half to the file, so the file holds every frame stored and the recorder is ready again |
| Video.PendingIdle | Rlags_project/SEDI_Camera/src/loop.c:1536-1540 | with no flush requested the main loop leaves the recorder unchanged |
| Video.StoreWhilePending | Rlags_project/SEDI_Camera/src/video.c:261-317 | a frame stored after a swap but before the main loop serves the flush leaves the request pending and the file as it was, makes num_frames one more than a multiple of nbf and does not touch the full half waiting to be written |
| Video.LateFlushCutsHalf | Rlags_project/SEDI_Camera/src/video.c:332-335 | a flush the main loop serves only after one more frame has been stored writes only the first frame of the full half, so the file holds nbf - 1 frames fewer than were stored up to the swap |
| Video.FlushHalfStep | Rlags_project/SEDI_Camera/src/video.c:320-346 | the whole-half flush keeps the recorder well formed and, with a buffer, an open file and a good write, appends all nbf frames of half b |
| Video.PendingHalfStep | Rlags_project/SEDI_Camera/src/loop.c:1536-1540 | serving a request with the whole-half flush keeps the recorder well formed and does nothing without a request |
| Video.LateFlushFixedKeepsHalf | Rlags_project/SEDI_Camera/src/video.c:332-335 | with the whole-half flush the same late service leaves in the file every frame stored up to the swap |
| Video.StopAppendsStale | Rlags_project/SEDI_Camera/src/video.c:332-335 | stopping appends the current half's frames to the file, but when that half is empty it appends a whole half of nbf old slots after the frames stored |
| Video.StopAtOnceWritesBlanks | Rlags_project/SEDI_Camera/src/video.c:332-335 | stopping before any frame was stored writes nbf zeroed frames |
| Video.StopFixedKeepsFrames | Rlags_project/SEDI_Camera/src/video.c:240-247 | the corrected stop leaves exactly the frames stored in the file, with buffer and file released |
| Video.StopFixedAtOnceEmpty | Rlags_project/SEDI_Camera/src/video.c:240-247 | the corrected stop right after a start leaves the file empty |
| Video.Halves.constructor | Rlags_project/SEDI_Camera/src/video.c:159-173 | the double buffer starts with no frames, both positions 0 and neither half flushed |
| Video.Halves.State | Rlags_project/SEDI_Camera/src/video.c:86-107 | no contract of its own: the buffer fields of rec_play_buffer (nbf, fr_size, buf, f_num, vid_bufptr, vid_buf_flushed and the buffer contents) as one value; specified by the Video.Halves methods |
| Video.Halves.Reset | Rlags_project/SEDI_Camera/src/video.c:190-199 | the reset sets nbf and fr_size, selects half 0 and marks both halves flushed |
| Video.Halves.Alloc | Rlags_project/SEDI_Camera/src/video.c:202-207 | the allocation zeroes 2 * nbf slots and puts each half's write position at its first slot |
| Video.Halves.ClearCount | Rlags_project/SEDI_Camera/src/video.c:275 | the frame count in the half becomes 0 and nothing else changes |
| Video.Halves.Store | Rlags_project/SEDI_Camera/src/video.c:295-302 | the stamp and pixels go to the current write slot, which moves on by one, and the half's count grows by one |
| Video.Halves.Swap | Rlags_project/SEDI_Camera/src/video.c:302-314 | the other half becomes current with a count of 0, and restarts at its first slot, marked unflushed, only if it was flushed |
| Video.Halves.SetFlushed | Rlags_project/SEDI_Camera/src/video.c:343 | half b is marked flushed and nothing else changes |
| Video.FlushRequest.constructor | Rlags_project/SEDI_Camera/src/loop.c:100 | no flush is requested at the start |
| Video.FlushRequest.Request | Rlags_project/SEDI_Camera/src/loop.c:538-545 | a flush of half b is requested |
| Video.Recorder.constructor | Rlags_project/SEDI_Camera/src/video.c:159-173 | the recorder starts well formed with no buffer, no file, no record flag, no request and an empty file |
| Video.Recorder.Valid | Rlags_project/SEDI_Camera/src/video.c:79-108 | no contract of its own: the class invariant, the recorder state is well formed (Video.WellFormed); kept by every Video.Recorder method |
| Video.Recorder.State | Rlags_project/SEDI_Camera/src/video.c:79-108 | no contract of its own: the recorder's fields, its buffer halves and the pending flush request as one value; specified by the Video.Recorder methods |
| Video.Recorder.Start | Rlags_project/SEDI_Camera/src/video.c:176-237 | the new state and the answer are those of the start step |
| Video.Recorder.Open | Rlags_project/SEDI_Camera/src/video.c:202-236 | the new state and the answer are those of the open step |
| Video.Recorder.BufferFrame | Rlags_project/SEDI_Camera/src/video.c:261-317 | the new state and whether the frame was stored are those of the buffer step |
| Video.Recorder.StoreFrame | Rlags_project/SEDI_Camera/src/video.c:288-315 | the new state is that of the store step |
| Video.Recorder.FlushBuffer | Rlags_project/SEDI_Camera/src/video.c:320-346 | the new state is that of the flush step |
| Video.Recorder.FlushPending | Rlags_project/SEDI_Camera/src/loop.c:1536-1540 | the new state is that of the pending step |
| Video.Recorder.Stop | Rlags_project/SEDI_Camera/src/video.c:240-247 | the new state is that of the stop step |
| Playback.Grey3 | Rlags_project/SEDI_Camera/src/video.c:535-541 | each grey pixel becomes three equal display bytes, in order, so the display holds three bytes per pixel |
| Playback.Expand | Rlags_project/SEDI_Camera/src/video.c:535-541 | the nested copy loop leaves the display buffer holding each pixel three times, in order |
| Playback.Fetch | Rlags_project/SEDI_Camera/src/video.c:517-532 | the seek and read change only the file position: after a successful seek and read in range the frame read is frame k and the position is just after it, and a failed seek reads nothing |
| Playback.Synced | Rlags_project/SEDI_Camera/src/video.c:491-548 | no contract of its own: the file position lies just after frame cur_frame, so the next frame is read without a seek; kept by ShowReads, NextStep and PrevStep |
| Playback.Shows | Rlags_project/SEDI_Camera/src/video.c:535-548 | no contract of its own: the displayed frame's stamp is rp.tv and its pixels are on show; established by ShowReads |
| Playback.ShowStep | Rlags_project/SEDI_Camera/src/video.c:491-548 | showing never changes the file's frames or flags; an out-of-range frame number, no file or no buffer stops the iteration and fails with nothing else changed; the frame already displayed is accepted at once; success needs a number in range and an open file with a buffer, and a failure leaves the view and display as they were |
| Playback.ShowReads | Rlags_project/SEDI_Camera/src/video.c:491-548 | from a synced state every frame in range, whether read after a seek, read without one or already displayed, is shown with its own stamp and pixels and becomes the current frame, and the state stays synced |
| Playback.NextStep | Rlags_project/SEDI_Camera/src/video.c:656-661 | showing the next frame never changes the file's frames |
| Playback.PrevStep | Rlags_project/SEDI_Camera/src/video.c:648-654 | showing the previous frame never changes the file's frames |
| Playback.NextShowsNext | Rlags_project/SEDI_Camera/src/video.c:656-661 | Next shows and makes current the frame after the current one, with its own stamp, and leaves the state synced |
| Playback.PrevShowsPrev | Rlags_project/SEDI_Camera/src/video.c:648-654 | Prev shows and makes current the frame before the current one, with its own stamp, and leaves the state synced |
| Playback.NextAtEndAndBack | Rlags_project/SEDI_Camera/src/video.c:491-500 | Next on the last frame is refused but leaves cur_frame one past the end, and Prev then restores the state as it was except that the iteration has stopped |
| Playback.CloseFileStep | Rlags_project/SEDI_Camera/src/video.c:663-690 | closing releases the file, the frame buffer and the display buffer and keeps the frame counters and the marks |
| Playback.FrameNumber | Rlags_project/SEDI_Camera/src/video.c:464-472 | no contract of its own: cur_frame while a file is open, 0 otherwise |
| Playback.OpenFileStep | Rlags_project/SEDI_Camera/src/video.c:348-461 | opening succeeds exactly when fopen, the header read and the id check succeed, the picture is not empty and the file holds a frame; then frame 1 is current and shown with its stamp and pixels and the state is synced; on failure no file or buffer is left |
| Playback.Gint | Rlags_project/SEDI_Camera/src/video.c:616-619 | the (gint) casts give fields in the gint range and keep fields already in it |
| Playback.NormalUnique | Rlags_project/SEDI_Camera/src/video.c:618-624 | two normal stamps with the same count of microseconds are the same stamp, so frames 0 and 1 of a run get back exactly the two stamps the increment was taken from |
| Playback.FrameTimeStart | Rlags_project/SEDI_Camera/src/video.c:616-624 | at the increment taken from two normal stamps, frame 0 of the run gets the first stamp and frame 1 the second, both exactly and, when the stamps fit gints, with the modulo 2^32 arithmetic as written |
| Playback.SetStampsStep | Rlags_project/SEDI_Camera/src/video.c:592-634 | the file's frames are not changed; a range outside 1 <= first < last <= num_frames changes nothing; otherwise the range is marked and the VA_FT iteration starts |
| Playback.SetStampsSteps | Rlags_project/SEDI_Camera/src/video.c:592-634 | video_set_timestamps in range is reading the first marked frame, then the second, then arming the run, one after the other |
| Playback.Arm | Rlags_project/SEDI_Camera/src/video.c:618-633 | arming keeps the file, the display and the marked range, and starts the VA_FT iteration |
| Playback.Restamped | Rlags_project/SEDI_Camera/src/video.c:859-875 | restamping with the modulo 2^32 stamps as written keeps the number of frames and every frame's pixels |
| Playback.RestampedStep | Rlags_project/SEDI_Camera/src/video.c:859-875 | stamping frame c after a run restamped up to c gives the run restamped up to c + 1 |
| Playback.RestampedTwice | Rlags_project/SEDI_Camera/src/video.c:797-889 | restamping a run in two consecutive pieces, as the successive batches do, restamps it whole |
| Playback.Batching | Rlags_project/SEDI_Camera/src/video.c:840-889 | no contract of its own: the state the VA_FT branch continues from, cur_frame past the first two marked frames and the file at frame cur_frame while the range is not done; kept by BatchContinues |
| Playback.StampedTo | Rlags_project/SEDI_Camera/src/video.c:866-875 | no contract of its own: every frame of the range before frame n carries the stamp of its place in the run; extended by BatchStamps |
| Playback.RestampedStampedTo | Rlags_project/SEDI_Camera/src/video.c:856-875 | restamping the frames from cur_frame on, after a run stamped up to cur_frame, leaves the run stamped that much further |
| Playback.BatchRun | Rlags_project/SEDI_Camera/src/video.c:848-889 | a batch keeps the number of frames; a run that is done went through every write and leaves cur_frame on the last marked frame; a failing write leaves cur_frame on the failing frame, fails frames on and within the run; a whole batch moves cur_frame on by BATCH, at most one past the run |
| Playback.BatchRunAtEnd | Rlags_project/SEDI_Camera/src/video.c:858-862 | a batch that reaches the end of the range stops one frame back, with the run done and every write through |
| Playback.BatchRunFailing | Rlags_project/SEDI_Camera/src/video.c:879-880 | a batch whose fwrite fails stops at that frame, with the run not done and the failure reported |
| Playback.BatchRunFull | Rlags_project/SEDI_Camera/src/video.c:856-889 | a batch that writes all 100 frames leaves cur_frame 100 on, the run not done |
| Playback.BatchStep | Rlags_project/SEDI_Camera/src/video.c:848-889 | a batch changes only the frames, the file position, cur_frame and rp.tv, never starts an iteration, and keeps the marked range, the first stamp, the increment, the display and what is shown |
| Playback.StampFrames | Rlags_project/SEDI_Camera/src/video.c:848-889 | the batch loop stamps the frames from cur_frame up to the batch's or the run's end with the modulo 2^32 stamps as written, stops on a failing write, and leaves the file position, cur_frame and rp.tv as the batch specification says |
| Playback.BatchContinues | Rlags_project/SEDI_Camera/src/video.c:848-889 | a batch keeps the run's range, first stamp and increment, writes no frame outside the run, and leaves a state the next batch continues from unless the run is done, and a finished run leaves cur_frame on its last frame |
| Playback.BatchStamps | Rlags_project/SEDI_Camera/src/video.c:848-889 | a batch extends the part of the run carrying the as-written stamps up to cur_frame, and over the whole marked range once the run is done |
| Playback.StampedExact | Rlags_project/SEDI_Camera/src/video.c:866-875 | every frame of the run carrying the as-written stamp whose exact stamp fits the gints carries the exact stamp, the first stamp plus so many increments |
| Playback.SetStampsReady | Rlags_project/SEDI_Camera/src/video.c:592-634 | marking a range whose first two frames have normal stamps, with the reads succeeding, leaves the state the first batch runs from, with those two frames already carrying the run's stamps |
| Playback.ArmReady | Rlags_project/SEDI_Camera/src/video.c:618-633 | arming on the second marked frame with the first stamp lets the first batch run from frame first + 2, the two frames already carrying the run's stamps |
| Playback.Player.constructor | Rlags_project/SEDI_Camera/src/video.c:159-173 | the player starts valid with no file open, frame counters 0 and no iteration |
| Playback.Player.Valid | Rlags_project/SEDI_Camera/src/video.c:348-461 | no contract of its own: the class invariant, an open file has its frame and RGB display buffers, and every frame has fr_size pixels; kept by Playback.Player.Open and the other Playback.Player methods |
| Playback.Player.State | Rlags_project/SEDI_Camera/src/video.c:79-108 | no contract of its own: the open file's frames, the display, the marks and the RGB display buffer as one value; specified by the Playback.Player methods |
| Playback.Player.Close | Rlags_project/SEDI_Camera/src/video.c:663-690 | the new state is that of the close step, with a fresh empty display buffer |
| Playback.Player.Open | Rlags_project/SEDI_Camera/src/video.c:348-461 | the new state and the answer are those of the open step, and the player stays valid |
| Playback.Player.ShowFrame | Rlags_project/SEDI_Camera/src/video.c:491-548 | the new state and the answer are those of the show step, the display buffer is refilled in place and the player stays valid |
| Playback.Player.ShowNext | Rlags_project/SEDI_Camera/src/video.c:656-661 | the new state is that of the next step |
| Playback.Player.ShowPrev | Rlags_project/SEDI_Camera/src/video.c:648-654 | the new state is that of the previous step |
| Playback.Player.SetTimestamps | Rlags_project/SEDI_Camera/src/video.c:592-634 | the new state is that of the set-stamps step |
| Playback.Player.ShowAndArm | Rlags_project/SEDI_Camera/src/video.c:616-633 | the new state is frame k shown and the run armed with the stamp rp.tv held before the read as its first stamp |
| Playback.Player.ArmRun | Rlags_project/SEDI_Camera/src/video.c:618-633 | the new state is the armed one |
| Playback.Player.StampBatch | Rlags_project/SEDI_Camera/src/video.c:848-889 | the new state and the answer are those of one batch, stamped with the modulo 2^32 arithmetic as written |
| Camera.WordOf | rlags/Sun_Camera/oaCapture-0.0.2-alpha/oacapture/camera.cc:310-311 | no contract of its own: the flag word (control - 1) / 32 of a control; used with Camera.BitOf by Camera.SlotNamesControl |
| Camera.BitOf | rlags/Sun_Camera/oaCapture-0.0.2-alpha/oacapture/camera.cc:310-312 | the bit of a control's flag lies in a 32-bit word |
| Camera.SlotNamesControl | rlags/Sun_Camera/oaCapture-0.0.2-alpha/oacapture/camera.cc:308-317 | word and bit together name the control: no two controls share a flag, the flags of controls 1 to 64 lie in the two words, and control - 1 is 32 * word plus bit |
| Camera.SetFlag | rlags/Sun_Camera/oaCapture-0.0.2-alpha/oacapture/camera.cc:308-317 | setting a flag keeps two words |
| Camera.ClearFlag | rlags/Sun_Camera/oaCapture-0.0.2-alpha/oacapture/camera.cc:321-330 | clearing a flag keeps two words |
| Camera.IsFlagged | rlags/Sun_Camera/oaCapture-0.0.2-alpha/oacapture/camera.cc:338-344 | no contract of its own: testConfigFlag on the two flag words, false for a control past them; specified by Camera.SetFlagFlags and Camera.ClearFlagClears |
| Camera.SetFlagFlags | rlags/Sun_Camera/oaCapture-0.0.2-alpha/oacapture/camera.cc:308-317 | setting a control's flag flags that control, when it has a place in the two words, and no other |
| Camera.ClearFlagClears | rlags/Sun_Camera/oaCapture-0.0.2-alpha/oacapture/camera.cc:321-330 | clearing a control's flag unflags that control and no other |
| Camera.NoFlags | rlags/Sun_Camera/oaCapture-0.0.2-alpha/oacapture/camera.cc:329 | no contract of its own: both flag words are zero, when clearConfigUpdateFlag returns 0; specified by Camera.NoFlagsNoneFlagged |
| Camera.NoFlagsNoneFlagged | rlags/Sun_Camera/oaCapture-0.0.2-alpha/oacapture/camera.cc:329 | with both words zero no control is flagged |
| Camera.PendingBelow | rlags/Sun_Camera/oaCapture-0.0.2-alpha/oacapture/camera.cc:508-513 | no contract of its own: the oaCameraSetControl calls owed for the flagged controls below c, in control order; specified by Camera.PendingBelowSound and Camera.PendingBelowComplete |
| Camera.PendingBelowSound | rlags/Sun_Camera/oaCapture-0.0.2-alpha/oacapture/camera.cc:505-515 | every call owed below c is for a flagged control below c with its stored value, in increasing order of control |
| Camera.PendingBelowComplete | rlags/Sun_Camera/oaCapture-0.0.2-alpha/oacapture/camera.cc:505-515 | every flagged control below c is owed a call |
| Camera.Owed | rlags/Sun_Camera/oaCapture-0.0.2-alpha/oacapture/camera.cc:505-515 | no contract of its own: the calls flushSettings owes for every control with a stored value; specified by Camera.Camera.FlushSettings |
| Camera.FlushedBelow | rlags/Sun_Camera/oaCapture-0.0.2-alpha/oacapture/camera.cc:508-513 | no contract of its own: the flags of the controls below c cleared and the rest unchanged; the invariant of Camera.Camera.FlushFlags, kept by Camera.FlushedStep |
| Camera.FlushedStep | rlags/Sun_Camera/oaCapture-0.0.2-alpha/oacapture/camera.cc:507-513 | one more control flushed clears its flag if it was set, and the owed calls grow by its call |
| Camera.AfterFirst | rlags/Sun_Camera/oaCapture-0.0.2-alpha/oacapture/camera.cc:450-455 | the flag words after the as-written loop: the first owed control's flag cleared, or the words unchanged when nothing is owed |
| Camera.AfterFirstKeepsOthers | rlags/Sun_Camera/oaCapture-0.0.2-alpha/oacapture/camera.cc:450-455 | after the as-written loop a control is flagged exactly when it was and it is not the first owed one |
| Camera.FirstOf | rlags/Sun_Camera/oaCapture-0.0.2-alpha/oacapture/camera.cc:449-461 | the first call owed, if there is one |
| Camera.Camera.Flags | rlags/Sun_Camera/oaCapture-0.0.2-alpha/oacapture/camera.cc:39-41 | the flag state is a pair of words |
| Camera.Camera.Valid | rlags/Sun_Camera/oaCapture-0.0.2-alpha/oacapture/camera.cc:39-41 | no contract of its own: the class invariant, two flag words and one stored value per control; kept by every Camera.Camera method |
| Camera.Camera.constructor | rlags/Sun_Camera/oaCapture-0.0.2-alpha/oacapture/camera.cc:35-47 | a new camera has no flag set, no update pending, the default frame time and no call sent |
| Camera.Camera.SetConfigUpdateFlag | rlags/Sun_Camera/oaCapture-0.0.2-alpha/oacapture/camera.cc:308-317 | the flags gain the control's flag; the update is marked pending exactly when it was or the control has a place; nothing else changes |
| Camera.Camera.ClearConfigUpdateFlag | rlags/Sun_Camera/oaCapture-0.0.2-alpha/oacapture/camera.cc:321-330 | the flags lose the control's flag, and the answer is 1 exactly when some flag is still set |
| Camera.Camera.TestConfigFlag | rlags/Sun_Camera/oaCapture-0.0.2-alpha/oacapture/camera.cc:334-345 | the answer is 1 exactly when the control is flagged |
| Camera.Camera.SetControl | rlags/Sun_Camera/oaCapture-0.0.2-alpha/oacapture/camera.cc:227-253 | the value is stored; binning is sent at once, any other control is flagged, and an absolute exposure also becomes the frame time; the answer is 0 |
| Camera.Camera.FlushSettings | rlags/Sun_Camera/oaCapture-0.0.2-alpha/oacapture/camera.cc:505-515 | every flagged control is sent once, lowest first, with its stored value, its flag is cleared, and no update is pending |
| Camera.Camera.FlushFlags | rlags/Sun_Camera/oaCapture-0.0.2-alpha/oacapture/camera.cc:507-513 | the calls the loop makes are exactly the owed ones, in order, and every flag owed is cleared |
| Camera.Camera.CaptureUpdatesAsWritten | rlags/Sun_Camera/oaCapture-0.0.2-alpha/oacapture/camera.cc:447-462 | as written, with an update pending only the first owed call is sent and only that control's flag is cleared (`AfterFirst`) before the pending mark is dropped, so the other flags stay; without one nothing happens |
| Camera.Camera.UpdateFlagsAsWritten | rlags/Sun_Camera/oaCapture-0.0.2-alpha/oacapture/camera.cc:450-455 | the loop as written makes exactly the first owed call and leaves the flags with only that control's flag cleared |
| Camera.Camera.CaptureUpdates | rlags/Sun_Camera/oaCapture-0.0.2-alpha/oacapture/camera.cc:447-462 | corrected: with an update pending every owed call is sent, lowest first, and no flag is left; without one nothing happens |
| Camera.PendingFirst | rlags/Sun_Camera/oaCapture-0.0.2-alpha/oacapture/camera.cc:450-455 | when control c is the first flagged one, it alone is owed below c + 1 and its call heads the whole list |
| Camera.PendingPrefix | rlags/Sun_Camera/oaCapture-0.0.2-alpha/oacapture/camera.cc:450-455 | what is owed below c is a prefix of what is owed below any higher bound |
| Camera.CaptureStrandsSecondFlag | rlags/Sun_Camera/oaCapture-0.0.2-alpha/oacapture/camera.cc:450-455 | with controls 1 and 2 both waiting, the capture thread as written sends only control 1, while both are owed, and leaves control 2 flagged |
| Camera.Camera.SendFirst | rlags/Sun_Camera/oaCapture-0.0.2-alpha/oacapture/camera.cc:450-455 | at the first flagged control the loop body makes exactly the first call owed, and the clear answers 0 exactly when no flag is left |
| PreviewWidget.Swap | rlags/downloaded_tars/oaCapture-0.0.2-alpha/oacapture/previewWidget.cc:412-414 | an exchange keeps the length of the frame |
| PreviewWidget.SwapRun | rlags/downloaded_tars/oaCapture-0.0.2-alpha/oacapture/previewWidget.cc:438-442 | n exchanges with both pointers stepping forward keep the length of the frame |
| PreviewWidget.SwapRunAt | rlags/downloaded_tars/oaCapture-0.0.2-alpha/oacapture/previewWidget.cc:436-443 | exchanging the runs at p1 and p2 leaves every other byte alone, and runs that are apart end up holding each other |
| PreviewWidget.SwapBytes | rlags/downloaded_tars/oaCapture-0.0.2-alpha/oacapture/previewWidget.cc:438-442 | the inner loop of a vertical flip leaves the buffer as the run exchange says |
| PreviewWidget.Walk | rlags/downloaded_tars/oaCapture-0.0.2-alpha/oacapture/previewWidget.cc:411-415 | a walk of the two pointers towards each other keeps the length of the frame |
| PreviewWidget.WalkOutside | rlags/downloaded_tars/oaCapture-0.0.2-alpha/oacapture/previewWidget.cc:411-415 | a walk leaves every byte outside its span alone |
| PreviewWidget.Multiple | rlags/downloaded_tars/oaCapture-0.0.2-alpha/oacapture/previewWidget.cc:509-519 | no contract of its own: a byte distance that is a whole number of pixel steps, as the 24-bit loops walk them; specified by PreviewWidget.MultipleOf and PreviewWidget.MultipleGap |
| PreviewWidget.MultipleOf | rlags/downloaded_tars/oaCapture-0.0.2-alpha/oacapture/previewWidget.cc:509-519 | g whole pixels of k bytes are a whole number of pixels |
| PreviewWidget.MultipleGap | rlags/downloaded_tars/oaCapture-0.0.2-alpha/oacapture/previewWidget.cc:509-519 | two different pixel offsets are at least a pixel apart |
| PreviewWidget.WalkReverses | rlags/downloaded_tars/oaCapture-0.0.2-alpha/oacapture/previewWidget.cc:407-415 | with whole-pixel steps, the pixel d bytes after the start of the walk comes from the pixel d bytes before its end, its bytes in their order |
| PreviewWidget.WalkBuffer | rlags/downloaded_tars/oaCapture-0.0.2-alpha/oacapture/previewWidget.cc:407-415 | the pointer loop leaves the buffer as the walk says |
| PreviewWidget.RowsFit | rlags/downloaded_tars/oaCapture-0.0.2-alpha/oacapture/previewWidget.cc:421-428 | no contract of its own: every row the flipX loop walks, stride bytes apart, stays inside the buffer; established by PreviewWidget.RowsFitOf |
| PreviewWidget.RowsFitOf | rlags/downloaded_tars/oaCapture-0.0.2-alpha/oacapture/previewWidget.cc:421-428 | rows that start at multiples of the stride and end inside the buffer fit it |
| PreviewWidget.WalkRows | rlags/downloaded_tars/oaCapture-0.0.2-alpha/oacapture/previewWidget.cc:421-428 | a walk along every row keeps the length of the frame |
| PreviewWidget.WalkRowsBefore | rlags/downloaded_tars/oaCapture-0.0.2-alpha/oacapture/previewWidget.cc:421-428 | the row walks leave the bytes before the first row alone |
| PreviewWidget.RowAt | rlags/downloaded_tars/oaCapture-0.0.2-alpha/oacapture/previewWidget.cc:421-422 | no contract of its own: an offset is the start of one of the rows the flipX loop visits; specified by PreviewWidget.RowAtOf and PreviewWidget.RowAtNonNegative |
| PreviewWidget.RowAtOf | rlags/downloaded_tars/oaCapture-0.0.2-alpha/oacapture/previewWidget.cc:421-422 | y rows of the stride is the offset of row y |
| PreviewWidget.RowAtNonNegative | rlags/downloaded_tars/oaCapture-0.0.2-alpha/oacapture/previewWidget.cc:421-422 | row offsets are never negative |
| PreviewWidget.WalkRowsMirror | rlags/downloaded_tars/oaCapture-0.0.2-alpha/oacapture/previewWidget.cc:416-429 | in each row the walk puts, with whole-pixel steps, the pixel d bytes in at the place of the pixel d bytes before the row's end |
| PreviewWidget.FirstRowMirror | rlags/downloaded_tars/oaCapture-0.0.2-alpha/oacapture/previewWidget.cc:416-429 | after the row walk, byte q of pixel d of the first row is byte q of the pixel span - d of the original, the step WalkRowsMirror builds on |
| PreviewWidget.WalkEachRow | rlags/downloaded_tars/oaCapture-0.0.2-alpha/oacapture/previewWidget.cc:416-429 | the row loop leaves the buffer as the row walks say |
| PreviewWidget.PairsFit | rlags/downloaded_tars/oaCapture-0.0.2-alpha/oacapture/previewWidget.cc:434-443 | no contract of its own: the row exchanges of the flipY loop stay in the buffer and never meet; established by PreviewWidget.PairsFitOf |
| PreviewWidget.PairsFitOf | rlags/downloaded_tars/oaCapture-0.0.2-alpha/oacapture/previewWidget.cc:434-443 | the row pairs top against bottom, moving inwards, lie inside the frame |
| PreviewWidget.RowSwaps | rlags/downloaded_tars/oaCapture-0.0.2-alpha/oacapture/previewWidget.cc:430-444 | the row exchanges keep the length of the frame |
| PreviewWidget.RowSwapsOutside | rlags/downloaded_tars/oaCapture-0.0.2-alpha/oacapture/previewWidget.cc:430-444 | the exchanges leave everything above the top row and below the bottom row alone |
| PreviewWidget.Times | rlags/downloaded_tars/oaCapture-0.0.2-alpha/oacapture/previewWidget.cc:437 | no contract of its own: an offset is n row lengths; specified by PreviewWidget.TimesOf and PreviewWidget.TimesAtLeast |
| PreviewWidget.TimesOf | rlags/downloaded_tars/oaCapture-0.0.2-alpha/oacapture/previewWidget.cc:437 | n rows of w bytes are n times w bytes |
| PreviewWidget.TimesAtLeast | rlags/downloaded_tars/oaCapture-0.0.2-alpha/oacapture/previewWidget.cc:437 | a positive number of rows covers at least one row |
| PreviewWidget.RowSwapsBetween | rlags/downloaded_tars/oaCapture-0.0.2-alpha/oacapture/previewWidget.cc:430-444 | the rows between the exchanged ones are left alone |
| PreviewWidget.RowSwapsAt | rlags/downloaded_tars/oaCapture-0.0.2-alpha/oacapture/previewWidget.cc:430-444 | each pass exchanges the row o bytes below the top with the row o bytes above the bottom |
| PreviewWidget.Pairs | rlags/downloaded_tars/oaCapture-0.0.2-alpha/oacapture/previewWidget.cc:436 | the loop makes height - 1 - bound passes, and none when height - 1 is not above the bound |
| PreviewWidget.SwapRowPairs | rlags/downloaded_tars/oaCapture-0.0.2-alpha/oacapture/previewWidget.cc:430-444 | the vertical flip loop leaves the buffer as the row exchanges say |
| PreviewWidget.MirrorRow | rlags/downloaded_tars/oaCapture-0.0.2-alpha/oacapture/previewWidget.cc:430-444 | exchanging the rows pair by pair from the outside in, height / 2 times, puts row height-1-i at row i, byte for byte |
| PreviewWidget.AsWritten | rlags/downloaded_tars/oaCapture-0.0.2-alpha/oacapture/previewWidget.cc:378-558 | a loop shape exists exactly for the three handled formats; its pixel step is at least 1 and its vertical bound is half the height, as written |
| PreviewWidget.Fixed | rlags/downloaded_tars/oaCapture-0.0.2-alpha/oacapture/previewWidget.cc:378-558 | the corrected loops exist for the same formats and step back by a whole pixel |
| PreviewWidget.Fits | rlags/downloaded_tars/oaCapture-0.0.2-alpha/oacapture/previewWidget.cc:405-558 | no contract of its own: the frame sizes for which every flip loop stays inside the buffer and the vertical flip exchanges each row at most once; the precondition of PreviewWidget.FlipFrame |
| PreviewWidget.Flipped | rlags/downloaded_tars/oaCapture-0.0.2-alpha/oacapture/previewWidget.cc:405-558 | one flip routine keeps the length of the frame |
| PreviewWidget.FlipFrame | rlags/downloaded_tars/oaCapture-0.0.2-alpha/oacapture/previewWidget.cc:405-558 | a flip routine leaves the buffer as the flip function says |
| PreviewWidget.ProcessFlip | rlags/downloaded_tars/oaCapture-0.0.2-alpha/oacapture/previewWidget.cc:378-401 | processFlip as written: the three formats are flipped by their routines, any other is left as it is |
| PreviewWidget.ProcessFlipFixed | rlags/downloaded_tars/oaCapture-0.0.2-alpha/oacapture/previewWidget.cc:378-401 | the same dispatch with the three routines corrected |
| PreviewWidget.Flip8BothReverses | rlags/downloaded_tars/oaCapture-0.0.2-alpha/oacapture/previewWidget.cc:407-415 | 8-bit, both flips: the frame is reversed byte by byte and the rest of the buffer is left alone |
| PreviewWidget.Flip8RowsReverse | rlags/downloaded_tars/oaCapture-0.0.2-alpha/oacapture/previewWidget.cc:416-429 | 8-bit, horizontal flip alone: pixel x of each row comes from pixel width - 1 - x of the same row |
| PreviewWidget.Flip24BothReversesPixels | rlags/downloaded_tars/oaCapture-0.0.2-alpha/oacapture/previewWidget.cc:505-523 | 24-bit, both flips: pixel g comes from pixel n - 1 - g with its three colour bytes in their order |
| PreviewWidget.FlipXRowMirror | rlags/downloaded_tars/oaCapture-0.0.2-alpha/oacapture/previewWidget.cc:416-429 | the horizontal flip alone with whole-pixel steps mirrors every row pixel by pixel |
| PreviewWidget.Flip24RowsReverse | rlags/downloaded_tars/oaCapture-0.0.2-alpha/oacapture/previewWidget.cc:524-544 | 24-bit, horizontal flip alone: pixel x of each row comes from pixel width - 1 - x, colour bytes in their order |
| PreviewWidget.Flip16BothFixedReversesPixels | rlags/downloaded_tars/oaCapture-0.0.2-alpha/oacapture/previewWidget.cc:452-465 | the corrected 16-bit whole-frame flip: pixel g comes from pixel n - 1 - g, both bytes in order |
| PreviewWidget.Flip16RowsFixedReverse | rlags/downloaded_tars/oaCapture-0.0.2-alpha/oacapture/previewWidget.cc:466-485 | the corrected 16-bit horizontal flip mirrors every row pixel by pixel, both bytes in order |
| PreviewWidget.FlipYFixedMirrors | rlags/downloaded_tars/oaCapture-0.0.2-alpha/oacapture/previewWidget.cc:430-444 | the corrected vertical flip puts row height - 1 - i at row i, for every format |
| PreviewWidget.MiddleRowsStay | rlags/downloaded_tars/oaCapture-0.0.2-alpha/oacapture/previewWidget.cc:436 | with the passes two rows short of meeting, the two middle rows are left where they are |
| PreviewWidget.FlipYAsWrittenKeepsMiddle | rlags/downloaded_tars/oaCapture-0.0.2-alpha/oacapture/previewWidget.cc:436 | as written, on an even number of rows the two middle rows are never exchanged |
| PreviewWidget.FlipYTwoRows | rlags/downloaded_tars/oaCapture-0.0.2-alpha/oacapture/previewWidget.cc:436 | a two-row frame: as written nothing moves; corrected, the rows trade places |
| PreviewWidget.Flip16BothAsWritten | rlags/downloaded_tars/oaCapture-0.0.2-alpha/oacapture/previewWidget.cc:452-465 | 16-bit, both flips, as written, on four pixels 0 1 2 3 4 5 6 7: the result is 6 7 5 0 4 2 3 1, not the reversed pixel order 6 7 4 5 2 3 0 1 |
| PreviewWidget.Flip16RowsAsWritten | rlags/downloaded_tars/oaCapture-0.0.2-alpha/oacapture/previewWidget.cc:471 | 16-bit, horizontal flip alone, as written, on two rows of two pixels 0 1 2 3 4 5 6 7: row 1's walk starts at byte 2, inside row 0, and the result is 2 3 4 5 0 1 6 7, not 2 3 0 1 6 7 4 5 |
| PreviewWidget.Sample | rlags/downloaded_tars/oaCapture-0.0.2-alpha/oacapture/previewWidget.cc:562-573 | a 16-bit sample's high and low bytes, in the frame's byte order |
| PreviewWidget.Convert16To8Bit | rlags/downloaded_tars/oaCapture-0.0.2-alpha/oacapture/previewWidget.cc:562-573 | each output byte is the high byte of its 16-bit sample (for an odd length, the last one as far as it is read), and the bytes past the output are left alone |
| OutputHandler.ReplaceAll | rlags/Sun_Camera/oaCapture-0.0.2-alpha/oacapture/outputHandler.cc:82-104 | no contract of its own: QString::replace, every non-overlapping occurrence of the pattern, left to right, replaced by the text; specified by OutputHandler.ReplaceAbsent, OutputHandler.ReplaceKeepsAbsent, OutputHandler.ReplaceRemoves and OutputHandler.ReplaceNoPercent |
| OutputHandler.At | rlags/Sun_Camera/oaCapture-0.0.2-alpha/oacapture/outputHandler.cc:82-104 | no contract of its own: the pattern occurs at a given index of the name |
| OutputHandler.Occurs | rlags/Sun_Camera/oaCapture-0.0.2-alpha/oacapture/outputHandler.cc:82-104 | no contract of its own: the pattern occurs somewhere in the name, so that a replace call has something to replace |
| OutputHandler.AtSuffix | rlags/Sun_Camera/oaCapture-0.0.2-alpha/oacapture/outputHandler.cc:82-104 | an occurrence in the rest of the name after d characters is an occurrence in the whole name, d places on |
| OutputHandler.AtAfter | rlags/Sun_Camera/oaCapture-0.0.2-alpha/oacapture/outputHandler.cc:82-104 | an occurrence after a prefix of the name is an occurrence in the text after that prefix |
| OutputHandler.ReplaceAbsent | rlags/Sun_Camera/oaCapture-0.0.2-alpha/oacapture/outputHandler.cc:82-104 | QString::replace leaves a name in which the token does not occur unchanged |
| OutputHandler.CopiedPrefix | rlags/Sun_Camera/oaCapture-0.0.2-alpha/oacapture/outputHandler.cc:82-104 | up to the first inserted character a replace leaves the name as it was: a prefix of the result made of pattern characters, when the replacement does not start with one, is a prefix of the original |
| OutputHandler.FrontOccurrence | rlags/Sun_Camera/oaCapture-0.0.2-alpha/oacapture/outputHandler.cc:82-104 | an occurrence of a later token at the front of a character followed by a replace's result was already there before the replace, when the replacement does not start with a character of that token |
| OutputHandler.NoneStartsIn | rlags/Sun_Camera/oaCapture-0.0.2-alpha/oacapture/outputHandler.cc:82-104 | no occurrence of a token starts inside an inserted text none of whose characters is in the token |
| OutputHandler.ReplaceKeepsAbsent | rlags/Sun_Camera/oaCapture-0.0.2-alpha/oacapture/outputHandler.cc:95-101 | replacing a token by a non-empty text none of whose characters is in a second token never creates an occurrence of the second token |
| OutputHandler.ReplaceRemoves | rlags/Sun_Camera/oaCapture-0.0.2-alpha/oacapture/outputHandler.cc:82-104 | after a replacement by a non-empty text sharing no character with the token, the token no longer occurs |
| OutputHandler.ReplaceNoPercent | rlags/Sun_Camera/oaCapture-0.0.2-alpha/oacapture/outputHandler.cc:82-104 | a name without '%' has no token to replace and is left as it is |
| OutputHandler.FieldTwoDigits | rlags/Sun_Camera/oaCapture-0.0.2-alpha/oacapture/outputHandler.cc:48-67 | a field from 0 to 99 with "0" put in front below 10 is exactly two digits, the %02d text of the value, reading back as the value, and unchanged setNum text from 10 on |
| OutputHandler.Field | rlags/Sun_Camera/oaCapture-0.0.2-alpha/oacapture/outputHandler.cc:48-72 | no contract of its own: setNum of a time field with "0" put in front of a value below 10; specified by OutputHandler.FieldTwoDigits |
| OutputHandler.TimeValues | rlags/Sun_Camera/oaCapture-0.0.2-alpha/oacapture/outputHandler.cc:42-78 | the date is year, month and day joined, the time is hours, minutes and seconds joined, the year is tm_year + 1900 and the epoch is the seconds since the epoch, in decimal |
| OutputHandler.TimeFieldsTwoDigits | rlags/Sun_Camera/oaCapture-0.0.2-alpha/oacapture/outputHandler.cc:48-72 | within localtime's ranges the seconds, minutes, hours, day and month (tm_mon + 1) are each two digits reading back as their values, and the time is six characters |
| OutputHandler.MinutesShortTokenUnused | rlags/Sun_Camera/oaCapture-0.0.2-alpha/oacapture/outputHandler.cc:98-101 | the second "%M" replacement, meant for the minutes, never finds anything: the month's "%M" has taken every one and the day and hours put none back |
| OutputHandler.LongsNoPercent | rlags/Sun_Camera/oaCapture-0.0.2-alpha/oacapture/outputHandler.cc:83-93 | the long-token replacements after %DATE leave a name with no '%' unchanged |
| OutputHandler.ShortsNoPercent | rlags/Sun_Camera/oaCapture-0.0.2-alpha/oacapture/outputHandler.cc:95-104 | the short-token replacements leave a name with no '%' unchanged |
| OutputHandler.Substitute | rlags/Sun_Camera/oaCapture-0.0.2-alpha/oacapture/outputHandler.cc:82-104 | a template with no '%' in it is the file name unchanged |
| OutputHandler.Longs | rlags/Sun_Camera/oaCapture-0.0.2-alpha/oacapture/outputHandler.cc:83-93 | no contract of its own: the replaces of %TIME through %PROFILE, in the source's order; specified by OutputHandler.LongsNoPercent |
| OutputHandler.Shorts | rlags/Sun_Camera/oaCapture-0.0.2-alpha/oacapture/outputHandler.cc:95-104 | no contract of its own: the replaces of %D through %E as written, with %M replaced twice; specified by OutputHandler.MinutesTokenGivesMonth, OutputHandler.MinutesShortTokenUnused and OutputHandler.ShortsNoPercent |
| OutputHandler.MinutesTokenGivesMonth | rlags/Sun_Camera/oaCapture-0.0.2-alpha/oacapture/outputHandler.cc:98-101 | as written, the template "%M" gives the month, never the minutes |
| OutputHandler.NoPercentInDigits | rlags/Sun_Camera/oaCapture-0.0.2-alpha/oacapture/outputHandler.cc:48-78 | a field made only of digits, as setNum gives for the time values, holds no '%', so no later replace finds a token inside it |
| OutputHandler.ShortsFixed | rlags/Sun_Camera/oaCapture-0.0.2-alpha/oacapture/outputHandler.cc:98-101 | no contract of its own: the short replaces with the month on %m, so that %M reaches the minutes; specified by OutputHandler.ShortsFixedMinutes |
| OutputHandler.ShortsFixedMinutes | rlags/Sun_Camera/oaCapture-0.0.2-alpha/oacapture/outputHandler.cc:98-101 | with the month token written "%m", "%M" gives the minutes and "%m" the month |
| OutputHandler.DateTokenWhole | rlags/Sun_Camera/oaCapture-0.0.2-alpha/oacapture/outputHandler.cc:82-95 | "%DATE" is replaced whole by the date before "%D" could take its first two characters |
| OutputHandler.Prefixed | rlags/Sun_Camera/oaCapture-0.0.2-alpha/oacapture/outputHandler.cc:106-112 | a name starting with '/' is kept; any other name, the empty one included, is put in the capture directory, or in the current directory when none is configured; the name always ends the path |
| OutputHandler.PrefixedAbsolute | rlags/Sun_Camera/oaCapture-0.0.2-alpha/oacapture/outputHandler.cc:106-112 | with an absolute capture directory, or failing that an absolute current directory, every name becomes absolute |
| OutputHandler.FileName | rlags/Sun_Camera/oaCapture-0.0.2-alpha/oacapture/outputHandler.cc:80-112 | the path ends with the substituted name, and is absolute when the capture directory is absolute or, failing that, the current directory is |
| OutputHandler.Handler.constructor | rlags/Sun_Camera/oaCapture-0.0.2-alpha/oacapture/outputHandler.cc:35-115 | the file name is the template with its tokens replaced in the source's order and then the directory prefix, and the recording path is empty |
| Asill.InShadow | test_code/yaaca-master/asill.c:194-197 | no contract of its own: the registers 0x3000 .. 0x3fff that the shadow array holds; used by Reg and Written |
| Asill.Reg | test_code/yaaca-master/asill.c:193-198 | no contract of its own: get_reg, the shadowed value of a register in the window and 0 outside it; specified by Asill.SetRegReads |
| Asill.Written | test_code/yaaca-master/asill.c:142-153 | register writes keep the size of the shadow |
| Asill.SetRegReads | test_code/yaaca-master/asill.c:142-198 | after a write to a shadowed register, reading it gives the value's low 16 bits; every other register reads as before |
| Asill.WrittenAppend | test_code/yaaca-master/asill.c:142-153 | the shadow after two batches of commands is the shadow after the first, updated by the second |
| Asill.WrittenFour | test_code/yaaca-master/asill.c:845-862 | four commands update the shadow one after another |
| Asill.FourInOrder | test_code/yaaca-master/asill.c:845-862 | the four single commands of a window write appended one by one are the queue extended by all four, in order |
| Asill.WrittenNoWrites | test_code/yaaca-master/asill.c:111-140 | sleeps and requests leave the shadow alone |
| Asill.MaskBits | test_code/yaaca-master/asill.c:200-206 | no contract of its own: set_reg_mask's new value, (get_reg & ~mask) or v, cut to 16 bits; specified by Asill.MaskBitsBit and Asill.MaskBitsIdempotent |
| Asill.MaskBitsBit | test_code/yaaca-master/asill.c:200-206 | bit by bit, set_reg_mask sets the bits of v, clears the mask's other bits and keeps every other bit of the old value |
| Asill.MaskBitsIdempotent | test_code/yaaca-master/asill.c:200-206 | writing the same bits twice is writing them once |
| Asill.Field | test_code/yaaca-master/asill.c:878-882 | no contract of its own: the bit field of a given width from a given low bit, as a number; specified by Asill.FieldBits, Asill.FieldFits and Asill.TwoBitField |
| Asill.AnalogGain | test_code/yaaca-master/asill.c:872-877 | the analog gain 1 to 16 becomes the field 0 to 15: gain - 1 clamped to that range |
| Asill.DefaultPars | test_code/yaaca-master/asill.c:747-758 | asill_new starts with one value per parameter |
| Asill.KnownPar | test_code/yaaca-master/asill.c:864-925 | no contract of its own: the parameters 0 .. ASILL_PAR_N - 1 whose switch branch does not fall to the default and return -1; used by Asill.NewPars and Asill.ParWritesKnown |
| Asill.SwitchOf | test_code/yaaca-master/asill.c:894-908 | each switch parameter names a register and one of its 16 bits |
| Asill.NewPars | test_code/yaaca-master/asill.c:916-925 | storing a parameter keeps one value per parameter |
| Asill.ParWritesKnown | test_code/yaaca-master/asill.c:864-931 | an unknown parameter queues nothing and stores nothing |
| Asill.ParWrites | test_code/yaaca-master/asill.c:864-931 | a parameter queues writes exactly when it is one the camera knows, and then one or two register writes and nothing else |
| Asill.AnalogGainWrites | test_code/yaaca-master/asill.c:872-882 | the analog gain writes exactly two masked registers: gain - 1 clamped to 0 .. 15, its high two bits into bits 4-5 of 0x30b0 and its low two bits into bits 8-9 of 0x3ee4 |
| Asill.NewParsStores | test_code/yaaca-master/asill.c:916-925 | setting a parameter stores its value and changes no other; the global digital gain also becomes the four channel gains |
| Asill.FieldBits | test_code/yaaca-master/asill.c:878-881 | the bits of a 2-bit value shifted to bit low are its two bits there and zero elsewhere |
| Asill.FieldFits | test_code/yaaca-master/asill.c:878-881 | a shifted 2-bit field stays inside 16 bits |
| Asill.TwoBits | test_code/yaaca-master/asill.c:878-879 | a 2-bit value is its low bit plus twice its high bit |
| Asill.TwoBitField | test_code/yaaca-master/asill.c:880-881 | set_reg_mask on a 2-bit field makes the field read back as the value and keeps every other bit |
| Asill.TwoBitFieldBit | test_code/yaaca-master/asill.c:880-881 | the same, bit by bit |
| Asill.AnalogGainFields | test_code/yaaca-master/asill.c:866-882 | the analog gain writes its high two bits to bits 4-5 of 0x30b0 and its low two bits to bits 8-9 of 0x3ee4, keeping every other bit of the two registers |
| Asill.SwitchParBit | test_code/yaaca-master/asill.c:894-908 | a switch parameter sets its bit exactly when the value says so (for bias subtraction, when the value is 0) and keeps every other bit |
| Asill.ClampStart | test_code/yaaca-master/asill.c:847-852 | a window start that would pass the sensor's edge is moved back so the window ends at it, in uint16_t arithmetic (wrapping when the window is wider than the sensor) |
| Asill.WindowInside | test_code/yaaca-master/asill.c:845-862 | a window that fits the sensor is written with its last column and row inside it, the ends not before the starts |
| Asill.WindowWrites | test_code/yaaca-master/asill.c:856-859 | the window is four register writes: the row start is y + 2, the column start x, and the ends lie w - 1 and h - 1 beyond the starts |
| Asill.Transfers | test_code/yaaca-master/asill.c:155-183 | one transfer per command, each the command's own, in order |
| Asill.TransferOf | test_code/yaaca-master/asill.c:164-176 | a sleep becomes a pause and every other command a vendor control transfer (type 0x40): a register write is request 0xa6 with the register as value and the data as index, a request is its low byte with the value and index 0 |
| Asill.Printed | test_code/yaaca-master/asill.c:976-987 | snprintf keeps the size of the buffer |
| Asill.PrintedText | test_code/yaaca-master/asill.c:976-987 | the C string of the printed buffer is the whole text when it fits, and otherwise the text cut one character short of the buffer |
| Asill.SaveBuffer | test_code/yaaca-master/asill.c:976-987 | asill_set_save keeps the size of save_path |
| Asill.SaveBufferEnables | test_code/yaaca-master/asill.c:976-987 | saving is on exactly when a path is given and "path/" fits, and the stored string is then "path/"; otherwise it is empty |
| Asill.CmdQueue.constructor | test_code/yaaca-master/asill.c:687-700 | the calloc'd queue holds no command and no array yet |
| Asill.CmdQueue.Valid | test_code/yaaca-master/asill.c:102-109 | no contract of its own: the class invariant, n_cmds never exceeds the allocated size of cmds; kept by Asill.CmdQueue.Push |
| Asill.CmdQueue.Items | test_code/yaaca-master/asill.c:57-59 | no contract of its own: the first n_cmds commands of cmds, oldest first; specified by Asill.CmdQueue.Push |
| Asill.CmdQueue.Push | test_code/yaaca-master/asill.c:102-109 | the command is appended; a full array grows by 100 entries |
| Asill.Asill.constructor | test_code/yaaca-master/asill.c:687-781 | a new camera has an empty queue, a zero shadow, the default parameters, no save path and the full 1280 by 960 window at (0, 0) |
| Asill.Asill.Valid | test_code/yaaca-master/asill.c:687-781 | no contract of its own: the class invariant, a valid queue and the shadow, parameter and save_path buffers at their allocated sizes; kept by every Asill.Asill method |
| Asill.Asill.Queue | test_code/yaaca-master/asill.c:57-59 | no contract of its own: the camera's pending command queue; specified by the Asill.Asill methods that push commands |
| Asill.Asill.SleepFor | test_code/yaaca-master/asill.c:111-118 | a sleep of ms milliseconds is appended to the queue |
| Asill.Asill.SendCtrlVal | test_code/yaaca-master/asill.c:120-140 | the request and its value are appended to the queue |
| Asill.Asill.SetReg | test_code/yaaca-master/asill.c:142-153 | the write is appended to the queue and, for a shadowed register, recorded in the shadow at once |
| Asill.Asill.GetReg | test_code/yaaca-master/asill.c:193-198 | a shadowed register reads as its shadow, any other as 0 |
| Asill.Asill.SetRegMask | test_code/yaaca-master/asill.c:200-206 | the register's shadowed value with the mask's bits replaced by v is written |
| Asill.Asill.RunQueue | test_code/yaaca-master/asill.c:155-183 | every queued command is carried out, oldest first, and the queue is left empty |
| Asill.Asill.WriteWindow | test_code/yaaca-master/asill.c:856-859 | the four window registers are queued and shadowed: rows from 2 on, columns from 0 |
| Asill.Asill.SetXY | test_code/yaaca-master/asill.c:845-862 | the start is clamped so the window fits, stored, and the window registers queued; the size is unchanged and 0 is returned |
| Asill.Asill.SetSwitch | test_code/yaaca-master/asill.c:894-908 | one switch parameter's write is queued and shadowed |
| Asill.Asill.SetAnalogGain | test_code/yaaca-master/asill.c:866-882 | the analog gain's two writes are queued and shadowed |
| Asill.Asill.SetIntPar | test_code/yaaca-master/asill.c:864-931 | a known parameter queues its writes, is stored (the global digital gain also as the four channel gains) and gives 0; an unknown one gives -1 and changes nothing |
| Asill.Asill.Pulse | test_code/yaaca-master/asill.c:1009-1016 | a guide pulse queues the start request, the sleep and the stop request |
| Asill.Asill.SavePath | test_code/yaaca-master/asill.c:976-987 | no contract of its own: the text in save_path up to its NUL; specified by Asill.Asill.PrintSavePath and Asill.Asill.SetSave |
| Asill.Asill.PrintSavePath | test_code/yaaca-master/asill.c:981 | snprintf returns the length of the text and prints it into save_path |
| Asill.Asill.SetSave | test_code/yaaca-master/asill.c:976-987 | -1 exactly when "path/" does not fit, 0 otherwise, and save_path is the buffer of SaveBuffer |

## Left out

General:
- Serial, USB and HID transfers, `fopen`/`fread`/`fwrite`/`fseeko`/`stat`, GTK and Qt widgets, and logging. These are parameters (their outcome or the bytes read) or appear as traces of what would be sent.
- Threads, mutexes and condition variables are left out. The asill worker thread, the oaCapture capture thread (only its flag loop is modelled) and the GoQat timers each become one step called in sequence.
- Floating point is left out. This covers `atof`/`strtof`/`%f` formatting, the Gemini and LX200 float conversions, CCD temperatures, pixel sizes in microns, frame rates, the preview and augcam gamma curves, and the `mean_pos` mean (a `real` here).
- Undefined behaviour in C (reads past a buffer, shifts of 32 or more) is not modelled as C would behave. Each such case is an explicit `Option`/error result or a precondition that the source's callers meet, except the two named below (`Tasks.LoopCheck.Push`, `Image.SaveData`).

Per source file:
- Telescope: the text serial protocol of other mounts, precession and the guide calibration maths are left out because they are floating point.
- Focus: the firmware version (read with `strtof`) and the temperature in degrees are floating-point conversions; the model keeps the version text and the raw reading.
- Tasks: the tasks themselves (exposures, scripts, telescope moves), the GTK list store and the file reader around `next_token` are left out; a task list is the sequence of its statement kinds.
- Sx:
  - the interlaced read-out path of `sx_expose` (field medians and scaling) is not modelled;
  - pixel sizes are floating point;
  - `sx_expose`'s thread handling is left out.
- Tasks.LoopCheck.Push: requires a free slot of loop_check. The source has no such check, and the 401st opening statement of a list is written to loop_check[400], past the array (Findings). The pass as a function (`Tasks.Check`) keeps its open blocks in an unbounded sequence.
- Image.SaveData, Image.SaveRows: require a row width of at least 1. With zero-width rows (h_pix == 0) the source's row loop keeps k at 0 and never ends; the model has no non-terminating loop.
- Image:
  - the statistics of `convert_to_grey` and `image_get_stats` (minimum, maximum, histogram, median, rms) are not modelled;
  - the FITS cards are modelled by their texts;
  - that every card fits in 80 columns is not proved, because any proof that unfolds the 34 literal cards is too costly;
  - for the same reason the header write is specified for any card list (`Image.WriteHeader`), not for `image_save_as_fits`'s own list.
- Image.Cards: has no contract of its own. Any property of the whole list unfolds all 34 literal card texts, and that proof is too costly; the single cards are specified by the lemmas about them.
- Augcam.ConvertToGrey: the dark file is the parameter `f`, holding its header and frame, and the file as left is the result. A short frame read is modelled; a failing read of the header and a failing write are not.
- Augcam:
  - LUMIN weights the three bytes with real factors and takes the floor;
  - the gamma curve is a parameter `curve`;
  - V4L capture itself is left out; the FIFO takes a frame as its bytes.
- Loop: only the flag transitions of one event-loop iteration are modelled; the GTK timers, the LED and progress widgets, and the callbacks they start are left out.
- Camera: the camera library's own state and the accessors that only return a field (`has16Bit` and the like) are left out.
- Asill:
  - `init`, `setup_frame`, `calc_min_max_exp`, exposure setting, `worker`, `save_hdr`, loading and saving parameters, `asill_set_wh`, and the buffer conversions are left out, because they are fixed register sequences, floating point, file I/O or threads;
  - the MT9M034 register addresses come from the sensor's register map, because registers.h is not part of this model;
  - the flips' `restore_rnc` returns at once in the source and so does nothing here.
- Video: `video_buffer_frame` runs in the unicap callback and `video_flush_buffer` in the main loop, and the model interleaves them one whole call at a time. A flush served after one more frame has been stored is modelled (`Video.LateFlushCutsHalf`). Longer delays and a store racing a flush within one call are not.
- Video.BufferKeepsFrames: proved only for a flush the main loop serves before the next frame is stored. As written, a later flush loses frames (`Video.LateFlushCutsHalf`).
- Video.PendingWritesHalf: proved only for a flush served before the next frame is stored. A later one writes one frame of the half (`Video.LateFlushCutsHalf`).
- Video.Increment: the gint differences of the two stamps are taken exactly. C agrees with that while the seconds and microseconds differ by less than 2^31.
- Video: `video_save_frames`, `video_photom_frames`, `video_update_timestamp` and the VA_PB and VA_SF branches of `video_iter_frames` are left out (floating point playback timing, FITS export, external programs).
- Playback:
  - the file is its sequence of frames;
  - what a read returns when the file position is just past a rewritten time stamp (`straddle`) is a parameter;
  - only a failing `fwrite` is modelled in a time-stamp batch;
  - `video_set_start_time` and `video_set_frame_rate` are left out (VA_PB timing).
- OutputHandler:
  - `time` and `localtime` are parameters (the `Tm` fields and the epoch seconds), and so are the capture widget's filter and profile names and the configured directories;
  - `getFilename`, `getFrameCount`, `getRecordingFilename` and `getRecordingBasename` only return a field and have no model of their own;
  - the constructor does not set `frameCount` (it is left uninitialised in C++), and the model starts it at 0.

## Findings

Nothing was executed; each row is what the model proves about the code as written.

| source | as written | input that shows it | evidently intended | confidence | as-written member | corrected member |
|---|---|---|---|---|---|---|
| micro_strain/Windows/Code/C/Library/source/i3dmgx3_Utils.c:204-209 | the guard admits every error number from LAST_ERROR (-12) to 0 and indexes the 12-entry text table at -errornum | errornum = -12 reads entry 12, past the end of the table | only numbers whose entry exists index the table; others give "Undefined error" | not executed | I3dmgx3Utils.ExplainErrorAsWrittenOverruns | I3dmgx3Utils.ExplainError |
| micro_strain/Windows/Code/C/Library/source/i3dmgx3_Cmd.c:769-772 | the second EEPROM reply's checksum is compared with the checksum word taken from the first reply | two correctly sealed replies carrying different words (1 and 2) | each reply is checked against its own checksum word | not executed | I3dmgx3Cmd.EepromAsWrittenRejectsGoodSecondReply | I3dmgx3Cmd.EepromLongFromSealedReplies |
| Rlags_project/SEDI_Camera/src/tasks.c:1321-1341 | a repeat count up to REP_MAX = 99999 passes the check but is stored in a gushort | BeginLoop 70000 runs 4464 times | the loop runs its repeat count | not executed | Tasks.RepeatTruncated | Tasks.RepeatExact |
| Rlags_project/SEDI_Camera2/src/sx.c:913-916 | the minor firmware number ORs byte 1 into byte 0 without shifting it, so it is never above 255 | bytes 00 01 01 00 (version 1.256) give the same string as bytes 01 00 01 00 (version 1.1) | the minor number is byte 0 plus byte 1 shifted left by 8, as for the major number | not executed | Sx.FirmwareMinorLost | Sx.FirmwareVersion |
| rlags/SEDI_Camera/src/image.c:755-758 | the overlap's corners are cast to gushort before they are compared | a selection from column -10 to -1 on a 100 x 100 exposure is reported as overlapping | an overlap is reported only when a pixel lies in both | not executed | Image.IsInImageWraps | Image.IsInImageChecked |
| Rlags_project/SEDI_Camera/src/augcam.c:2068-2071 | DESAT closes its parenthesis after the sum, `MAX(a, MAX(b, c) + MIN(a, MAX(b, c))) / 2`, and its inner MIN is not the minimum of the three | bytes (100, 200, 0) give 150 while (0, 200, 100) give 100 | the midpoint of the brightest and the darkest byte, whatever their order | not executed | Augcam.DesatAsWrittenOrder | Augcam.DesatSymmetric |
| rlags/Sun_Camera/oaCapture-0.0.2-alpha/oacapture/camera.cc:450-455 | the capture thread's flag loop stops once the first flagged control has been sent (`0 == r`) and then drops the pending mark | controls 1 and 2 both flagged: only control 1 is sent | every flagged control is sent before the pending mark is dropped | not executed | Camera.CaptureStrandsSecondFlag | Camera.Camera.CaptureUpdates |
| rlags/downloaded_tars/oaCapture-0.0.2-alpha/oacapture/previewWidget.cc:436 | the vertical flip swaps rows while `y > imageSizeY / 2`, so the middle pair of an even height is never exchanged | a two-row frame is left as it is | row i ends up holding row height - 1 - i | not executed | PreviewWidget.FlipYTwoRows | PreviewWidget.FlipYFixedMirrors |
| rlags/downloaded_tars/oaCapture-0.0.2-alpha/oacapture/previewWidget.cc:452-465 | the 16-bit whole-frame flip steps p2 back by 2 after it has moved on by 1, one byte short of a pixel | four pixels 0 1 2 3 4 5 6 7 become 6 7 5 0 4 2 3 1 | reversed pixel order with both bytes kept: 6 7 4 5 2 3 0 1 | not executed | PreviewWidget.Flip16BothAsWritten | PreviewWidget.Flip16BothFixedReversesPixels |
| rlags/downloaded_tars/oaCapture-0.0.2-alpha/oacapture/previewWidget.cc:471 | the 16-bit horizontal flip starts row y at byte y * imageSizeX, half a row short | two rows of two pixels 0 1 2 3 4 5 6 7 become 2 3 4 5 0 1 6 7 | each row mirrored pixel by pixel: 2 3 0 1 6 7 4 5 | not executed | PreviewWidget.Flip16RowsAsWritten | PreviewWidget.Flip16RowsFixedReverse |
| Rlags_project/SEDI_Camera/src/video.c:332-335 | stopping flushes num_frames % nbf frames, or a whole half when that is 0 | stopping right after a start writes nbf zeroed frames; stopping on a half boundary writes nbf old frames again | only the frames stored in the current half are written, none when it is empty | not executed | Video.StopAppendsStale | Video.StopFixedKeepsFrames |
| Rlags_project/SEDI_Camera/src/video.c:866-872 | the frame offset is a guint, so the microsecond product wraps modulo 2^32 before it is stored in a gint | 40000 us a frame, 53688 frames in: the stamp comes out 2147 s before the first frame, with negative microseconds | the first stamp plus n increments, exactly | not executed | Video.FrameTimeWraps | Video.FrameTime |
| Rlags_project/SEDI_Camera/src/video.c:332-335 | the flush counts num_frames % nbf frames when the main loop serves it, not when the half filled | with nbf >= 2, one frame stored after a half fills and before the main loop flushes it: only the first frame of the full half is written | the whole full half is written, however late the flush | not executed | Video.LateFlushCutsHalf | Video.LateFlushFixedKeepsHalf |
| rlags/Sun_Camera/oaCapture-0.0.2-alpha/oacapture/outputHandler.cc:98-101 | "%M" is replaced by the month at line 98, so the replacement by the minutes at line 101 never finds it | the template "%M" gives the month | "%m" for the month and "%M" for the minutes, as in strftime | not executed | OutputHandler.MinutesTokenGivesMonth | OutputHandler.ShortsFixedMinutes |
| Rlags_project/SEDI_Camera/src/tasks.c:1336-1337 | every opening statement writes loop_check[++lc] without a bound check; lc goes down only in the scan at the end of the pass, and nothing bounds the number of BeginLoops, only their depth | 401 BeginLoop/EndLoop pairs pass the check and the last BeginLoop writes loop_check[400] of a 400-slot array | an opening statement with no slot left is reported as an error and writes nothing | not executed | Tasks.LoopCheckOverflows | Tasks.LoopCheck.PushChecked |
