// Telescope link: the Losmandy Gemini native-command framing and checksum,
// the LX200 RA/Dec reply checks, the status query, the motion commands and
// the running mean of guide-star positions.
//
// What goes over the serial line is bytes (C `gchar`s), modelled as bv8;
// command texts are built as strings and sent as the low byte of each
// character.

module Telescope {
  import opened Bytes

  const NUL: bv8 := 0
  const HASH: bv8 := 0x23

  /** The byte a character is sent as. */
  function Code(c: char): (v: bv8)
  {
    ((c as int) % 256) as bv8
  }

  /** The bytes of a text. */
  function Ascii(s: string): (b: seq<bv8>)
    ensures |b| == |s|
    ensures forall i :: 0 <= i < |s| ==> b[i] == Code(s[i])
  {
    if s == [] then [] else [Code(s[0])] + Ascii(s[1..])
  }

  // ---------------------------------------------------------------------
  // Gemini checksum

  /** The exclusive or of the bytes of s. */
  function XorOf(s: seq<bv8>): (v: bv8)
  {
    if s == [] then 0 else XorOf(s[..|s| - 1]) ^ s[|s| - 1]
  }

  /** The Gemini checksum of a command or reply text: the exclusive or of its
      bytes, cut to 7 bits and moved up by 0x40, so never NUL and never '#'. */
  function GeminiChecksum(s: seq<bv8>): (c: bv8)
    ensures 0x40 <= c <= 0xBF
  {
    ChecksumByte(XorOf(s))
  }

  /** The last step of chksum: keep 7 bits and add 0x40. */
  function ChecksumByte(x: bv8): (c: bv8)
    ensures 0x40 <= c <= 0xBF
  {
    (x & 0x7F) + 0x40
  }

  /** chksum: walks the C string from its first byte, folding in every byte
      up to and including the terminating NUL. */
  method Chksum(s: seq<bv8>) returns (c: bv8)
    requires NUL in s
    ensures c == GeminiChecksum(CStr(s, NUL))
  {
    var x := s[0];
    var i := 0;
    while s[i] != NUL
      invariant 0 <= i < |s| && NUL !in s[..i]
      invariant NUL in s[i..]
      invariant x == XorOf(s[..i + 1])
      decreases |s| - i
    {
      XorOfSnoc(s[..i + 1], s[i + 1]);
      assert s[..i + 2] == s[..i + 1] + [s[i + 1]];
      i := i + 1;
      x := x ^ s[i];
    }
    ChksumAtNul(s, i, x);
    c := ChecksumByte(x);
  }

  /** At the NUL the fold has taken in exactly the C string and the NUL. */
  lemma ChksumAtNul(s: seq<bv8>, i: nat, x: bv8)
    requires i < |s| && s[i] == NUL && NUL !in s[..i]
    requires x == XorOf(s[..i + 1])
    ensures ChecksumByte(x) == GeminiChecksum(CStr(s, NUL))
  {
    var t := CStr(s, NUL);
    CStrAtNul(s, NUL, i);
    assert s[..i + 1] == t + [NUL];
    XorOfSnoc(t, NUL);
    ZeroXor(XorOf(t));
    assert x == XorOf(t);
  }

  lemma ZeroXor(x: bv8)
    ensures x ^ 0 == x
  {
  }

  /** Appending one byte folds it in. */
  lemma XorOfSnoc(s: seq<bv8>, c: bv8)
    ensures XorOf(s + [c]) == XorOf(s) ^ c
  {
    assert (s + [c])[..|s|] == s;
  }

  /** XorOf distributes over concatenation. */
  lemma {:induction false} XorOfAppend(s: seq<bv8>, t: seq<bv8>)
    ensures XorOf(s + t) == XorOf(s) ^ XorOf(t)
    decreases |t|
  {
    if t == [] {
      assert s + t == s;
    } else {
      var t' := t[..|t| - 1];
      assert (s + t)[..|s + t| - 1] == s + t';
      XorOfAppend(s, t');
      XorAssoc(XorOf(s), XorOf(t'), t[|t| - 1]);
    }
  }

  lemma XorAssoc(a: bv8, b: bv8, c: bv8)
    ensures (a ^ b) ^ c == a ^ (b ^ c)
  {
  }

  /** Masking to 7 bits commutes with folding in a common value. */
  lemma MaskedXorCancels(k: bv8, a: bv8, b: bv8)
    ensures ((k ^ a) & 0x7F == (k ^ b) & 0x7F) <==> (a & 0x7F == b & 0x7F)
  {
  }

  /** Changing one byte in its low 7 bits always changes the checksum; a
      change in bit 7 alone never does. */
  lemma ChecksumDetectsLowBitChange(p: seq<bv8>, a: bv8, b: bv8, q: seq<bv8>)
    ensures (a & 0x7F != b & 0x7F) <==>
      GeminiChecksum(p + [a] + q) != GeminiChecksum(p + [b] + q)
  {
    var k := XorOf(p) ^ XorOf(q);
    XorOfMiddle(p, a, q);
    XorOfMiddle(p, b, q);
    MaskedXorCancels(k, a, b);
  }

  /** The fold of a text with one byte in the middle. */
  lemma XorOfMiddle(p: seq<bv8>, a: bv8, q: seq<bv8>)
    ensures XorOf(p + [a] + q) == (XorOf(p) ^ XorOf(q)) ^ a
  {
    XorOfAppend(p + [a], q);
    XorOfSnoc(p, a);
    XorReorder(XorOf(p), a, XorOf(q));
  }

  lemma XorReorder(p: bv8, a: bv8, q: bv8)
    ensures (p ^ a) ^ q == (p ^ q) ^ a
  {
  }

  // ---------------------------------------------------------------------
  // Gemini native commands

  const PEC_CURRENT_DATA: UShort := 511
  const CMD_SPEED_GUIDE: UShort := 150

  /** The text of a Gemini get request before its checksum: "<id:", and for
      the PEC data query (id 511) "<id:-n" with n the table index. */
  function GeminiGetBody(id: UShort, pecIndex: UShort): (s: string)
  {
    if id != PEC_CURRENT_DATA then "<" + FormatInt(id) + ":"
    else "<" + FormatInt(id) + ":-" + FormatInt(pecIndex)
  }

  /** The integer Gemini set commands: ">id:v" for a single value and
      ">id:a;b;c" for PEC data. (The guide speed, written with %.1f, is not
      part of this model.) */
  datatype SetValue = Single(v: int) | PecData(a: UShort, b: UShort, c: UShort)

  function GeminiSetBody(id: UShort, val: SetValue): (s: string)
  {
    match val
    case Single(v) => ">" + FormatInt(id) + ":" + FormatInt(v)
    case PecData(a, b, c) => ">" + FormatInt(id) + ":" + FormatInt(a) + ";" + FormatInt(b) + ";" + FormatInt(c)
  }

  /** A framed Gemini command: the text, its checksum byte and '#'. */
  function GeminiFrame(body: seq<bv8>): (f: seq<bv8>)
    ensures |f| == |body| + 2 && f[..|body|] == body && f[|f| - 1] == HASH
  {
    body + [GeminiChecksum(body), HASH]
  }

  /** What gemini_get writes: the request text, framed so that the unit's
      checksum test accepts it. */
  function GeminiGetCommand(id: UShort, pecIndex: UShort): (c: seq<bv8>)
    ensures FrameChecksumOk(c) && c[..|c| - 2] == Ascii(GeminiGetBody(id, pecIndex))
  {
    var g := Ascii(GeminiGetBody(id, pecIndex));
    assert GeminiFrame(g)[..|g|] == g;
    GeminiFrame(g)
  }

  /** What gemini_set writes: the set text, framed so that the unit's
      checksum test accepts it. */
  function GeminiSetCommand(id: UShort, val: SetValue): (c: seq<bv8>)
    ensures FrameChecksumOk(c) && c[..|c| - 2] == Ascii(GeminiSetBody(id, val))
  {
    var t := Ascii(GeminiSetBody(id, val));
    assert GeminiFrame(t)[..|t|] == t;
    GeminiFrame(t)
  }

  /** What the Gemini unit checks of a frame it receives. */
  predicate FrameChecksumOk(f: seq<bv8>)
  {
    |f| >= 2 && f[|f| - 1] == HASH && f[|f| - 2] == GeminiChecksum(f[..|f| - 2])
  }

  /** Every framed command passes the receiver's checksum check, and every
      frame that passes is the framing of its own text. */
  lemma FrameChecksumOkIffFramed(f: seq<bv8>)
    ensures FrameChecksumOk(f) <==> |f| >= 2 && f == GeminiFrame(f[..|f| - 2])
  {
    if |f| >= 2 {
      var n := |f| - 2;
      assert f == f[..n] + [f[n], f[n + 1]];
      if f == GeminiFrame(f[..n]) {
        assert f[n] == GeminiFrame(f[..n])[n];
      }
    }
  }

  // ---------------------------------------------------------------------
  // Gemini replies

  /** The index of the first '#' in s, if any. */
  function FirstHash(s: seq<bv8>): (r: Option<nat>)
    ensures r.Some? ==> r.value < |s| && s[r.value] == HASH && HASH !in s[..r.value]
    ensures r.None? ==> HASH !in s
  {
    if s == [] then None
    else if s[0] == HASH then Some(0)
    else
      match FirstHash(s[1..])
      case None => None
      case Some(i) => (assert s[1..][..i] == s[1..i + 1]; assert s[..i + 1] == [s[0]] + s[1..i + 1]; Some(i + 1))
  }

  /** The first '#' is the one with none before it. */
  lemma {:induction false} FirstHashAt(s: seq<bv8>, k: nat)
    requires k < |s| && s[k] == HASH && HASH !in s[..k]
    ensures FirstHash(s) == Some(k)
  {
    if k > 0 {
      assert s[0] == s[..k][0];
      assert s[1..][..k - 1] == s[1..k];
      assert HASH !in s[1..k] by {
        forall j | 0 <= j < k - 1
          ensures s[1..k][j] != HASH
        {
          assert s[1..k][j] == s[..k][j + 1];
        }
      }
      FirstHashAt(s[1..], k - 1);
    }
  }

  /** What gemini_get accepts from the 9-byte reply buffer: the C string
      before the checksum byte that precedes the first '#'. None when there
      is no '#', when '#' comes first, or when the checksum is wrong. */
  function GeminiReply(input: seq<bv8>): (r: Option<seq<bv8>>)
    requires |input| == 9
    ensures r.Some? ==> |r.value| <= 7 && HASH !in r.value && NUL !in r.value
  {
    match FirstHash(input)
    case None => None
    case Some(i) =>
      if i == 0 then None
      else
        var text := CStr(input[..i - 1], NUL);
        if input[i - 1] != GeminiChecksum(text) then None else Some(text)
  }

  /** A Gemini unit that answers with a framed text of up to 7 bytes (no
      '#', no NUL) has that text accepted, whatever follows. */
  lemma GeminiReplyOfFrame(text: seq<bv8>, rest: seq<bv8>)
    requires |text| <= 7 && HASH !in text && NUL !in text
    requires |GeminiFrame(text) + rest| == 9
    ensures GeminiReply(GeminiFrame(text) + rest) == Some(text)
  {
    var input := GeminiFrame(text) + rest;
    var n := |text|;
    assert input[n] == GeminiChecksum(text) && input[n + 1] == HASH;
    assert input[..n] == text;
    assert HASH !in input[..n + 1] by {
      assert input[..n + 1] == text + [GeminiChecksum(text)];
    }
    FirstHashAt(input, n + 1);
    CStrNoNul(text, NUL);
  }

  /** A reply whose checksum byte is damaged in its low 7 bits is refused. */
  lemma GeminiReplyRejectsBadChecksum(text: seq<bv8>, bad: bv8, rest: seq<bv8>)
    requires |text| <= 7 && HASH !in text && NUL !in text
    requires bad & 0x7F != GeminiChecksum(text) & 0x7F && bad != HASH
    requires |text| + 2 + |rest| == 9
    ensures GeminiReply(text + [bad, HASH] + rest).None?
  {
    var input := text + [bad, HASH] + rest;
    var n := |text|;
    assert input[..n] == text;
    assert HASH !in input[..n + 1] by {
      assert input[..n + 1] == text + [bad];
    }
    FirstHashAt(input, n + 1);
    CStrNoNul(text, NUL);
  }

  /** gemini_get's reply handling on its local buffer: find the terminating
      '#', reject a bare '#', overwrite the hash and the checksum with NULs
      and compare the checksum with that of the remaining C string. */
  method GeminiGetReply(reply: seq<bv8>) returns (ok: bool, text: seq<bv8>)
    requires |reply| == 9
    ensures ok <==> GeminiReply(reply).Some?
    ensures ok ==> text == GeminiReply(reply).value
  {
    var input := new bv8[9](k requires 0 <= k < 9 => reply[k]);
    assert input[..] == reply;
    var i := 0;
    while input[i] != HASH
      invariant 0 <= i < 9 && HASH !in input[..i]
      invariant input[..] == reply
      decreases 9 - i
    {
      if i == 8 {
        assert HASH !in input[..9] by {
          assert input[..9] == input[..8] + [input[8]];
        }
        assert input[..9] == input[..];
        return false, [];
      }
      assert input[..i + 1] == input[..i] + [input[i]];
      i := i + 1;
    }
    FirstHashAt(reply, i);
    if i == 0 {
      return false, [];
    }
    input[i] := NUL;
    var chk := input[i - 1];
    input[i - 1] := NUL;
    assert input[..] == reply[..i - 1] + [NUL] + input[i..];
    var c := Chksum(input[..]);
    CStrOfPrefix(reply[..i - 1], NUL, input[i..]);
    if chk != c {
      return false, [];
    }
    ok, text := true, CStr(input[..], NUL);
  }

  // ---------------------------------------------------------------------
  // Status query

  /** Gemini status results (enum GeminiQuery); TEL_START_WAIT is -1 in an
      unsigned int. */
  const TEL_START_WAIT: nat := 0xFFFF_FFFF
  const TEL_UNKNOWN: nat := 64

  /** telescope_query_status: the two characters the unit answers to ACK
      decide the result; "G#" returns the inquiry flags, which the failed
      inquiry leaves at 0. */
  function QueryStatus(buf: string, inquiry: Option<nat>): (r: nat)
    requires |buf| >= 2
    ensures buf[..2] == "b#" ==> r == TEL_START_WAIT
    ensures buf[..2] == "G#" ==> r == (if inquiry.Some? then inquiry.value else 0)
    ensures buf[..2] != "b#" && buf[..2] != "G#" ==> r == TEL_UNKNOWN
  {
    if buf[0] == 'b' && buf[1] == '#' then TEL_START_WAIT
    else if buf[0] == 'G' && buf[1] == '#' then (if inquiry.Some? then inquiry.value else 0)
    else TEL_UNKNOWN
  }

  // ---------------------------------------------------------------------
  // Motion commands

  const TM_EAST: bv8 := 1
  const TM_WEST: bv8 := 2
  const TM_NORTH: bv8 := 4
  const TM_SOUTH: bv8 := 8
  const TM_ALL: bv8 := 15

  /** The axis letter of the first direction bit set, east first. */
  function AxisLetter(direction: bv8): (c: Option<char>)
    ensures c.Some? <==> direction & TM_ALL != 0
  {
    if direction & TM_EAST != 0 then Some('e')
    else if direction & TM_WEST != 0 then Some('w')
    else if direction & TM_NORTH != 0 then Some('n')
    else if direction & TM_SOUTH != 0 then Some('s')
    else None
  }

  /** telescope_move_start: the bytes written, ":M?#" for the first
      direction set; None where the code would write from a NULL command. */
  function MoveStart(direction: bv8): (w: Option<string>)
    ensures w.Some? <==> direction & TM_ALL != 0
    ensures w.Some? ==> |w.value| == 4 && w.value[..2] == ":M" && w.value[3] == '#'
  {
    match AxisLetter(direction)
    case None => None
    case Some(a) => Some(":M" + [a] + "#")
  }

  /** telescope_move_stop: TM_ALL writes the 3 bytes ":Q#"; any other
      direction with a direction bit set writes the 4 bytes ":Q?#". */
  function MoveStop(direction: bv8): (w: Option<string>)
    ensures direction == TM_ALL ==> w == Some(":Q#")
    ensures direction != TM_ALL ==> (w.Some? <==> direction & TM_ALL != 0)
    ensures direction != TM_ALL && w.Some? ==> |w.value| == 4 && w.value[..2] == ":Q" && w.value[3] == '#'
  {
    if direction == TM_ALL then Some(":Q#")
    else
      match AxisLetter(direction)
      case None => None
      case Some(a) => Some(":Q" + [a] + "#")
  }

  /** Stopping a single direction addresses the axis that starting it
      moved: the two commands differ only in 'M' against 'Q'. */
  lemma StopMatchesStart(direction: bv8)
    requires direction != TM_ALL && direction & TM_ALL != 0
    ensures MoveStart(direction).Some? && MoveStop(direction).Some?
    ensures MoveStop(direction).value == MoveStart(direction).value[1 := 'Q']
  {
  }

  // ---------------------------------------------------------------------
  // RA and Dec replies

  /** An RA reply "HH:MM:SS": ':' at 2 and 5, digits elsewhere in 0..7. */
  predicate RaOk(s: string)
    requires |s| >= 8
  {
    forall i :: 0 <= i < 8 ==> RaCharOk(s[i], i)
  }

  predicate RaCharOk(c: char, i: int)
  {
    if i == 2 || i == 5 then c == ':' else IsDigit(c)
  }

  /** A Dec reply "sDD*MM:SS": a sign, ':' or '*' at 3, ':' at 6, digits
      elsewhere in 0..8. */
  predicate DecOk(s: string)
    requires |s| >= 9
  {
    forall i :: 0 <= i < 9 ==> DecCharOk(s[i], i)
  }

  predicate DecCharOk(c: char, i: int)
  {
    if i == 0 then c == '+' || c == '-'
    else if i == 3 then c == ':' || c == '*'
    else if i == 6 then c == ':'
    else IsDigit(c)
  }

  /** The RA text the caller ends up with, and whether the reply was good:
      the reply itself when good, "00:00:00" otherwise. Always a good RA. */
  function CheckedRa(s: string): (r: (bool, string))
    requires |s| >= 8
    ensures |r.1| == 8 && RaOk(r.1)
    ensures r.0 <==> RaOk(s)
    ensures r.0 ==> r.1 == s[..8]
    ensures !r.0 ==> r.1 == "00:00:00"
  {
    if RaOk(s) then (true, s[..8]) else (false, "00:00:00")
  }

  /** The Dec text: the reply with '*' turned into ':' when good,
      "+00:00:00" otherwise. Always a good Dec with ':' at 3. */
  function CheckedDec(s: string): (r: (bool, string))
    requires |s| >= 9
    ensures |r.1| == 9 && DecOk(r.1) && r.1[3] == ':'
    ensures r.0 <==> DecOk(s)
    ensures r.0 ==> r.1 == s[..9][3 := ':']
    ensures !r.0 ==> r.1 == "+00:00:00"
  {
    if DecOk(s) then (true, s[..9][3 := ':']) else (false, "+00:00:00")
  }

  /** sprintf of a constant text into a buffer: the text and its NUL. */
  method PutText(buf: array<char>, text: string)
    requires |text| < buf.Length
    modifies buf
    ensures buf[..|text|] == text && buf[|text|] == '\0'
    ensures buf[|text| + 1..] == old(buf[|text| + 1..])
  {
    var i := 0;
    while i < |text|
      invariant 0 <= i <= |text|
      invariant buf[..i] == text[..i]
      invariant buf[|text|..] == old(buf[|text|..])
    {
      buf[i] := text[i];
      assert buf[..i + 1] == buf[..i] + [text[i]];
      assert text[..i + 1] == text[..i] + [text[i]];
      i := i + 1;
    }
    buf[|text|] := '\0';
    assert buf[|text| + 1..] == old(buf[|text|..])[1..];
  }

  /** The RA check in get_RA_Dec on the 9-byte reply buffer: the hash is
      overwritten by NUL, positions 0..7 are checked one by one, and a bad
      reply is replaced. */
  method CheckRaBuffer(sRA: array<char>) returns (ok: bool)
    requires sRA.Length >= 9
    modifies sRA
    ensures (ok, sRA[..8]) == CheckedRa(old(sRA[..]))
    ensures sRA[8] == '\0' && sRA[9..] == old(sRA[9..])
  {
    sRA[8] := '\0';
    ok := true;
    var i := 0;
    while i < 8
      invariant 0 <= i <= 8
      invariant sRA[..8] == old(sRA[..8]) && sRA[8] == '\0' && sRA[9..] == old(sRA[9..])
      invariant ok <==> forall j :: 0 <= j < i ==> RaCharOk(sRA[j], j)
    {
      if i == 2 || i == 5 {
        if sRA[i] != ':' {
          ok := false;
        }
      } else {
        if !IsDigit(sRA[i]) {
          ok := false;
        }
      }
      i := i + 1;
    }
    assert RaOk(old(sRA[..])) <==> RaOk(sRA[..8]);
    if !ok {
      PutText(sRA, "00:00:00");
    }
  }

  /** The Dec check in get_RA_Dec on the 10-byte reply buffer. */
  method CheckDecBuffer(sDec: array<char>) returns (ok: bool)
    requires sDec.Length >= 10
    modifies sDec
    ensures (ok, sDec[..9]) == CheckedDec(old(sDec[..]))
    ensures sDec[9] == '\0' && sDec[10..] == old(sDec[10..])
  {
    sDec[9] := '\0';
    ok := true;
    var i := 0;
    while i < 9
      invariant 0 <= i <= 9
      invariant sDec[..9] == old(sDec[..9]) && sDec[9] == '\0' && sDec[10..] == old(sDec[10..])
      invariant ok <==> forall j :: 0 <= j < i ==> DecCharOk(sDec[j], j)
    {
      if i == 0 {
        if sDec[i] != '+' && sDec[i] != '-' {
          ok := false;
        }
      } else if i == 3 {
        if sDec[i] != ':' && sDec[i] != '*' {
          ok := false;
        }
      } else if i == 6 {
        if sDec[i] != ':' {
          ok := false;
        }
      } else {
        if !IsDigit(sDec[i]) {
          ok := false;
        }
      }
      i := i + 1;
    }
    assert DecOk(old(sDec[..])) <==> DecOk(sDec[..9]);
    if ok {
      sDec[3] := ':';
      assert sDec[..9] == old(sDec[..])[..9][3 := ':'];
    } else {
      PutText(sDec, "+00:00:00");
    }
  }

  // ---------------------------------------------------------------------
  // Running mean of guide-star positions

  /** The sum of pos[j] / size over the buffer, as mean_pos accumulates it. */
  function MeanOf(s: seq<real>, size: nat): (m: real)
    requires size > 0
  {
    if s == [] then 0.0 else MeanOf(s[..|s| - 1], size) + s[|s| - 1] / size as real
  }

  /** A buffer holding the same value everywhere has that value as its mean. */
  lemma {:induction false} MeanOfConstant(s: seq<real>, v: real)
    requires |s| > 0
    requires forall j :: 0 <= j < |s| ==> s[j] == v
    ensures MeanOf(s, |s|) == v
  {
    MeanOfConstantPrefix(s, v, |s|);
  }

  lemma {:induction false} MeanOfConstantPrefix(s: seq<real>, v: real, size: nat)
    requires size > 0
    requires forall j :: 0 <= j < |s| ==> s[j] == v
    ensures MeanOf(s, size) == (|s| as real) * v / size as real
    decreases |s|
  {
    if s != [] {
      MeanOfConstantPrefix(s[..|s| - 1], v, size);
    }
  }

  /** The zero-fill mean_pos does on reset. */
  method ZeroFill(pos: array<real>)
    modifies pos
    ensures pos[..] == seq(pos.Length, _ => 0.0)
  {
    var i := 0;
    while i < pos.Length
      invariant 0 <= i <= pos.Length
      invariant forall j :: 0 <= j < i ==> pos[j] == 0.0
    {
      pos[i] := 0.0;
      i := i + 1;
    }
  }

  /** The loop that averages the buffer. */
  method BufferMean(pos: array<real>) returns (mean: real)
    requires pos.Length > 0
    ensures mean == MeanOf(pos[..], pos.Length)
  {
    var size := pos.Length;
    mean := 0.0;
    var j := 0;
    while j < size
      invariant 0 <= j <= size
      invariant mean == MeanOf(pos[..j], size)
    {
      assert pos[..j + 1][..j] == pos[..j];
      mean := mean + pos[j] / size as real;
      j := j + 1;
    }
    assert pos[..size] == pos[..];
  }

  /** The two directions mean_pos keeps separate positions for. */
  datatype MotionDirection = H | V

  /** mean_pos: the static write cursors for the horizontal and vertical
      position buffers. */
  class MeanPos {
    var hI: nat
    var vI: nat

    function Cursor(dirn: MotionDirection): (n: nat)
      reads this
    {
      if dirn == H then hI else vI
    }

    constructor ()
      ensures hI == 0 && vI == 0
    {
      hI := 0;
      vI := 0;
    }

    /** Store val at the direction's cursor (after zero-filling the buffer
        and restarting at 0 when reset is asked for), advance the cursor with
        wrap-around at size, and return the mean of the buffer. */
    method Update(reset: bool, pos: array<real>, dirn: MotionDirection, val: real)
      returns (resetOut: bool, mean: real)
      requires pos.Length > 0
      requires reset || Cursor(dirn) < pos.Length
      modifies this, pos
      ensures !resetOut
      ensures var i := (if reset then 0 else old(Cursor(dirn)));
        pos[..] == (if reset then seq(pos.Length, _ => 0.0) else old(pos[..]))[i := val]
        && Cursor(dirn) == (if i + 1 == pos.Length then 0 else i + 1)
      ensures Cursor(dirn) < pos.Length
      ensures dirn == H ==> vI == old(vI)
      ensures dirn == V ==> hI == old(hI)
      ensures mean == MeanOf(pos[..], pos.Length)
    {
      var i := if dirn == H then hI else vI;
      if reset {
        ZeroFill(pos);
        i := 0;
      }
      pos[i] := val;
      i := i + 1;
      if i == pos.Length {
        i := 0;
      }
      mean := BufferMean(pos);
      if dirn == H {
        hI := i;
      } else {
        vI := i;
      }
      resetOut := false;
    }
  }
}
