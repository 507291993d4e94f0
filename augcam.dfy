// The autoguider camera of the SEDI camera program
// (Rlags_project/SEDI_Camera/src/augcam.c): the two-slot FIFO in which V4L
// frames wait to be processed, the choice of how the bytes of a frame are
// decoded, the integer part of the conversion to greyscale (dark
// averaging, dark subtraction and the background cut), the end of a dark
// capture and the setting of the image size.

module Augcam {
  import opened Bytes
  import Image
  import Sx
  import Bits

  // ---------------------------------------------------------------------
  // The V4L frame FIFO

  /** The FIFO of vid_dat.fifo: `alloc` holds two frame-sized locations, at
      0 and at `size`; buffer[0] and buffer[1] point at one of them or are
      NULL (None). buffer[0] is the older frame. */
  class Fifo {
    const size: nat
    const alloc: array<Byte>
    var buffer0: Option<nat>
    var buffer1: Option<nat>
    var framesTot: nat
    var framesDrop: nat

    /** Slot 1 is only used while slot 0 is, each slot points at one of
        the two locations, and two full slots point at different ones. */
    ghost predicate Valid()
      reads this
    {
      size > 0 && alloc.Length == 2 * size &&
      (buffer0.None? ==> buffer1.None?) &&
      (buffer0.Some? ==> buffer0.value == 0 || buffer0.value == size) &&
      (buffer1.Some? ==> buffer1.value == 0 || buffer1.value == size) &&
      (buffer0.Some? && buffer1.Some? ==> buffer0.value != buffer1.value)
    }

    /** The frame stored at location off. */
    ghost function Frame(off: nat): (s: seq<Byte>)
      reads this, alloc
      requires Valid() && (off == 0 || off == size)
    {
      alloc[off .. off + size]
    }

    /** The frames waiting, oldest first. */
    ghost function Queue(): (q: seq<seq<Byte>>)
      reads this, alloc
      requires Valid()
      ensures |q| <= 2
    {
      (if buffer0.Some? then [Frame(buffer0.value)] else []) +
      (if buffer1.Some? then [Frame(buffer1.value)] else [])
    }

    constructor (size: nat)
      requires size > 0
      ensures Valid() && fresh(alloc) && this.size == size
      ensures buffer0 == None && buffer1 == None && framesTot == 0 && framesDrop == 0
    {
      this.size := size;
      alloc := new Byte[2 * size];
      buffer0 := None;
      buffer1 := None;
      framesTot := 0;
      framesDrop := 0;
    }

    /** The memcpy of a dequeued frame to location dest. */
    method CopyTo(dest: nat, frame: seq<Byte>)
      requires Valid() && (dest == 0 || dest == size) && |frame| == size
      modifies alloc
      ensures alloc[dest .. dest + size] == frame
      ensures forall p :: 0 <= p < alloc.Length && !(dest <= p < dest + size) ==> alloc[p] == old(alloc[p])
    {
      var j := 0;
      while j < size
        invariant 0 <= j <= size
        invariant forall p :: dest <= p < dest + j ==> alloc[p] == frame[p - dest]
        invariant forall p :: 0 <= p < alloc.Length && !(dest <= p < dest + j) ==> alloc[p] == old(alloc[p])
      {
        alloc[dest + j] := frame[j];
        j := j + 1;
      }
    }

    /** The FIFO part of augcam_grab_v4l_buffer: the frame goes to slot 0
        when it is empty, else to slot 1 at the location slot 0 does not
        use; with both slots full it is dropped and counted. */
    method Grab(frame: seq<Byte>)
      requires Valid() && |frame| == size
      modifies this, alloc
      ensures Valid()
      ensures old(buffer0).None? ==> buffer0 == Some(0) && buffer1 == None
      ensures old(buffer0).Some? && old(buffer1).None? ==>
        buffer0 == old(buffer0) && buffer1 == Some(size - old(buffer0).value)
      ensures old(buffer1).Some? ==> buffer0 == old(buffer0) && buffer1 == old(buffer1) && alloc[..] == old(alloc[..])
      ensures |old(Queue())| < 2 ==> Queue() == old(Queue()) + [frame]
      ensures |old(Queue())| == 2 ==> Queue() == old(Queue())
      ensures framesTot == old(framesTot) + (if |old(Queue())| < 2 then 1 else 0)
      ensures framesDrop == old(framesDrop) + (if |old(Queue())| < 2 then 0 else 1)
    {
      var pos: int := -1;
      var dest: nat := 0;
      if buffer0.None? {
        pos := 0;
        dest := 0;
      } else if buffer1.None? {
        pos := 1;
        if buffer0.value == 0 {
          dest := size;
        } else {
          dest := 0;
        }
      }
      if pos >= 0 {
        ghost var kept := if buffer0.Some? then Frame(buffer0.value) else [];
        CopyTo(dest, frame);
        if pos == 0 {
          buffer0 := Some(dest);
        } else {
          assert Frame(buffer0.value) == kept;
          buffer1 := Some(dest);
        }
        framesTot := framesTot + 1;
      } else {
        framesDrop := framesDrop + 1;
      }
    }

    /** augcam_image_ready for V4L: a frame is waiting. */
    method ImageReady() returns (ready: bool)
      requires Valid()
      ensures ready <==> |Queue()| > 0
    {
      ready := buffer0 != None;
    }

    /** augcam_process_image for V4L takes its frame (r083) from
        buffer[0]: the oldest frame waiting. */
    method Oldest() returns (r083: Option<nat>)
      requires Valid()
      ensures r083.Some? <==> |Queue()| > 0
      ensures r083.Some? ==> (r083.value == 0 || r083.value == size) && Frame(r083.value) == Queue()[0]
    {
      r083 := buffer0;
    }

    /** The release at the end of augcam_process_image: buffer[1] moves
        into buffer[0] and buffer[1] becomes NULL. */
    method Release()
      requires Valid()
      modifies this
      ensures Valid() && buffer0 == old(buffer1) && buffer1 == None
      ensures Queue() == if |old(Queue())| == 0 then [] else old(Queue())[1..]
      ensures framesTot == old(framesTot) && framesDrop == old(framesDrop)
    {
      buffer0 := buffer1;
      buffer1 := None;
    }
  }

  // ---------------------------------------------------------------------
  // initialise_image_decoding

  /** The V4L pixel formats (four-character codes) the decoder knows. */
  datatype Pixfmt = Y10 | Y12 | Y16 | GREY | Y8 | Y800 | YUV420 | YVU420
                  | YUYV | YVYU | YUY2 | UYVY | RGB24 | BGR24 | Unknown

  /** VIDBUF_GREY1, VIDBUF_GREY2 and VIDBUF_COL3. */
  datatype BufType = Grey1 | Grey2 | Col3

  /** How a frame is decoded: the buffer type, the bytes from one pixel to
      the next (byte_incr) and where the first pixel starts (byte_offset). */
  datatype Decoding = Decoding(kind: BufType, incr: nat, offset: nat)

  /** The bytes of a pixel that are read for a buffer type. */
  function Width(t: BufType): (n: nat)
  {
    match t
    case Grey1 => 1
    case Grey2 => 2
    case Col3 => 3
  }

  /** initialise_image_decoding: the bytes read for a pixel lie in its own
      incr bytes, so no two pixels share a byte; only UYVY starts at the
      second byte; 10- to 16-bit grey takes two bytes and RGB/BGR three. */
  function InitialiseImageDecoding(f: Pixfmt): (d: Decoding)
    ensures 1 <= d.incr <= 3 && d.offset + Width(d.kind) <= d.incr
    ensures d.offset == (if f == UYVY then 1 else 0)
    ensures d.kind == Grey2 <==> f == Y10 || f == Y12 || f == Y16
    ensures d.kind == Col3 <==> f == RGB24 || f == BGR24
    ensures d.incr == 2 <==> f in {Y10, Y12, Y16, YUYV, YVYU, YUY2, UYVY}
  {
    match f
    case Y10 | Y12 | Y16 => Decoding(Grey2, 2, 0)
    case GREY | Y8 | Y800 => Decoding(Grey1, 1, 0)
    case YUV420 | YVU420 => Decoding(Grey1, 1, 0)
    case YUYV | YVYU | YUY2 => Decoding(Grey1, 2, 0)
    case UYVY => Decoding(Grey1, 2, 1)
    case RGB24 | BGR24 => Decoding(Col3, 3, 0)
    case Unknown => Decoding(Grey1, 1, 0)
  }

  /** Where pixel i starts in r083 (iptr after i increments). */
  function Offset(d: Decoding, i: nat): (n: nat)
  {
    d.offset + i * d.incr
  }

  /** The bytes read for pixel i of an n-pixel frame lie in the first
      n * incr bytes. */
  lemma OffsetFits(d: Decoding, i: nat, n: nat)
    requires d.offset + Width(d.kind) <= d.incr && i < n
    ensures Offset(d, i) + Width(d.kind) <= n * d.incr
  {
    MulMono(i + 1, n, d.incr);
    NextRow(i, d.incr);
  }

  // ---------------------------------------------------------------------
  // convert_to_grey: one pixel

  /** enum HWDevice. */
  datatype Device = NoDev | Qsi | Sx | SxGh | OtherDev | Unicap | V4l | Internal

  /** enum GreyScale: how a colour pixel becomes grey. */
  datatype GreyScale = Lumin | Desat | Maxim | Mono

  predicate IsVideo(dev: Device) { dev == Unicap || dev == V4l }
  predicate IsStarlight(dev: Device) { dev == Sx || dev == SxGh }

  /** The settings convert_to_grey reads: the device, the V4L pixel format,
      the greyscale conversion, the background cut-off (imdisp.black),
      whether the display gamma is essentially 1 and, for Starlight
      Xpress cameras, bitspp - 8. */
  datatype Settings = Settings(device: Device, fmt: Pixfmt, grey: GreyScale, black: UShort,
                               gammaOne: bool, shift: nat)

  function Max3(a: int, b: int, c: int): (m: int)
    ensures m >= a && m >= b && m >= c && (m == a || m == b || m == c)
  {
    Image.Max(a, Image.Max(b, c))
  }

  function Min3(a: int, b: int, c: int): (m: int)
    ensures m <= a && m <= b && m <= c && (m == a || m == b || m == c)
  {
    Image.Min(a, Image.Min(b, c))
  }

  /** LUMIN: a weighted sum of the three bytes, truncated to an integer;
      the byte weighted 0.11 is the red one for RGB24 and for BGR24. */
  function Lumin(rgb: bool, p0: Byte, p1: Byte, p2: Byte): (v: int)
    ensures 0 <= v <= 255
  {
    var (red, blue) := if rgb then (p0, p2) else (p2, p0);
    (0.11 * red as real + 0.59 * p1 as real + 0.30 * blue as real).Floor
  }

  /** DESAT as written: the closing parenthesis of the first MAX is placed
      after the MIN, so half of MAX(a, MAX(b, c) + MIN(a, MAX(b, c))) is
      taken. It stays between the darkest and brightest byte. */
  function DesatAsWritten(a: Byte, b: Byte, c: Byte): (v: int)
    ensures Min3(a, b, c) <= v <= Max3(a, b, c)
  {
    var m := Image.Max(b, c);
    Image.Max(a, m + Image.Min(a, m)) / 2
  }

  /** The grey value of DESAT as written depends on which byte is which:
      the same three levels in another order give another grey. */
  lemma DesatAsWrittenOrder()
    ensures DesatAsWritten(100, 200, 0) == 150
    ensures DesatAsWritten(0, 200, 100) == 100
  {
  }

  /** Desaturation: the midpoint of the brightest and the darkest byte,
      rounded down. */
  function Desat(a: Byte, b: Byte, c: Byte): (v: int)
    ensures 2 * v <= Max3(a, b, c) + Min3(a, b, c) < 2 * v + 2
    ensures Min3(a, b, c) <= v <= Max3(a, b, c)
  {
    (Max3(a, b, c) + Min3(a, b, c)) / 2
  }

  /** Desat gives the same grey for the bytes in any order (the two
      transpositions generate every permutation). */
  lemma DesatSymmetric(a: Byte, b: Byte, c: Byte)
    ensures Desat(a, b, c) == Desat(b, a, c) == Desat(a, c, b)
  {
  }

  /** The value read for pixel i of an n-pixel frame, before any
      correction. prev is the value the previous pixel ended with (0 for
      the first): val is not assigned for MONO colour data, nor for a
      device that is neither a video device nor a Starlight Xpress one. */
  function Raw(s: Settings, r083: seq<Byte>, r161: seq<UShort>, n: nat, i: nat, prev: int): (v: int)
    requires i < n
    requires IsVideo(s.device) ==> n * InitialiseImageDecoding(s.fmt).incr <= |r083|
    requires IsStarlight(s.device) ==> n <= |r161|
    ensures 0 <= prev < 0x1_0000 ==> 0 <= v < 0x1_0000
    ensures IsVideo(s.device) && InitialiseImageDecoding(s.fmt).kind == Grey1 ==>
      v == r083[Offset(InitialiseImageDecoding(s.fmt), i)]
    ensures IsStarlight(s.device) ==> v == r161[i]
  {
    var d := InitialiseImageDecoding(s.fmt);
    if IsVideo(s.device) then
      OffsetFits(d, i, n);
      var p := Offset(d, i);
      match d.kind
      case Grey1 => r083[p]
      case Grey2 => r083[p + 1] * 256 + r083[p]
      case Col3 =>
        match s.grey
        case Lumin => Lumin(s.fmt == RGB24, r083[p], r083[p + 1], r083[p + 2])
        case Desat => Desat(r083[p], r083[p + 1], r083[p + 2])
        case Maxim => Max3(r083[p], r083[p + 1], r083[p + 2])
        case Mono => prev
    else if IsStarlight(s.device) then r161[i]
    else prev
  }

  /** The dark frame entry after a dark exposure v is averaged into the
      ndark exposures already in it: it lies between the old entry and v,
      so it still fits a gushort. */
  function DarkAverage(dk: UShort, ndark: UShort, v: int): (a: int)
    requires v >= 0
    ensures Image.Min(dk, v) <= a <= Image.Max(dk, v)
  {
    DarkAverageBetween(dk, ndark, v);
    (dk * ndark + v) / (ndark + 1)
  }

  lemma DarkAverageBetween(dk: nat, n: nat, v: nat)
    ensures Image.Min(dk, v) <= (dk * n + v) / (n + 1) <= Image.Max(dk, v)
  {
    var lo, hi := Image.Min(dk, v), Image.Max(dk, v);
    var c := dk * n + v;
    MulMono(lo, dk, n);
    MulMono(dk, hi, n);
    NextRow(n, lo);
    NextRow(n, hi);
    assert lo * (n + 1) <= c <= hi * (n + 1);
    DivMono(lo * (n + 1), c, n + 1);
    DivMono(c, hi * (n + 1), n + 1);
    BlockDiv(lo, n + 1, lo * (n + 1));
    BlockDiv(hi, n + 1, hi * (n + 1));
  }

  /** The dark subtraction (when dark.Subtract) followed by the background
      cut, each clamped at 0: together one subtraction clamped at 0, which
      never raises a pixel. */
  function Corrected(subtract: bool, black: UShort, v: int, dk: UShort): (c: int)
    ensures c == Image.Max(v - (if subtract then dk else 0) - black, 0)
    ensures v >= 0 ==> 0 <= c <= v
  {
    var w := if subtract then Image.Max(v - dk, 0) else v;
    Image.Max(w - black, 0)
  }

  /** The byte shown for a pixel of value val (stored through a guchar):
      the value itself for V4L and Unicap, val >> (bitspp - 8) for a
      Starlight Xpress camera when gamma is 1, else the gamma curve. */
  function Shown(s: Settings, val: int, curve: int -> Byte): (b: Byte)
    requires IsVideo(s.device) || IsStarlight(s.device)
    requires val >= 0
    ensures IsVideo(s.device) ==> b == val % 256
    ensures IsStarlight(s.device) && s.gammaOne && s.shift == 8 && val < 0x1_0000 ==> b == val / 256
  {
    if IsVideo(s.device) then val % 256
    else if s.gammaOne then (val / Bits.Pow2(s.shift)) % 256
    else curve(val)
  }

  // ---------------------------------------------------------------------
  // convert_to_grey: the frame

  /** What the dark-frame file fpd holds: the resolution the dark frame was
      taken at, the number of exposures averaged into it, and as many
      entries of the frame as the file has. */
  datatype DarkFile = DarkFile(hPix: UShort, vPix: UShort, ndark: UShort, frame: seq<UShort>)

  /** The pixel count h_pix * v_pix of an image. */
  function Pixels(hPix: UShort, vPix: UShort): (n: nat)
  {
    hPix * vPix
  }

  /** augcam_read_dark_frame for an hPix x vPix image: the dark frame and
      ndark after reading the file. A file taken at another resolution is
      flushed, leaving ndark 0 and the frame zeroed; otherwise ndark is the
      file's and each entry is the file's where the file has one (a short
      read leaves the rest as they were). Entries past the image are never
      touched. */
  function DarkRead(f: DarkFile, hPix: UShort, vPix: UShort, dk: seq<UShort>, ndark: UShort): (r: (seq<UShort>, UShort))
    requires Pixels(hPix, vPix) <= |dk|
    ensures |r.0| == |dk|
    ensures (f.hPix != hPix || f.vPix != vPix) ==>
      r.1 == 0 && forall i :: 0 <= i < Pixels(hPix, vPix) ==> r.0[i] == 0
    ensures (f.hPix == hPix && f.vPix == vPix) ==>
      r.1 == f.ndark && forall i :: 0 <= i < Pixels(hPix, vPix) ==> r.0[i] == if i < |f.frame| then f.frame[i] else dk[i]
    ensures forall i :: Pixels(hPix, vPix) <= i < |dk| ==> r.0[i] == dk[i]
  {
    var n := Pixels(hPix, vPix);
    if f.hPix != hPix || f.vPix != vPix then (seq(n, _ => 0) + dk[n..], 0)
    else
      var m := if |f.frame| < n then |f.frame| else n;
      (f.frame[..m] + dk[m..], f.ndark)
  }

  /** augcam_flush_dark_frame: the file rewritten from its start with the
      current resolution, no exposures and a zero frame. */
  function DarkFlushed(f: DarkFile, hPix: UShort, vPix: UShort): (f': DarkFile)
    ensures f'.hPix == hPix && f'.vPix == vPix && f'.ndark == 0
    ensures |f'.frame| == if |f.frame| > Pixels(hPix, vPix) then |f.frame| else Pixels(hPix, vPix)
    ensures forall i :: 0 <= i < Pixels(hPix, vPix) ==> f'.frame[i] == 0
    ensures forall i :: Pixels(hPix, vPix) <= i < |f.frame| ==> f'.frame[i] == f.frame[i]
  {
    var n := Pixels(hPix, vPix);
    DarkFile(hPix, vPix, 0, seq(n, _ => 0) + (if |f.frame| > n then f.frame[n..] else []))
  }

  /** augcam_write_dark_frame: the file rewritten from its start with the
      current resolution, ndark and the image's part of the dark frame;
      whatever the file held past it stays. */
  function DarkWritten(f: DarkFile, hPix: UShort, vPix: UShort, ndark: UShort, dk: seq<UShort>): (f': DarkFile)
    requires Pixels(hPix, vPix) <= |dk|
    ensures f'.hPix == hPix && f'.vPix == vPix && f'.ndark == ndark
    ensures |f'.frame| == if |f.frame| > Pixels(hPix, vPix) then |f.frame| else Pixels(hPix, vPix)
    ensures forall i :: 0 <= i < Pixels(hPix, vPix) ==> f'.frame[i] == dk[i]
    ensures forall i :: Pixels(hPix, vPix) <= i < |f.frame| ==> f'.frame[i] == f.frame[i]
  {
    var n := Pixels(hPix, vPix);
    DarkFile(hPix, vPix, ndark, dk[..n] + (if |f.frame| > n then f.frame[n..] else []))
  }

  /** A written file reads back as the dark frame and ndark it was written
      from, whatever ndark the reader held: the next capturing frame goes
      on from the state this one left. */
  lemma WrittenReadsBack(f: DarkFile, hPix: UShort, vPix: UShort, ndark: UShort, dk: seq<UShort>, other: UShort)
    requires Pixels(hPix, vPix) <= |dk|
    ensures DarkRead(DarkWritten(f, hPix, vPix, ndark, dk), hPix, vPix, dk, other) == (dk, ndark)
  {
    var r := DarkRead(DarkWritten(f, hPix, vPix, ndark, dk), hPix, vPix, dk, other);
    assert forall i :: 0 <= i < |dk| ==> r.0[i] == dk[i];
    assert r.0 == dk;
  }

  /** A write after a flush leaves the file a write alone would: the flush
      keeps the file's length and what lies past the image. */
  lemma WrittenAfterFlush(f: DarkFile, hPix: UShort, vPix: UShort, ndark: UShort, dk: seq<UShort>)
    requires Pixels(hPix, vPix) <= |dk|
    ensures DarkWritten(DarkFlushed(f, hPix, vPix), hPix, vPix, ndark, dk) == DarkWritten(f, hPix, vPix, ndark, dk)
  {
    var a := DarkWritten(DarkFlushed(f, hPix, vPix), hPix, vPix, ndark, dk);
    var b := DarkWritten(f, hPix, vPix, ndark, dk);
    assert a.frame == b.frame;
  }

  /** Reading the file again changes nothing: the dark frame read is the
      file's whatever the frame held before. */
  lemma DarkReadIdempotent(f: DarkFile, hPix: UShort, vPix: UShort, dk: seq<UShort>, ndark: UShort, ndark': UShort)
    requires Pixels(hPix, vPix) <= |dk|
    ensures var r := DarkRead(f, hPix, vPix, dk, ndark); DarkRead(f, hPix, vPix, r.0, ndark') == r
  {
    var r := DarkRead(f, hPix, vPix, dk, ndark);
    var r' := DarkRead(f, hPix, vPix, r.0, ndark');
    assert forall i :: 0 <= i < |dk| ==> r'.0[i] == r.0[i];
  }

  /** After a flush, the rewritten file reads back as the frame the flush
      left: the next capture starts from a zero frame and no exposures. */
  lemma FlushedReadsBack(f: DarkFile, hPix: UShort, vPix: UShort, dk: seq<UShort>, ndark: UShort)
    requires Pixels(hPix, vPix) <= |dk| && (f.hPix != hPix || f.vPix != vPix)
    ensures var r := DarkRead(f, hPix, vPix, dk, ndark);
      DarkRead(DarkFlushed(f, hPix, vPix), hPix, vPix, r.0, r.1) == r
  {
    var r := DarkRead(f, hPix, vPix, dk, ndark);
    var r' := DarkRead(DarkFlushed(f, hPix, vPix), hPix, vPix, r.0, r.1);
    assert forall i :: 0 <= i < |dk| ==> r'.0[i] == r.0[i];
  }

  /** aug->dark: whether a dark frame is being captured or subtracted, the
      number of exposures wanted, the dark frame itself, and the number of
      exposures averaged into it so far (the file-level ndark). */
  class Dark {
    var capture: bool
    var subtract: bool
    var ndark: UShort
    var num: UShort
    const dk161: array<UShort>

    constructor (num: UShort, dk161: array<UShort>)
      ensures this.num == num && this.dk161 == dk161
      ensures !capture && !subtract && ndark == 0
    {
      this.num := num;
      this.dk161 := dk161;
      capture := false;
      subtract := false;
      ndark := 0;
    }

    /** augcam_read_dark_frame: read the file into the dark frame and
        ndark, flushing it when it was taken at another resolution; the
        file as it is left is returned. */
    method ReadFrame(f: DarkFile, hPix: UShort, vPix: UShort) returns (f': DarkFile)
      requires Pixels(hPix, vPix) <= dk161.Length
      modifies this, dk161
      ensures (dk161[..], ndark) == DarkRead(f, hPix, vPix, old(dk161[..]), old(ndark))
      ensures f' == if f.hPix == hPix && f.vPix == vPix then f else DarkFlushed(f, hPix, vPix)
      ensures capture == old(capture) && subtract == old(subtract) && num == old(num)
    {
      ghost var dk0 := dk161[..];
      ghost var want := DarkRead(f, hPix, vPix, dk0, ndark).0;
      var n := Pixels(hPix, vPix);
      var matches := f.hPix == hPix && f.vPix == vPix;
      var m := if !matches || n <= |f.frame| then n else |f.frame|;
      var i := 0;
      while i < m
        invariant 0 <= i <= m
        invariant Spliced(dk161, want, dk0, i)
        modifies dk161
      {
        PutAt(dk161, i, if matches then f.frame[i] else 0, want, dk0);
        i := i + 1;
      }
      assert forall j :: 0 <= j < dk161.Length ==> dk161[..][j] == want[j];
      assert dk161[..] == want;
      if matches {
        ndark := f.ndark;
        f' := f;
      } else {
        ndark := 0;
        f' := DarkFlushed(f, hPix, vPix);
      }
    }

    /** The end of convert_to_grey while capturing a dark frame: ndark (a
        gushort) is incremented and the capture stops when it equals num. */
    method EndFrame()
      modifies this
      ensures (capture, ndark) == DarkEnd(old(capture), old(ndark), num)
      ensures subtract == old(subtract) && num == old(num)
    {
      if capture {
        ndark := ToUShort(ndark + 1);
        if ndark == num {
          capture := false;
        }
      }
    }
  }

  /** The capture state after one more frame: while capturing, ndark
      moves on (wrapping at 65536) and the capture goes on while it differs
      from num. */
  function DarkEnd(capture: bool, ndark: UShort, num: UShort): (r: (bool, UShort))
    ensures !capture ==> r == (false, ndark)
    ensures capture && ndark < 0xFFFF ==> r.1 == ndark + 1
    ensures capture ==> (r.0 <==> r.1 != num)
  {
    if capture then
      var nd := ToUShort(ndark + 1);
      (nd != num, nd)
    else (false, ndark)
  }

  /** The state of the dark capture after k more frames. */
  function DarkAfter(capture: bool, ndark: UShort, num: UShort, k: nat): (r: (bool, UShort))
    decreases k
  {
    if k == 0 then (capture, ndark)
    else
      var r := DarkEnd(capture, ndark, num);
      DarkAfter(r.0, r.1, num, k - 1)
  }

  /** A dark capture started with ndark below dark.num goes on for exactly
      num - ndark frames and then holds num exposures. */
  lemma {:induction false} DarkStops(ndark: UShort, num: UShort, k: nat)
    requires ndark < num && k <= num - ndark
    ensures DarkAfter(true, ndark, num, k) == (k < num - ndark, ndark + k)
    decreases k
  {
    if k > 0 {
      assert DarkEnd(true, ndark, num) == (ndark + 1 != num, ndark + 1);
      if ndark + 1 < num {
        DarkStops(ndark + 1, num, k - 1);
      } else {
        assert DarkAfter(false, num, num, k - 1) == (false, num) by {
          DarkStopped(num, num, k - 1);
        }
      }
    }
  }

  /** Once the capture has stopped, further frames change nothing. */
  lemma {:induction false} DarkStopped(ndark: UShort, num: UShort, k: nat)
    ensures DarkAfter(false, ndark, num, k) == (false, ndark)
  {
    if k > 0 {
      DarkStopped(ndark, num, k - 1);
    }
  }

  /** The frame a conversion reads: either the V4L bytes or the Starlight
      Xpress samples, with enough of them for n pixels. */
  predicate Covers(s: Settings, r083: seq<Byte>, r161: seq<UShort>, n: nat)
  {
    (IsVideo(s.device) ==> n * InitialiseImageDecoding(s.fmt).incr <= |r083|) &&
    (IsStarlight(s.device) ==> n <= |r161|)
  }

  /** The dark frame entries and the kept values of the first k pixels of
      an n-pixel frame: each pixel is decoded (from the value the previous
      one ended with), averaged into the dark frame dk0 when capturing,
      and corrected. */
  function Converted(s: Settings, r083: seq<Byte>, r161: seq<UShort>, n: nat, k: nat,
                     dk0: seq<UShort>, capture: bool, ndark: UShort, subtract: bool): (r: (seq<UShort>, seq<UShort>))
    requires Covers(s, r083, r161, n) && k <= n <= |dk0|
    ensures |r.0| == k && |r.1| == k
  {
    if k == 0 then ([], [])
    else
      var (dk, ff) := Converted(s, r083, r161, n, k - 1, dk0, capture, ndark, subtract);
      var v := Raw(s, r083, r161, n, k - 1, if k == 1 then 0 else ff[k - 2]);
      var d := if capture then DarkAverage(dk0[k - 1], ndark, v) else dk0[k - 1];
      (dk + [d], ff + [Corrected(subtract, s.black, v, d)])
  }

  /** Pixel j of a conversion of k pixels: its dark frame entry is the old
      one, or the old one averaged with the decoded value when capturing;
      its kept value is the decoded value corrected by that entry and the
      background cut; and the decoded value was read from the previous
      pixel's kept value (0 for the first). */
  lemma {:induction false} ConvertedPixel(s: Settings, r083: seq<Byte>, r161: seq<UShort>, n: nat, k: nat,
                                          dk0: seq<UShort>, capture: bool, ndark: UShort, subtract: bool, j: nat)
    requires Covers(s, r083, r161, n) && k <= n <= |dk0| && j < k
    ensures var (dk, ff) := Converted(s, r083, r161, n, k, dk0, capture, ndark, subtract);
      var v := Raw(s, r083, r161, n, j, if j == 0 then 0 else ff[j - 1]);
      0 <= v < 0x1_0000 &&
      dk[j] == (if capture then DarkAverage(dk0[j], ndark, v) else dk0[j]) &&
      ff[j] == Corrected(subtract, s.black, v, dk[j])
    decreases k
  {
    if j < k - 1 {
      ConvertedPixel(s, r083, r161, n, k - 1, dk0, capture, ndark, subtract, j);
      var (dk, ff) := Converted(s, r083, r161, n, k - 1, dk0, capture, ndark, subtract);
      var (dk', ff') := Converted(s, r083, r161, n, k, dk0, capture, ndark, subtract);
      assert dk'[j] == dk[j] && ff'[j] == ff[j];
      assert j > 0 ==> ff'[j - 1] == ff[j - 1];
    }
  }

  predicate Shows(dev: Device) { IsVideo(dev) || IsStarlight(dev) }

  /** The display bytes for the kept values ff: each one shown as three
      equal bytes. */
  function Tripled(s: Settings, ff: seq<UShort>, curve: int -> Byte): (t: seq<Byte>)
    requires Shows(s.device)
    ensures |t| == 3 * |ff|
  {
    if ff == [] then []
    else
      var b := Shown(s, ff[|ff| - 1], curve);
      Tripled(s, ff[..|ff| - 1], curve) + [b, b, b]
  }

  /** Bytes 3j, 3j + 1 and 3j + 2 of Tripled show kept value j. */
  lemma {:induction false} TripledAt(s: Settings, ff: seq<UShort>, curve: int -> Byte, j: nat, k: nat)
    requires Shows(s.device) && j < |ff| && k < 3
    ensures Tripled(s, ff, curve)[3 * j + k] == Shown(s, ff[j], curve)
  {
    var m := |ff| - 1;
    if j < m {
      TripledAt(s, ff[..m], curve, j, k);
      assert ff[..m][j] == ff[j];
    }
  }

  /** The first i entries of a are want's and the rest are orig's. */
  ghost predicate Spliced<T>(a: array<T>, want: seq<T>, orig: seq<T>, i: nat)
    reads a
  {
    a.Length == |orig| && i <= |want| && i <= a.Length &&
    (forall j :: 0 <= j < i ==> a[j] == want[j]) &&
    (forall j :: i <= j < a.Length ==> a[j] == orig[j])
  }

  /** One more entry of an array moves from orig's to want's. */
  method PutAt<T>(a: array<T>, i: nat, x: T, ghost want: seq<T>, ghost orig: seq<T>)
    requires Spliced(a, want, orig, i) && i < |want| && i < a.Length && x == want[i]
    modifies a
    ensures Spliced(a, want, orig, i + 1)
  {
    a[i] := x;
  }

  /** The conversion loop of convert_to_grey over an n-pixel frame (the
      pixel statistics left aside): the first n entries of the dark frame
      and of ff161 become Converted's and disp083 shows each kept value as
      three equal bytes, the rest of each array is left as it was; then
      the dark capture count moves on. */
  method ConvertToGrey(s: Settings, r083: seq<Byte>, r161: seq<UShort>, n: nat, dark: Dark,
                       f: DarkFile, hPix: UShort, vPix: UShort,
                       ff161: array<UShort>, disp083: array<Byte>, curve: int -> Byte) returns (f': DarkFile)
    requires Covers(s, r083, r161, n) && n == Pixels(hPix, vPix)
    requires n <= dark.dk161.Length && n <= ff161.Length && 3 * n <= disp083.Length
    requires dark.dk161 != ff161
    modifies dark, dark.dk161, ff161, disp083
    ensures var rd := if old(dark.capture) then DarkRead(f, hPix, vPix, old(dark.dk161[..]), old(dark.ndark))
                      else (old(dark.dk161[..]), old(dark.ndark));
      var c := Converted(s, r083, r161, n, n, rd.0, old(dark.capture), rd.1, old(dark.subtract));
      dark.dk161[..] == c.0 + rd.0[n..] &&
      ff161[..] == c.1 + old(ff161[..])[n..] &&
      disp083[..] == (if Shows(s.device) then Tripled(s, c.1, curve) + old(disp083[..])[3 * n..]
                      else old(disp083[..])) &&
      (dark.capture, dark.ndark) == DarkEnd(old(dark.capture), rd.1, old(dark.num))
    ensures f' == if old(dark.capture) then DarkWritten(f, hPix, vPix, dark.ndark, dark.dk161[..]) else f
    ensures dark.subtract == old(dark.subtract) && dark.num == old(dark.num)
  {
    f' := f;
    var capturing := dark.capture;
    if capturing {
      f' := dark.ReadFrame(f, hPix, vPix);
    }
    ConvertFrame(s, r083, r161, n, dark.dk161, dark.capture, dark.ndark, dark.subtract, ff161, disp083, curve);
    dark.EndFrame();
    if capturing {
      WrittenAfterFlush(f, hPix, vPix, dark.ndark, dark.dk161[..]);
      f' := DarkWritten(f', hPix, vPix, dark.ndark, dark.dk161[..]);
    }
  }

  /** The loop of convert_to_grey over the pixels, for a dark capture
      state (capture, ndark, subtract) that does not change during it. */
  method ConvertFrame(s: Settings, r083: seq<Byte>, r161: seq<UShort>, n: nat, dk: array<UShort>,
                      capture: bool, ndark: UShort, subtract: bool,
                      ff161: array<UShort>, disp083: array<Byte>, curve: int -> Byte)
    requires Covers(s, r083, r161, n)
    requires n <= dk.Length && n <= ff161.Length && 3 * n <= disp083.Length
    requires dk != ff161
    modifies dk, ff161, disp083
    ensures var c := Converted(s, r083, r161, n, n, old(dk[..]), capture, ndark, subtract);
      dk[..] == c.0 + old(dk[..])[n..] &&
      ff161[..] == c.1 + old(ff161[..])[n..] &&
      disp083[..] == if Shows(s.device) then Tripled(s, c.1, curve) + old(disp083[..])[3 * n..]
                     else old(disp083[..])
  {
    ghost var dk0, ff0, disp0 := dk[..], ff161[..], disp083[..];
    ghost var c := Converted(s, r083, r161, n, n, dk0, capture, ndark, subtract);
    ghost var t := if Shows(s.device) then Tripled(s, c.1, curve) else disp0;
    ConvertLoop(s, r083, r161, n, dk, capture, ndark, subtract, ff161, disp083, curve, c, t, dk0, ff0, disp0);
    SplicedWhole(dk, c.0, dk0);
    SplicedWhole(ff161, c.1, ff0);
    if Shows(s.device) {
      SplicedWhole(disp083, t, disp0);
    } else {
      SplicedWhole(disp083, [], disp0);
    }
  }

  /** The loop of ConvertFrame: pixel after pixel, each array takes the
      converted values in place of the old ones. */
  method ConvertLoop(s: Settings, r083: seq<Byte>, r161: seq<UShort>, n: nat, dk: array<UShort>,
                     capture: bool, ndark: UShort, subtract: bool,
                     ff161: array<UShort>, disp083: array<Byte>, curve: int -> Byte,
                     ghost c: (seq<UShort>, seq<UShort>), ghost t: seq<Byte>,
                     ghost dk0: seq<UShort>, ghost ff0: seq<UShort>, ghost disp0: seq<Byte>)
    requires Covers(s, r083, r161, n) && n <= |dk0|
    requires c == Converted(s, r083, r161, n, n, dk0, capture, ndark, subtract)
    requires t == if Shows(s.device) then Tripled(s, c.1, curve) else disp0
    requires dk != ff161
    requires Spliced(dk, c.0, dk0, 0) && Spliced(ff161, c.1, ff0, 0) && Spliced(disp083, t, disp0, 0)
    requires n <= ff161.Length && (Shows(s.device) ==> 3 * n <= disp083.Length)
    modifies dk, ff161, disp083
    ensures Spliced(dk, c.0, dk0, n) && Spliced(ff161, c.1, ff0, n)
    ensures Spliced(disp083, t, disp0, if Shows(s.device) then 3 * n else 0)
  {
    var val: UShort := 0;
    var i := 0;
    while i < n
      invariant 0 <= i <= n
      invariant val == if i == 0 then 0 else c.1[i - 1]
      invariant Spliced(dk, c.0, dk0, i)
      invariant Spliced(ff161, c.1, ff0, i)
      invariant Spliced(disp083, t, disp0, if Shows(s.device) then 3 * i else 0)
    {
      val := ConvertStep(s, r083, r161, n, dk, capture, ndark, subtract, ff161, disp083, curve,
                         i, val, c, t, dk0, ff0, disp0);
      i := i + 1;
    }
  }

  /** An array spliced all the way along want holds want and then the
      rest of orig. */
  lemma SplicedWhole<T>(a: array<T>, want: seq<T>, orig: seq<T>)
    requires Spliced(a, want, orig, |want|)
    ensures a[..] == want + orig[|want|..]
  {
    assert forall j :: 0 <= j < a.Length ==> a[..][j] == (want + orig[|want|..])[j];
  }

  /** One pass of the conversion loop, for pixel i of the frame whose
      conversion is c: the dark frame entry, the kept value and (when the
      frame is shown) its three display bytes are written. */
  method ConvertStep(s: Settings, r083: seq<Byte>, r161: seq<UShort>, n: nat, dk: array<UShort>,
                     capture: bool, ndark: UShort, subtract: bool,
                     ff161: array<UShort>, disp083: array<Byte>, curve: int -> Byte,
                     i: nat, prev: UShort, ghost c: (seq<UShort>, seq<UShort>), ghost t: seq<Byte>,
                     ghost dk0: seq<UShort>, ghost ff0: seq<UShort>, ghost disp0: seq<Byte>)
      returns (val: UShort)
    requires Covers(s, r083, r161, n) && i < n <= |dk0|
    requires c == Converted(s, r083, r161, n, n, dk0, capture, ndark, subtract)
    requires t == if Shows(s.device) then Tripled(s, c.1, curve) else disp0
    requires prev == if i == 0 then 0 else c.1[i - 1]
    requires dk != ff161
    requires Spliced(dk, c.0, dk0, i) && Spliced(ff161, c.1, ff0, i)
    requires Spliced(disp083, t, disp0, if Shows(s.device) then 3 * i else 0)
    requires n <= ff161.Length && (Shows(s.device) ==> 3 * n <= disp083.Length)
    modifies dk, ff161, disp083
    ensures val == c.1[i]
    ensures Spliced(dk, c.0, dk0, i + 1) && Spliced(ff161, c.1, ff0, i + 1)
    ensures Spliced(disp083, t, disp0, if Shows(s.device) then 3 * (i + 1) else 0)
  {
    var d;
    d, val := PixelValues(s, r083, r161, n, i, prev, dk[i], capture, ndark, subtract, c, dk0);
    WriteStep(s, dk, capture, ff161, disp083, curve, i, d, val, c.0, c.1, t, dk0, ff0, disp0);
  }

  /** The writes of one pass of the conversion loop: the dark frame entry
      when capturing, the display bytes when the frame is shown, and the
      kept value. */
  method WriteStep(s: Settings, dk: array<UShort>, capture: bool, ff161: array<UShort>, disp083: array<Byte>,
                   curve: int -> Byte, i: nat, d: UShort, val: UShort,
                   ghost dkw: seq<UShort>, ghost ffw: seq<UShort>, ghost t: seq<Byte>,
                   ghost dk0: seq<UShort>, ghost ff0: seq<UShort>, ghost disp0: seq<Byte>)
    requires i < |dkw| == |ffw| && d == dkw[i] && val == ffw[i]
    requires t == if Shows(s.device) then Tripled(s, ffw, curve) else disp0
    requires dk != ff161
    requires Spliced(dk, dkw, dk0, i) && Spliced(ff161, ffw, ff0, i) && i < dk.Length && i < ff161.Length
    requires !capture ==> d == dk0[i]
    requires Spliced(disp083, t, disp0, if Shows(s.device) then 3 * i else 0)
    requires Shows(s.device) ==> 3 * i + 3 <= disp083.Length
    modifies dk, ff161, disp083
    ensures Spliced(dk, dkw, dk0, i + 1) && Spliced(ff161, ffw, ff0, i + 1)
    ensures Spliced(disp083, t, disp0, if Shows(s.device) then 3 * (i + 1) else 0)
  {
    if capture {
      PutAt(dk, i, d, dkw, dk0);
    } else {
      assert Spliced(dk, dkw, dk0, i + 1);
    }
    if Shows(s.device) {
      ShowValue(s, disp083, i, val, ffw, curve, t, disp0);
    }
    PutAt(ff161, i, val, ffw, ff0);
  }

  /** Pixel i of the frame whose conversion is c: its dark frame entry
      and kept value are c's. */
  method PixelValues(s: Settings, r083: seq<Byte>, r161: seq<UShort>, n: nat, i: nat, prev: UShort,
                     dki: UShort, capture: bool, ndark: UShort, subtract: bool,
                     ghost c: (seq<UShort>, seq<UShort>), ghost dk0: seq<UShort>) returns (d: UShort, val: UShort)
    requires Covers(s, r083, r161, n) && i < n <= |dk0| && dki == dk0[i]
    requires c == Converted(s, r083, r161, n, n, dk0, capture, ndark, subtract)
    requires prev == if i == 0 then 0 else c.1[i - 1]
    ensures d == c.0[i] && val == c.1[i]
    ensures !capture ==> d == dki
  {
    ConvertedPixel(s, r083, r161, n, n, dk0, capture, ndark, subtract, i);
    d, val := ConvertPixel(s, r083, r161, n, i, prev, dki, capture, ndark, subtract);
  }

  /** Kept value i is shown as its three display bytes. */
  method ShowValue(s: Settings, disp083: array<Byte>, i: nat, val: UShort, ghost ff: seq<UShort>,
                   curve: int -> Byte, ghost want: seq<Byte>, ghost orig: seq<Byte>)
    requires Shows(s.device) && i < |ff| && ff[i] == val && want == Tripled(s, ff, curve)
    requires Spliced(disp083, want, orig, 3 * i) && 3 * i + 3 <= disp083.Length
    modifies disp083
    ensures Spliced(disp083, want, orig, 3 * i + 3)
  {
    var b := Shown(s, val, curve);
    TripledAt(s, ff, curve, i, 0);
    TripledAt(s, ff, curve, i, 1);
    TripledAt(s, ff, curve, i, 2);
    ShowPixel(disp083, i, b, want, orig);
  }

  /** The body of the conversion loop for pixel i: the value read, the
      dark frame entry after the averaging (when capturing), and the value
      after the dark subtraction (when asked) and the background cut. */
  method ConvertPixel(s: Settings, r083: seq<Byte>, r161: seq<UShort>, n: nat, i: nat, prev: UShort,
                      dk0: UShort, capture: bool, ndark: UShort, subtract: bool) returns (d: UShort, val: UShort)
    requires Covers(s, r083, r161, n) && i < n
    ensures var v := Raw(s, r083, r161, n, i, prev);
      d == (if capture then DarkAverage(dk0, ndark, v) else dk0) &&
      val == Corrected(subtract, s.black, v, d)
  {
    var v := Raw(s, r083, r161, n, i, prev);
    d := dk0;
    if capture {
      d := DarkAverage(d, ndark, v);
    }
    var w := v;
    if subtract {
      w := Image.Max(w - d, 0);
    }
    w := Image.Max(w - s.black, 0);
    val := w;
  }

  /** disp083 shows pixel i as three equal bytes b. */
  method ShowPixel(disp083: array<Byte>, i: nat, b: Byte, ghost want: seq<Byte>, ghost orig: seq<Byte>)
    requires Spliced(disp083, want, orig, 3 * i) && 3 * i + 3 <= |want| && 3 * i + 3 <= disp083.Length
    requires want[3 * i] == b && want[3 * i + 1] == b && want[3 * i + 2] == b
    modifies disp083
    ensures Spliced(disp083, want, orig, 3 * i + 3)
  {
    var k := 0;
    while k < 3
      invariant 0 <= k <= 3
      invariant Spliced(disp083, want, orig, 3 * i + k)
    {
      PutAt(disp083, 3 * i + k, b, want, orig);
      k := k + 1;
    }
  }

  // ---------------------------------------------------------------------
  // set_image_size

  /** augcam_set_image_size: the binned size is stored, the window starts
      at the top left corner and its bottom right corner, a gushort, is
      top left + size - 1, so that a window of w >= 1 pixels spans w
      pixels; a size of 0 wraps the corner round to 65535. */
  function SetImageSize(ex: Image.Exposure, width: UShort, height: UShort): (e: Image.Exposure)
    ensures e.hPix == width && e.vPix == height && e.hTopL == 0 && e.vTopL == 0
    ensures width >= 1 ==> e.hBotR - e.hTopL + 1 == width
    ensures height >= 1 ==> e.vBotR - e.vTopL + 1 == height
    ensures width == 0 ==> e.hBotR == 0xFFFF
    ensures height == 0 ==> e.vBotR == 0xFFFF
    ensures e.hBin == ex.hBin && e.vBin == ex.vBin
  {
    var e := ex.(hPix := width, vPix := height, hTopL := 0, vTopL := 0);
    e.(hBotR := ToUShort(e.hTopL + e.hPix - 1), vBotR := ToUShort(e.vTopL + e.vPix - 1))
  }
}
