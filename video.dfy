// GoQat's video recording and playback (video.c). Recording copies every
// save_every-th camera frame, with its time stamp, into one of two halves
// of a buffer of 2 * nbf frames; when a half is full the main loop is asked
// to write it to the file and recording carries on in the other half.
// Playback reads frames back by number and can rewrite their time stamps
// at a fixed increment.
//
// Buffer positions are counted in whole frames: a slot holds what the
// source keeps in FRAME_HEADER_SIZE + fr_size bytes, the time stamp and
// the first fr_size bytes of the camera's image. The file is the sequence
// of frames written after its header.

module Video {
  import opened Bytes

  /** Microseconds in a second. */
  const MICROS: int := 1000000
  /** FRAME_HEADER_SIZE: bytes kept in front of each frame. */
  const FRAME_HEADER_SIZE: nat := 100
  /** video_iter_frames rewrites this many time stamps per call. */
  const BATCH: nat := 100

  /** A struct timeval, or GoQat's struct frame_times. */
  datatype TimeVal = TimeVal(sec: int, usec: int)

  /** A buffered or stored frame: its time stamp and its pixels. */
  datatype Frame = Frame(stamp: TimeVal, pixels: seq<Byte>)

  function Micros(t: TimeVal): (n: int)
  {
    t.sec * MICROS + t.usec
  }

  /** A time whose microseconds lie in [0, 10^6), as gettimeofday gives. */
  predicate Normal(t: TimeVal)
  {
    0 <= t.usec < MICROS
  }

  // ---------------------------------------------------------------------
  // Time stamps
  // ---------------------------------------------------------------------

  /** C's u / 1000000 on an int: the quotient rounded toward zero. */
  function CQuot(u: int): (n: int)
  {
    if u >= 0 then u / MICROS else -((-u) / MICROS)
  }

  /** C's u % 1000000 on an int: it takes the sign of u. */
  function CRem(u: int): (n: int)
  {
    u - CQuot(u) * MICROS
  }

  /** C's division rule: quotient times divisor plus remainder is u, and
      the remainder lies strictly inside (-10^6, 10^6) with the sign of u. */
  lemma CDivision(u: int)
    ensures CQuot(u) * MICROS + CRem(u) == u
    ensures u >= 0 ==> 0 <= CRem(u) < MICROS && CQuot(u) == u / MICROS
    ensures u < 0 ==> -MICROS < CRem(u) <= 0
  {
    if u < 0 {
      var q := (-u) / MICROS;
      assert (-u) - q * MICROS == (-u) % MICROS;
    }
  }

  /** The increment between the first two marked frames
      (video_set_timestamps): the difference of the stamps, borrowing a
      second when the microseconds come out negative. */
  function Increment(t1: TimeVal, t2: TimeVal): (d: TimeVal)
    ensures Micros(d) == Micros(t2) - Micros(t1)
    ensures Normal(t1) && Normal(t2) ==> Normal(d)
  {
    var s := t2.sec - t1.sec;
    var u := t2.usec - t1.usec;
    if u < 0 then TimeVal(s - 1, u + MICROS) else TimeVal(s, u)
  }

  /** n * (a * MICROS + b) spread over its terms. */
  lemma Spread(n: int, a: int, b: int)
    ensures n * (a * MICROS + b) == (n * a) * MICROS + n * b
  {
  }

  /** The time stamp of the frame n frames after the first marked one
      (video_iter_frames), computed in unbounded integers: exactly n
      increments after the first stamp, with its microseconds carried into
      seconds. */
  function FrameTime(first: TimeVal, incr: TimeVal, n: nat): (t: TimeVal)
    ensures Micros(t) == Micros(first) + n * Micros(incr)
    ensures 0 <= first.usec && 0 <= incr.usec ==> Normal(t)
  {
    var u := first.usec + n * incr.usec;
    CDivision(u);
    Spread(n, incr.sec, incr.usec);
    TimeVal(first.sec + n * incr.sec + CQuot(u), CRem(u))
  }

  /** Both fields of a time stamp fit a gint. */
  predicate InGint(t: TimeVal)
  {
    -0x8000_0000 <= t.sec < 0x8000_0000 && -0x8000_0000 <= t.usec < 0x8000_0000
  }

  /** Two ints that differ by a multiple of 2^32 convert to the same gint. */
  lemma SameInt32(u: int, v: int)
    requires (u - v) % 0x1_0000_0000 == 0
    ensures ToInt32(u) == ToInt32(v)
  {
    var k := (u - v) / 0x1_0000_0000;
    assert u == v + k * 0x1_0000_0000;
    assert u % 0x1_0000_0000 == v % 0x1_0000_0000;
  }

  /** Wrapping a partial sum to 32 bits before adding the rest wraps the
      whole sum to the same gint. */
  lemma Rewrap(x: int, y: int)
    ensures ToInt32(ToInt32(x) + y) == ToInt32(x + y)
  {
    var k := (ToInt32(x) - x) / 0x1_0000_0000;
    assert ToInt32(x) - x == k * 0x1_0000_0000;
    assert (ToInt32(x) + y) - (x + y) == k * 0x1_0000_0000;
    SameInt32(ToInt32(x) + y, x + y);
  }

  /** The exact stamp of frame n is one the gint arithmetic can reach: the
      microsecond sum and the resulting seconds both fit a gint. */
  predicate StampFits(first: TimeVal, incr: TimeVal, n: nat)
  {
    -0x8000_0000 <= first.usec + n * incr.usec < 0x8000_0000 &&
    -0x8000_0000 <= FrameTime(first, incr, n).sec < 0x8000_0000
  }

  /** The same computation as video.c writes it: (cur_frame - mark_first)
      is a guint, so the products and sums are taken modulo 2^32 and stored
      back into a gint; the carry then uses C's / and %. */
  function FrameTimeAsWritten(first: TimeVal, incr: TimeVal, n: nat): (t: TimeVal)
    ensures -MICROS < t.usec < MICROS
    ensures InGint(t)
  {
    var usec := ToInt32(first.usec + n * incr.usec);
    var sec := ToInt32(first.sec + n * incr.sec);
    CDivision(usec);
    TimeVal(ToInt32(sec + CQuot(usec)), CRem(usec))
  }

  /** Where the exact stamp is within the gints' reach, the code as written
      computes it. */
  lemma AsWrittenExact(first: TimeVal, incr: TimeVal, n: nat)
    requires StampFits(first, incr, n)
    ensures FrameTimeAsWritten(first, incr, n) == FrameTime(first, incr, n)
  {
    var u := first.usec + n * incr.usec;
    CDivision(u);
    Rewrap(first.sec + n * incr.sec, CQuot(u));
  }

  /** At 25 frames per second (an increment of 40000 us) the frame 53688
      frames after the first marked one already gets a negative microsecond
      field and a time 2147 s before the first frame instead of 2147 s
      after it. */
  lemma FrameTimeWraps()
    ensures FrameTimeAsWritten(TimeVal(1400000000, 0), TimeVal(0, 40000), 53688)
            == TimeVal(1400000000 - 2147, -447296)
    ensures FrameTime(TimeVal(1400000000, 0), TimeVal(0, 40000), 53688)
            == TimeVal(1400000000 + 2147, 520000)
  {
    var u := 53688 * 40000;
    assert u == 2147520000;
    assert ToInt32(u) == u - 0x1_0000_0000 == -2147447296;
    assert CQuot(-2147447296) == -2147;
    assert CQuot(u) == 2147;
  }

  // ---------------------------------------------------------------------
  // The recording buffer
  // ---------------------------------------------------------------------

  /** video_flush_buffer's frame count: num_frames % nbf, or a whole
      buffer when that is 0. */
  function FramesToFlush(numFrames: nat, nbf: nat): (r: nat)
    requires nbf > 0
    ensures 1 <= r <= nbf
    ensures r % nbf == numFrames % nbf
    ensures r == nbf <==> numFrames % nbf == 0
  {
    BlockDiv(1, nbf, nbf);
    BlockDiv(0, nbf, numFrames % nbf);
    if numFrames % nbf == 0 then nbf else numFrames % nbf
  }

  /** The first slot of buffer half b: rp.buf * rp.nbf for b in {0, 1}. */
  function Base(b: nat, nbf: nat): (p: nat)
    ensures b < 2 ==> p == b * nbf
  {
    if b == 0 then 0 else nbf
  }

  /** The count frames stored in the slots from base on. */
  function Slots(mem: map<nat, Frame>, base: nat, count: nat): (s: seq<Frame>)
    requires forall i :: base <= i < base + count ==> i in mem
    ensures |s| == count
    ensures forall k :: 0 <= k < count ==> s[k] == mem[base + k]
  {
    if count == 0 then [] else Slots(mem, base, count - 1) + [mem[base + count - 1]]
  }

  /** Storing a frame in the slot after a run of slots extends the run by
      that frame. */
  lemma SlotsPush(mem: map<nat, Frame>, base: nat, count: nat, f: Frame)
    requires forall i :: base <= i < base + count ==> i in mem
    ensures Slots(mem[base + count := f], base, count + 1) == Slots(mem, base, count) + [f]
  {
    var a := Slots(mem[base + count := f], base, count + 1);
    var b := Slots(mem, base, count) + [f];
    assert forall k :: 0 <= k < count + 1 ==> a[k] == b[k];
  }

  /** A frame of zero bytes, as g_malloc0 leaves each slot. */
  function Blank(frSize: nat): (r: Frame)
  {
    Frame(TimeVal(0, 0), seq(frSize, _ => 0))
  }

  /** The first n slots, zeroed. */
  function BlankSlots(n: nat, frSize: nat): (m: map<nat, Frame>)
    ensures forall i :: 0 <= i < n ==> i in m && m[i] == Blank(frSize)
  {
    if n == 0 then map[] else BlankSlots(n - 1, frSize)[n - 1 := Blank(frSize)]
  }

  /** The double buffer: rp.nbf, rp.buf, rp.vid_bufptr, rp.vid_buf_flushed
      and the slots of rp.vid_buf, with video_buffer_frame's static f_num,
      the number of frames in the current half. */
  datatype Buf = Buf(
    nbf: nat,              // frames per half
    frSize: nat,           // pixel bytes per frame
    buf: nat,              // the half being filled
    fNum: nat,             // frames in that half
    ptr: seq<nat>,         // the write position of each half, as a slot number
    flushed: seq<bool>,    // whether each half has been written out
    mem: map<nat, Frame>)  // the slots

  /** The main loop's flush request: LVD in Flags.Lvw and the half in
      vid_buf (loop.c:538-545). */
  datatype Req = Req(pending: bool, half: nat)

  /** The rest of the recording state: rp.vid_buf != NULL, rp.fp != NULL,
      aug->Record, rp.FirstFrame, rp.num_frames, the statics save_every and
      save_count, the start and latest times, and the frames written to the
      video file after its header. */
  datatype Rec = Rec(
    hasBuffer: bool, fileOpen: bool, record: bool, firstFrame: bool,
    numFrames: nat, saveEvery: int, saveCount: int, start: nat, latest: nat,
    file: seq<Frame>, h: Buf, req: Req)

  predicate Shaped(h: Buf)
  {
    |h.ptr| == 2 && |h.flushed| == 2 && h.buf < 2
  }

  predicate WellFormed(r: Rec)
  {
    Shaped(r.h) && r.req.half < 2 &&
    (r.hasBuffer ==>
       r.h.nbf >= 1 && (forall i :: 0 <= i < 2 * r.h.nbf ==> i in r.h.mem) &&
       (!r.firstFrame ==> r.h.fNum < r.h.nbf))
  }

  // The double buffer's own steps.

  /** video_record_start's reset: nbf halves' worth of frames, filling
      half 0, both halves flushed. */
  function ResetBuf(h: Buf, nbf: nat, frSize: nat): (h': Buf)
  {
    h.(nbf := nbf, frSize := frSize, buf := 0, flushed := [true, true])
  }

  /** The allocation with g_malloc0: zeroed slots, each half writing at
      its first slot. */
  function AllocBuf(h: Buf): (h': Buf)
  {
    h.(mem := BlankSlots(2 * h.nbf, h.frSize), ptr := [0, h.nbf])
  }

  /** The two memcpy calls of video_buffer_frame: the stamp and the first
      fr_size pixel bytes go to the current half's write position, which
      moves on by one frame. */
  function StoreBuf(h: Buf, stamp: TimeVal, pixels: seq<Byte>): (h': Buf)
    requires Shaped(h) && |pixels| >= h.frSize
  {
    var p := h.ptr[h.buf];
    h.(mem := h.mem[p := Frame(stamp, pixels[..h.frSize])], ptr := h.ptr[h.buf := p + 1],
       fNum := h.fNum + 1)
  }

  /** The swap of a full half: the other half is taken, and starts again
      at its first slot only if it has been flushed. */
  function SwapBuf(h: Buf): (h': Buf)
    requires Shaped(h)
  {
    var b := 1 - h.buf;
    var h2 := h.(fNum := 0, buf := b);
    if h.flushed[b] then h2.(ptr := h.ptr[b := Base(b, h.nbf)], flushed := h.flushed[b := false])
    else h2
  }

  function MarkFlushed(h: Buf, b: nat): (h': Buf)
    requires Shaped(h) && b < 2
  {
    h.(flushed := h.flushed[b := true])
  }

  // The recorder's steps.

  /** video_record_start: close the previous file, reset the buffer state,
      allocate 2 * nbf frames (the byte count is a 32-bit unsigned product,
      and g_malloc0 of 0 bytes gives NULL), open the file and write its
      header. */
  function StartStep(r: Rec, nbf: UShort, frSize: nat, openOk: bool, headerOk: bool): (res: (Rec, bool))
    requires WellFormed(r)
    ensures WellFormed(res.0)
    ensures res.1 ==> res.0.hasBuffer && res.0.fileOpen && res.0.h.nbf == nbf >= 1
    ensures !res.1 ==> !res.0.record
  {
    var size := (2 * nbf * (FRAME_HEADER_SIZE + frSize)) % 0x1_0000_0000;
    var r1 := r.(fileOpen := false, hasBuffer := false, numFrames := 0, firstFrame := true,
                 h := ResetBuf(r.h, nbf, frSize));
    OpenStep(r1, size, openOk, headerOk)
  }

  /** The second part of video_record_start: the buffer of size bytes,
      then the file and its header. */
  function OpenStep(r: Rec, size: nat, openOk: bool, headerOk: bool): (res: (Rec, bool))
    requires WellFormed(r) && !r.hasBuffer && r.firstFrame
    requires size != 0 ==> r.h.nbf >= 1
    ensures WellFormed(res.0)
    ensures res.1 ==> res.0.hasBuffer && res.0.fileOpen
    ensures !res.1 ==> !res.0.record
  {
    if size == 0 then (r.(record := false), false)
    else
      var r2 := r.(hasBuffer := true, h := AllocBuf(r.h));
      if !openOk then (r2.(record := false), false)
      else
        var r3 := r2.(fileOpen := true, file := []);
        if !headerOk then (r3.(record := false), false) else (r3, true)
  }

  /** video_buffer_frame: the first call only starts the clock; after that
      every save_every-th frame is stored in the current half, and when the
      half holds nbf frames the main loop is asked to flush it and the
      halves swap. The result says whether the frame was stored. */
  function BufferStep(r: Rec, stamp: TimeVal, pixels: seq<Byte>, now: nat, entry: int): (res: (Rec, bool))
    requires WellFormed(r) && |pixels| >= r.h.frSize
    ensures res.1 <==> r.hasBuffer && !r.firstFrame && r.saveCount + 1 >= r.saveEvery
    ensures res.1 ==> res.0.numFrames == r.numFrames + 1 &&
                      res.0.h.mem == r.h.mem[r.h.ptr[r.h.buf] := Frame(stamp, pixels[..r.h.frSize])]
    ensures !res.1 ==> res.0.h.mem == r.h.mem && res.0.numFrames == r.numFrames
  {
    if !r.hasBuffer then (r, false)
    else if r.firstFrame then
      (r.(h := r.h.(fNum := 0), saveCount := 0, saveEvery := entry, start := now, firstFrame := false), false)
    else if r.saveCount + 1 < r.saveEvery then (r.(saveCount := r.saveCount + 1), false)
    else (StoreStep(r, stamp, pixels, now), true)
  }

  /** The end of video_buffer_frame once a frame is due: it is stored at
      rp.ptr[rp.buf], counted and timed, and a full half is handed to the
      flush and swapped for the other. */
  function StoreStep(r: Rec, stamp: TimeVal, pixels: seq<Byte>, now: nat): (q: Rec)
    requires Shaped(r.h) && |pixels| >= r.h.frSize
    ensures q.numFrames == r.numFrames + 1 && q.saveCount == 0 && q.latest == now
    ensures q.h.mem == r.h.mem[r.h.ptr[r.h.buf] := Frame(stamp, pixels[..r.h.frSize])]
    ensures q.file == r.file && q.fileOpen == r.fileOpen && q.hasBuffer == r.hasBuffer
    ensures r.h.fNum + 1 == r.h.nbf ==>
              q.req == Req(true, r.h.buf) && q.h.buf == 1 - r.h.buf && q.h.fNum == 0
    ensures r.h.fNum + 1 != r.h.nbf ==>
              q.req == r.req && q.h.buf == r.h.buf && q.h.fNum == r.h.fNum + 1 &&
              q.h.ptr == r.h.ptr[r.h.buf := r.h.ptr[r.h.buf] + 1]
  {
    var h1 := StoreBuf(r.h, stamp, pixels);
    var r1 := r.(saveCount := 0, numFrames := r.numFrames + 1, latest := now, h := h1);
    if h1.fNum != h1.nbf then r1
    else r1.(req := Req(true, r.h.buf), h := SwapBuf(h1))
  }

  /** Each call of video_buffer_frame keeps the recorder well formed. */
  lemma BufferStepWellFormed(r: Rec, stamp: TimeVal, pixels: seq<Byte>, now: nat, entry: int)
    requires WellFormed(r) && |pixels| >= r.h.frSize
    ensures WellFormed(BufferStep(r, stamp, pixels, now, entry).0)
  {
  }

  /** The write of count frames from half b (the body of
      video_flush_buffer once its count is known). */
  function WriteHalf(r: Rec, b: nat, count: nat, writeOk: bool): (r': Rec)
    requires WellFormed(r) && r.hasBuffer && b < 2 && count <= r.h.nbf
    ensures WellFormed(r')
  {
    if !r.fileOpen then r
    else if !writeOk then r.(record := false)
    else r.(file := r.file + Slots(r.h.mem, Base(b, r.h.nbf), count), h := MarkFlushed(r.h, b))
  }

  /** video_flush_buffer(b). */
  function FlushStep(r: Rec, b: nat, writeOk: bool): (r': Rec)
    requires WellFormed(r) && b < 2
    ensures WellFormed(r')
  {
    if !r.hasBuffer then r else WriteHalf(r, b, FramesToFlush(r.numFrames, r.h.nbf), writeOk)
  }

  /** The main loop's service of a flush request (loop.c:1536-1540). */
  function PendingStep(r: Rec, writeOk: bool): (r': Rec)
    requires WellFormed(r)
    ensures WellFormed(r')
  {
    if r.req.pending then FlushStep(r.(req := r.req.(pending := false)), r.req.half, writeOk) else r
  }

  /** What video_close_file does to the recording state. */
  function Close(r: Rec): (r': Rec)
    requires WellFormed(r)
    ensures WellFormed(r')
  {
    r.(fileOpen := false, hasBuffer := false)
  }

  /** video_record_stop: flush the current half and close the file. */
  function StopStep(r: Rec, writeOk: bool): (r': Rec)
    requires WellFormed(r)
    ensures WellFormed(r')
  {
    Close(FlushStep(r, r.h.buf, writeOk))
  }

  /** video_record_stop writing only the frames of the current half,
      num_frames % nbf of them, none when it is empty. */
  function StopFixedStep(r: Rec, writeOk: bool): (r': Rec)
    requires WellFormed(r)
    ensures WellFormed(r')
  {
    if !r.hasBuffer then Close(r)
    else Close(WriteHalf(r, r.h.buf, r.numFrames % r.h.nbf, writeOk))
  }

  // ---------------------------------------------------------------------
  // The double buffer when every requested flush is served before the
  // next frame arrives. `c` is the sequence of frames stored so far.
  // ---------------------------------------------------------------------

  /** Just started: nothing buffered, both halves marked flushed. */
  predicate Started(r: Rec)
  {
    WellFormed(r) && r.hasBuffer && r.fileOpen && r.firstFrame && !r.req.pending &&
    r.h.buf == 0 && r.h.ptr == [0, r.h.nbf] && r.h.flushed == [true, true] &&
    r.numFrames == 0 && r.file == [] && r.h.mem == BlankSlots(2 * r.h.nbf, r.h.frSize)
  }

  /** Recording with no flush pending: the file followed by the frames of
      the current half is every frame stored, the write position is just
      past them and the other half is free. */
  predicate Ready(r: Rec, c: seq<Frame>)
  {
    WellFormed(r) && r.hasBuffer && r.fileOpen && !r.firstFrame && !r.req.pending &&
    r.h.ptr[r.h.buf] == Base(r.h.buf, r.h.nbf) + r.h.fNum && r.h.flushed[1 - r.h.buf] &&
    r.numFrames % r.h.nbf == r.h.fNum &&
    c == r.file + Slots(r.h.mem, Base(r.h.buf, r.h.nbf), r.h.fNum)
  }

  /** Just swapped: the full half waits for its flush and the file
      followed by that half is every frame stored. */
  predicate Swapped(r: Rec, c: seq<Frame>)
  {
    WellFormed(r) && r.hasBuffer && r.fileOpen && !r.firstFrame && r.req.pending &&
    r.req.half == 1 - r.h.buf && r.h.fNum == 0 && r.h.ptr[r.h.buf] == Base(r.h.buf, r.h.nbf) &&
    r.numFrames % r.h.nbf == 0 &&
    c == r.file + Slots(r.h.mem, Base(r.req.half, r.h.nbf), r.h.nbf)
  }

  /** A successful start leaves the recorder just started. */
  lemma StartStarts(r: Rec, nbf: UShort, frSize: nat, openOk: bool, headerOk: bool)
    requires WellFormed(r) && !r.req.pending
    ensures StartStep(r, nbf, frSize, openOk, headerOk).1 ==>
              Started(StartStep(r, nbf, frSize, openOk, headerOk).0)
  {
  }

  /** The first frame after the start is not stored; then the recorder is
      ready with nothing stored. */
  lemma FirstFrameReady(r: Rec, stamp: TimeVal, pixels: seq<Byte>, now: nat, entry: int)
    requires Started(r) && |pixels| >= r.h.frSize
    ensures !BufferStep(r, stamp, pixels, now, entry).1
    ensures Ready(BufferStep(r, stamp, pixels, now, entry).0, [])
  {
    var r' := BufferStep(r, stamp, pixels, now, entry).0;
    assert Slots(r'.h.mem, 0, 0) == [];
  }

  /** One more frame in a half: the count of frames stored modulo nbf
      steps on, wrapping to 0 when the half is full. */
  lemma CountStep(n: nat, nbf: nat, f: nat)
    requires nbf >= 1 && n % nbf == f && f + 1 <= nbf
    ensures (n + 1) % nbf == if f + 1 == nbf then 0 else f + 1
  {
    var q := n / nbf;
    BlockDiv(q, nbf, n);
    if f + 1 == nbf {
      NextRow(q, nbf);
      BlockDiv(q + 1, nbf, n + 1);
    } else {
      BlockDiv(q, nbf, n + 1);
    }
  }

  /** Storing a frame in the current half extends the frames that half
      holds by that frame. */
  lemma StoreExtendsHalf(r: Rec, stamp: TimeVal, pixels: seq<Byte>)
    requires WellFormed(r) && r.hasBuffer && !r.firstFrame && |pixels| >= r.h.frSize
    requires r.h.ptr[r.h.buf] == Base(r.h.buf, r.h.nbf) + r.h.fNum
    ensures var h1 := StoreBuf(r.h, stamp, pixels);
            Slots(h1.mem, Base(r.h.buf, r.h.nbf), r.h.fNum + 1) ==
              Slots(r.h.mem, Base(r.h.buf, r.h.nbf), r.h.fNum) + [Frame(stamp, pixels[..r.h.frSize])]
  {
    SlotsPush(r.h.mem, Base(r.h.buf, r.h.nbf), r.h.fNum, Frame(stamp, pixels[..r.h.frSize]));
  }

  /** A stored frame that leaves room in the half joins it. */
  lemma BufferStoresInHalf(r: Rec, c: seq<Frame>, stamp: TimeVal, pixels: seq<Byte>, now: nat, entry: int)
    requires Ready(r, c) && |pixels| >= r.h.frSize
    requires r.saveCount + 1 >= r.saveEvery && r.h.fNum + 1 < r.h.nbf
    ensures BufferStep(r, stamp, pixels, now, entry).1
    ensures Ready(BufferStep(r, stamp, pixels, now, entry).0, c + [Frame(stamp, pixels[..r.h.frSize])])
  {
    StoreExtendsHalf(r, stamp, pixels);
    CountStep(r.numFrames, r.h.nbf, r.h.fNum);
  }

  /** A stored frame that fills the half hands it to the main loop, and
      the free half takes over. */
  lemma BufferStoresAndSwaps(r: Rec, c: seq<Frame>, stamp: TimeVal, pixels: seq<Byte>, now: nat, entry: int)
    requires Ready(r, c) && |pixels| >= r.h.frSize
    requires r.saveCount + 1 >= r.saveEvery && r.h.fNum + 1 == r.h.nbf
    ensures BufferStep(r, stamp, pixels, now, entry).1
    ensures Swapped(BufferStep(r, stamp, pixels, now, entry).0, c + [Frame(stamp, pixels[..r.h.frSize])])
  {
    StoreExtendsHalf(r, stamp, pixels);
    CountStep(r.numFrames, r.h.nbf, r.h.fNum);
    var h1 := StoreBuf(r.h, stamp, pixels);
    assert SwapBuf(h1).mem == h1.mem;
  }

  /** Storing a frame keeps every stored frame, in order: the frame joins
      the current half, and a half that fills up is handed to the main
      loop while the free half takes over. A frame that is skipped changes
      nothing that is stored. */
  lemma BufferKeepsFrames(r: Rec, c: seq<Frame>, stamp: TimeVal, pixels: seq<Byte>, now: nat, entry: int)
    requires Ready(r, c) && |pixels| >= r.h.frSize
    ensures var res := BufferStep(r, stamp, pixels, now, entry);
            var c' := c + [Frame(stamp, pixels[..r.h.frSize])];
            if res.1 then (Ready(res.0, c') && res.0.h.fNum == r.h.fNum + 1) ||
                          (Swapped(res.0, c') && r.h.fNum + 1 == r.h.nbf)
            else Ready(res.0, c)
  {
    if r.saveCount + 1 >= r.saveEvery {
      if r.h.fNum + 1 < r.h.nbf {
        BufferStoresInHalf(r, c, stamp, pixels, now, entry);
      } else {
        BufferStoresAndSwaps(r, c, stamp, pixels, now, entry);
      }
    }
  }

  /** Serving the flush of a full half writes that whole half to the file:
      the file is then every frame stored and the recorder is ready again. */
  lemma PendingWritesHalf(r: Rec, c: seq<Frame>)
    requires Swapped(r, c)
    ensures Ready(PendingStep(r, true), c)
    ensures PendingStep(r, true).file == c
  {
    var r' := PendingStep(r, true);
    assert FramesToFlush(r.numFrames, r.h.nbf) == r.h.nbf;
    assert Slots(r'.h.mem, Base(r'.h.buf, r'.h.nbf), 0) == [];
  }

  /** The flush of video_flush_buffer as the main loop means it: the whole
      half b, nbf frames. */
  function FlushHalfStep(r: Rec, b: nat, writeOk: bool): (r': Rec)
    requires WellFormed(r) && b < 2
    ensures WellFormed(r')
    ensures r.hasBuffer && r.fileOpen && writeOk ==> r'.file == r.file + Slots(r.h.mem, Base(b, r.h.nbf), r.h.nbf)
  {
    if !r.hasBuffer then r else WriteHalf(r, b, r.h.nbf, writeOk)
  }

  /** The main loop's service of a flush request with the whole-half
      flush. */
  function PendingHalfStep(r: Rec, writeOk: bool): (r': Rec)
    requires WellFormed(r)
    ensures WellFormed(r')
    ensures !r.req.pending ==> r' == r
  {
    if r.req.pending then FlushHalfStep(r.(req := r.req.(pending := false)), r.req.half, writeOk) else r
  }

  /** A frame stored after the swap but before the main loop serves the
      flush goes to the free half, and the request stays pending. */
  lemma StoreWhilePending(r: Rec, c: seq<Frame>, stamp: TimeVal, pixels: seq<Byte>, now: nat, entry: int)
    requires Swapped(r, c) && |pixels| >= r.h.frSize && r.h.nbf >= 2 && r.saveCount + 1 >= r.saveEvery
    ensures var r1 := BufferStep(r, stamp, pixels, now, entry).0;
      WellFormed(r1) && r1.hasBuffer && r1.fileOpen && r1.req == r.req && r1.file == r.file &&
      r1.h.nbf == r.h.nbf && r1.numFrames % r1.h.nbf == 1 &&
      Slots(r1.h.mem, Base(r.req.half, r.h.nbf), r.h.nbf) == Slots(r.h.mem, Base(r.req.half, r.h.nbf), r.h.nbf)
  {
    var r1 := BufferStep(r, stamp, pixels, now, entry).0;
    CountStep(r.numFrames, r.h.nbf, 0);
    var hb := Base(r.req.half, r.h.nbf);
    var w := Base(r.h.buf, r.h.nbf);
    assert r1.h.mem == r.h.mem[w := Frame(stamp, pixels[..r.h.frSize])];
    var a := Slots(r1.h.mem, hb, r.h.nbf);
    var b := Slots(r.h.mem, hb, r.h.nbf);
    assert forall k :: 0 <= k < r.h.nbf ==> a[k] == b[k];
  }

  /** As written, a flush the main loop serves only after one more frame
      has been stored writes a single frame of the full half, since
      num_frames % nbf now counts the frames of the other half: the other
      nbf - 1 frames of the full half never reach the file. */
  lemma LateFlushCutsHalf(r: Rec, c: seq<Frame>, stamp: TimeVal, pixels: seq<Byte>, now: nat, entry: int)
    requires Swapped(r, c) && |pixels| >= r.h.frSize && r.h.nbf >= 2 && r.saveCount + 1 >= r.saveEvery
    ensures var r1 := BufferStep(r, stamp, pixels, now, entry).0;
      r1.req.pending &&
      PendingStep(r1, true).file == r.file + Slots(r.h.mem, Base(r.req.half, r.h.nbf), 1) &&
      |PendingStep(r1, true).file| == |c| - (r.h.nbf - 1)
  {
    var r1 := BufferStep(r, stamp, pixels, now, entry).0;
    StoreWhilePending(r, c, stamp, pixels, now, entry);
    var hb := Base(r.req.half, r.h.nbf);
    assert FramesToFlush(r1.numFrames, r1.h.nbf) == 1;
    var s1 := Slots(r1.h.mem, hb, r.h.nbf);
    assert Slots(r1.h.mem, hb, 1) == [s1[0]] == Slots(r.h.mem, hb, 1);
  }

  /** With the whole-half flush, the same late service writes the full
      half: the file is again every frame stored up to the swap. */
  lemma LateFlushFixedKeepsHalf(r: Rec, c: seq<Frame>, stamp: TimeVal, pixels: seq<Byte>, now: nat, entry: int)
    requires Swapped(r, c) && |pixels| >= r.h.frSize && r.h.nbf >= 2 && r.saveCount + 1 >= r.saveEvery
    ensures PendingHalfStep(BufferStep(r, stamp, pixels, now, entry).0, true).file == c
  {
    StoreWhilePending(r, c, stamp, pixels, now, entry);
  }

  /** With no flush pending the main loop changes nothing. */
  lemma PendingIdle(r: Rec, c: seq<Frame>, writeOk: bool)
    requires Ready(r, c)
    ensures PendingStep(r, writeOk) == r
  {
  }

  /** Stopping writes the current half's frames, but when that half is
      empty (the frames stored are a multiple of nbf) the count of
      video_flush_buffer is a whole half, so nbf frames that were not
      stored since the last swap follow the stored ones in the file. */
  lemma StopAppendsStale(r: Rec, c: seq<Frame>)
    requires Ready(r, c)
    ensures StopStep(r, true).file ==
              c + (if r.h.fNum == 0 then Slots(r.h.mem, Base(r.h.buf, r.h.nbf), r.h.nbf) else [])
    ensures r.h.fNum == 0 ==> |StopStep(r, true).file| == |c| + r.h.nbf
  {
    if r.h.fNum == 0 {
      assert Slots(r.h.mem, Base(r.h.buf, r.h.nbf), 0) == [];
    }
  }

  /** Stopping before any frame was stored writes a whole half of zeroed
      frames. */
  lemma StopAtOnceWritesBlanks(r: Rec)
    requires Started(r)
    ensures var f := StopStep(r, true).file;
            |f| == r.h.nbf && forall k :: 0 <= k < |f| ==> f[k] == Blank(r.h.frSize)
  {
    assert FramesToFlush(0, r.h.nbf) == r.h.nbf;
  }

  /** The corrected stop leaves exactly the stored frames in the file. */
  lemma StopFixedKeepsFrames(r: Rec, c: seq<Frame>)
    requires Ready(r, c)
    ensures StopFixedStep(r, true).file == c
    ensures !StopFixedStep(r, true).hasBuffer && !StopFixedStep(r, true).fileOpen
  {
  }

  /** Stopping at once with the corrected count leaves the file empty. */
  lemma StopFixedAtOnceEmpty(r: Rec)
    requires Started(r)
    ensures StopFixedStep(r, true).file == []
  {
    assert Slots(r.h.mem, 0, 0) == [];
  }

  // ---------------------------------------------------------------------
  // The recorder, updated in place; each operation is proved against its
  // step function above.
  // ---------------------------------------------------------------------

  /** The double buffer's fields. */
  class Halves {
    var nbf: nat
    var frSize: nat
    var buf: nat
    var fNum: nat
    const ptr: array<nat>
    const flushed: array<bool>
    var mem: map<nat, Frame>

    function State(): (r: Buf)
      reads this, ptr, flushed
    {
      Buf(nbf, frSize, buf, fNum, ptr[..], flushed[..], mem)
    }

    constructor ()
      ensures State() == Buf(0, 0, 0, 0, [0, 0], [false, false], map[])
      ensures fresh(ptr) && fresh(flushed)
    {
      nbf, frSize, buf, fNum := 0, 0, 0, 0;
      ptr := new nat[2](_ => 0);
      flushed := new bool[2](_ => false);
      mem := map[];
      new;
      assert ptr[..] == [0, 0] && flushed[..] == [false, false];
    }

    method Reset(n: nat, bytes: nat)
      requires flushed.Length == 2
      modifies this, flushed
      ensures State() == ResetBuf(old(State()), n, bytes)
    {
      nbf, frSize, buf := n, bytes, 0;
      flushed[0] := true;
      flushed[1] := true;
      assert flushed[..] == [true, true];
    }

    method Alloc()
      requires ptr.Length == 2
      modifies this, ptr
      ensures State() == AllocBuf(old(State()))
    {
      mem := BlankSlots(2 * nbf, frSize);
      ptr[0] := 0;
      ptr[1] := nbf;
      assert ptr[..] == [0, nbf];
    }

    method ClearCount()
      modifies this
      ensures State() == old(State()).(fNum := 0)
    {
      fNum := 0;
    }

    method Store(stamp: TimeVal, pixels: seq<Byte>)
      requires Shaped(State()) && |pixels| >= frSize
      modifies this, ptr
      ensures State() == StoreBuf(old(State()), stamp, pixels)
    {
      var p := ptr[buf];
      mem := mem[p := Frame(stamp, pixels[..frSize])];
      ptr[buf] := p + 1;
      fNum := fNum + 1;
    }

    method Swap()
      requires Shaped(State())
      modifies this, ptr, flushed
      ensures State() == SwapBuf(old(State()))
    {
      fNum := 0;
      buf := 1 - buf;
      if flushed[buf] {
        ptr[buf] := Base(buf, nbf);
        flushed[buf] := false;
      }
    }

    method SetFlushed(b: nat)
      requires Shaped(State()) && b < 2
      modifies flushed
      ensures State() == MarkFlushed(old(State()), b)
    {
      flushed[b] := true;
    }
  }

  /** The main loop's flush request (loop.c). */
  class FlushRequest {
    var pending: bool
    var half: nat

    constructor ()
      ensures !pending && half == 0
    {
      pending, half := false, 0;
    }

    /** loop_LiveView_flush_to_disk */
    method Request(b: nat)
      modifies this
      ensures pending && half == b
    {
      pending, half := true, b;
    }
  }

  class Recorder {
    var hasBuffer: bool
    var fileOpen: bool
    var record: bool
    var firstFrame: bool
    var numFrames: nat
    var saveEvery: int
    var saveCount: int
    var start: nat
    var latest: nat
    var file: seq<Frame>
    const halves: Halves
    const loop: FlushRequest

    function State(): (r: Rec)
      reads this, halves, halves.ptr, halves.flushed, loop
    {
      Rec(hasBuffer, fileOpen, record, firstFrame, numFrames, saveEvery, saveCount,
          start, latest, file, halves.State(), Req(loop.pending, loop.half))
    }

    predicate Valid()
      reads this, halves, halves.ptr, halves.flushed, loop
    {
      WellFormed(State())
    }

    /** video_init, with the statics at their initial values: no buffer,
        no file, nothing pending. */
    constructor ()
      ensures Valid() && !hasBuffer && !fileOpen && !record && !loop.pending
      ensures halves.fNum == 0 && saveEvery == 0 && saveCount == 0 && file == []
      ensures fresh(halves) && fresh(halves.ptr) && fresh(halves.flushed) && fresh(loop)
    {
      hasBuffer, fileOpen, record, firstFrame := false, false, false, false;
      numFrames, saveEvery, saveCount, start, latest := 0, 0, 0, 0, 0;
      file := [];
      halves := new Halves();
      loop := new FlushRequest();
    }

    /** video_record_start. */
    method Start(n: UShort, frameBytes: nat, openOk: bool, headerOk: bool) returns (ok: bool)
      requires Valid()
      modifies this, halves, halves.ptr, halves.flushed
      ensures (State(), ok) == StartStep(old(State()), n, frameBytes, openOk, headerOk)
    {
      ghost var r0 := State();
      fileOpen, hasBuffer, numFrames, firstFrame := false, false, 0, true;
      halves.Reset(n, frameBytes);
      assert State() == r0.(fileOpen := false, hasBuffer := false, numFrames := 0, firstFrame := true,
                            h := ResetBuf(r0.h, n, frameBytes));
      var size := (2 * n * (FRAME_HEADER_SIZE + frameBytes)) % 0x1_0000_0000;
      ok := Open(size, openOk, headerOk);
    }

    /** The allocation, the fopen and the header write of
        video_record_start. */
    method Open(size: nat, openOk: bool, headerOk: bool) returns (ok: bool)
      requires Valid() && !hasBuffer && firstFrame && (size != 0 ==> halves.nbf >= 1)
      modifies this, halves, halves.ptr
      ensures (State(), ok) == OpenStep(old(State()), size, openOk, headerOk)
    {
      if size == 0 {
        record := false;
        return false;
      }
      hasBuffer := true;
      halves.Alloc();
      if !openOk {
        record := false;
        return false;
      }
      fileOpen, file := true, [];
      if !headerOk {
        record := false;
        return false;
      }
      ok := true;
    }

    /** video_buffer_frame. */
    method BufferFrame(stamp: TimeVal, pixels: seq<Byte>, now: nat, entry: int) returns (stored: bool)
      requires Valid() && |pixels| >= halves.frSize
      modifies this, halves, halves.ptr, halves.flushed, loop
      ensures (State(), stored) == BufferStep(old(State()), stamp, pixels, now, entry)
    {
      if !hasBuffer {
        return false;
      }
      if firstFrame {
        halves.ClearCount();
        saveCount, saveEvery, start, firstFrame := 0, entry, now, false;
        return false;
      }
      saveCount := saveCount + 1;
      if saveCount < saveEvery {
        return false;
      }
      StoreFrame(stamp, pixels, now);
      stored := true;
    }

    /** The storing part of video_buffer_frame. */
    method StoreFrame(stamp: TimeVal, pixels: seq<Byte>, now: nat)
      requires Valid() && |pixels| >= halves.frSize
      modifies this, halves, halves.ptr, halves.flushed, loop
      ensures State() == StoreStep(old(State()), stamp, pixels, now)
    {
      saveCount, numFrames, latest := 0, numFrames + 1, now;
      halves.Store(stamp, pixels);
      if halves.fNum == halves.nbf {
        loop.Request(halves.buf);
        halves.Swap();
      }
    }

    /** video_flush_buffer. */
    method FlushBuffer(b: nat, writeOk: bool)
      requires Valid() && b < 2
      modifies this, halves.flushed
      ensures State() == FlushStep(old(State()), b, writeOk)
    {
      if !hasBuffer {
        return;
      }
      var count := FramesToFlush(numFrames, halves.nbf);
      if fileOpen {
        if !writeOk {
          record := false;
        } else {
          file := file + Slots(halves.mem, Base(b, halves.nbf), count);
          halves.SetFlushed(b);
        }
      }
    }

    /** The main loop's service of a flush request (loop.c:1536-1540). */
    method FlushPending(writeOk: bool)
      requires Valid()
      modifies this, halves.flushed, loop
      ensures State() == PendingStep(old(State()), writeOk)
    {
      if loop.pending {
        loop.pending := false;
        FlushBuffer(loop.half, writeOk);
      }
    }

    /** video_record_stop. */
    method Stop(writeOk: bool)
      requires Valid()
      modifies this, halves.flushed
      ensures State() == StopStep(old(State()), writeOk)
    {
      FlushBuffer(halves.buf, writeOk);
      fileOpen, hasBuffer := false, false;
    }
  }
}
