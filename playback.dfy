// GoQat's video playback (video.c): a recorded file is opened, its frames
// are read back by number and shown as 3 x 8-bit grey pixels, and the time
// stamps of a marked range of frames can be rewritten at the fixed
// increment between its first two frames, a batch of frames per main-loop
// call.
//
// The file is the sequence of frames after its header; the file position
// is counted in whole frames, and midFrame marks the position just after
// a time stamp written into a frame.

module Playback {
  import opened Bytes
  import opened Video

  /** rp.fp, rp.vid_buf, rp.num_frames, rp.fr_size, the frames of the file
      and the file position: pos frames lie before it, and midFrame says it
      is just past the time stamp of the frame at pos. */
  datatype Reel = Reel(open: bool, hasBuf: bool, numFrames: nat, frSize: nat,
                       frames: seq<Frame>, pos: nat, midFrame: bool)

  /** rp.cur_frame, rp.disp_frame and rp.tv, the time stamp last read. */
  datatype View = View(cur: nat, disp: nat, tv: TimeVal)

  /** The time-stamp run: whether the main loop iterates over frames,
      whether VA_FT is set, rp.mark_first, rp.mark_last, rp.first_time and
      rp.incr_time. */
  datatype Marks = Marks(iterating: bool, stamping: bool, first: nat, last: nat,
                         firstTime: TimeVal, incr: TimeVal)

  /** The playback state, with the display buffer vid->disp_8_3. */
  datatype Play = Play(reel: Reel, view: View, marks: Marks, shown: seq<Byte>)

  /** The outcome of one seek and one read: whether fseeko and fread
      succeed, and what fread returns when the position is not at the
      start of a frame. */
  datatype Io = Io(seekOk: bool, readOk: bool, straddle: Frame)

  // ---------------------------------------------------------------------
  // Showing a frame
  // ---------------------------------------------------------------------

  /** The grey pixels expanded to three equal bytes each. */
  function Grey3(s: seq<Byte>): (g: seq<Byte>)
    ensures |g| == 3 * |s|
    ensures forall i :: 0 <= i < |s| ==> g[3 * i] == s[i] && g[3 * i + 1] == s[i] && g[3 * i + 2] == s[i]
  {
    seq(3 * |s|, m requires 0 <= m < 3 * |s| => s[m / 3])
  }

  /** video_show_frame's expansion loop: each pixel copied to three
      consecutive bytes of the display buffer. */
  method Expand(pixels: seq<Byte>, disp: array<Byte>)
    requires disp.Length == 3 * |pixels|
    modifies disp
    ensures disp[..] == Grey3(pixels)
  {
    var d := 0;
    var i := 0;
    while i < |pixels|
      invariant 0 <= i <= |pixels| && d == 3 * i
      invariant forall m :: 0 <= m < d ==> disp[m] == pixels[m / 3]
    {
      var j := 0;
      while j < 3
        invariant 0 <= j <= 3 && d == 3 * i + j
        invariant forall m :: 0 <= m < d ==> disp[m] == pixels[m / 3]
      {
        assert d / 3 == i;
        disp[d] := pixels[i];
        d, j := d + 1, j + 1;
      }
      i := i + 1;
    }
    assert forall m :: 0 <= m < disp.Length ==> disp[m] == Grey3(pixels)[m];
  }

  /** The seek of video_show_frame (made unless k is the frame after
      cur_frame) and its fread: the new file and the frame read, if any. */
  function Fetch(r: Reel, cur: nat, k: nat, io: Io): (res: (Reel, Option<Frame>))
    requires k >= 1
    ensures res.0.frames == r.frames && res.0.frSize == r.frSize && res.0.numFrames == r.numFrames
    ensures res.0.open == r.open && res.0.hasBuf == r.hasBuf
    ensures k != cur + 1 && io.seekOk && io.readOk && k - 1 < |r.frames| ==>
              res == (r.(pos := k, midFrame := false), Some(r.frames[k - 1]))
    ensures k != cur + 1 && !io.seekOk ==> res == (r, None)
  {
    var seek := k != cur + 1;
    if seek && !io.seekOk then (r, None)
    else
      var r1 := if seek then r.(pos := k - 1, midFrame := false) else r;
      if !io.readOk then (r1, None)
      else if r1.midFrame then
        if r1.pos + 1 < |r1.frames| then (r1.(pos := r1.pos + 1), Some(io.straddle)) else (r1, None)
      else if r1.pos < |r1.frames| then (r1.(pos := r1.pos + 1), Some(r1.frames[r1.pos]))
      else (r1, None)
  }

  /** video_show_frame(k): a frame number outside [1, num_frames], or no
      open file or frame buffer, is refused and ends the frame iteration;
      the frame already displayed is accepted at once; otherwise the frame
      is read, and on success displayed and made the current frame. */
  function ShowStep(p: Play, k: nat, io: Io): (res: (Play, bool))
    ensures res.0.reel.frames == p.reel.frames && res.0.reel.frSize == p.reel.frSize
    ensures res.0.reel.numFrames == p.reel.numFrames
    ensures res.0.reel.open == p.reel.open && res.0.reel.hasBuf == p.reel.hasBuf
    ensures res.1 ==> 1 <= k <= p.reel.numFrames && p.reel.open && p.reel.hasBuf
    ensures !res.1 ==> !res.0.marks.iterating && res.0.view == p.view && res.0.shown == p.shown
    ensures (k < 1 || k > p.reel.numFrames) ==> res == (p.(marks := p.marks.(iterating := false)), false)
    ensures 1 <= k <= p.reel.numFrames && p.reel.open && p.reel.hasBuf && k == p.view.disp ==> res == (p, true)
  {
    if k < 1 || k > p.reel.numFrames || !p.reel.open || !p.reel.hasBuf then
      (p.(marks := p.marks.(iterating := false)), false)
    else if k == p.view.disp then (p, true)
    else
      var f := Fetch(p.reel, p.view.cur, k, io);
      if f.1.None? then (p.(reel := f.0, marks := p.marks.(iterating := false)), false)
      else (Play(f.0, View(k, k, f.1.value.stamp), p.marks, Grey3(f.1.value.pixels)), true)
  }

  /** The file position agrees with cur_frame: it lies just after frame
      cur, so that the frame after it is read without a seek. */
  predicate Synced(p: Play)
  {
    p.reel.open && p.reel.hasBuf && !p.reel.midFrame && p.reel.numFrames == |p.reel.frames| &&
    p.reel.pos == p.view.cur <= p.reel.numFrames && (p.view.disp == p.view.cur || p.view.disp == 0)
  }

  /** The displayed frame's stamp is rp.tv and its pixels are shown. */
  predicate Shows(p: Play)
  {
    1 <= p.view.disp <= |p.reel.frames| ==>
      p.view.tv == p.reel.frames[p.view.disp - 1].stamp &&
      p.shown == Grey3(p.reel.frames[p.view.disp - 1].pixels)
  }

  /** From a synced state every frame in range is shown with its own stamp
      and pixels, whether it is read after a seek, read without one because
      it is the next frame, or already displayed; and the state stays
      synced. */
  lemma ShowReads(p: Play, k: nat, io: Io)
    requires Synced(p) && Shows(p) && 1 <= k <= p.reel.numFrames
    requires io.readOk && (k != p.view.cur + 1 ==> io.seekOk)
    ensures ShowStep(p, k, io).1
    ensures var q := ShowStep(p, k, io).0;
      q.view == View(k, k, p.reel.frames[k - 1].stamp) && q.shown == Grey3(p.reel.frames[k - 1].pixels) &&
      Synced(q) && Shows(q) && q.marks == p.marks
  {
    if k != p.view.disp && k == p.view.cur + 1 {
      assert p.reel.pos == k - 1;
    }
  }

  /** video_get_frame_number */
  function FrameNumber(p: Play): (n: nat)
  {
    if p.reel.open then p.view.cur else 0
  }

  /** video_show_next: cur_frame is incremented, then shown. */
  function NextStep(p: Play, io: Io): (q: Play)
    ensures q.reel.frames == p.reel.frames
  {
    var k := p.view.cur + 1;
    ShowStep(p.(view := p.view.(cur := k)), k, io).0
  }

  /** video_show_prev: above frame 1, cur_frame is decremented, then
      shown. */
  function PrevStep(p: Play, io: Io): (q: Play)
    ensures q.reel.frames == p.reel.frames
  {
    if p.view.cur > 1 then
      var k := p.view.cur - 1;
      ShowStep(p.(view := p.view.(cur := k)), k, io).0
    else p
  }

  /** Next shows the frame after the current one, read after a seek. */
  lemma NextShowsNext(p: Play, io: Io)
    requires Synced(p) && Shows(p) && p.view.cur < p.reel.numFrames && io.seekOk && io.readOk
    ensures var q := NextStep(p, io);
      Synced(q) && Shows(q) && q.view == View(p.view.cur + 1, p.view.cur + 1, p.reel.frames[p.view.cur].stamp)
  {
    var k := p.view.cur + 1;
    var p' := p.(view := p.view.(cur := k));
    var f := Fetch(p'.reel, k, k, io);
    assert f == (p.reel.(pos := k, midFrame := false), Some(p.reel.frames[k - 1]));
    assert NextStep(p, io) == Play(f.0, View(k, k, p.reel.frames[k - 1].stamp), p.marks, Grey3(p.reel.frames[k - 1].pixels));
  }

  /** Prev shows the frame before the current one. */
  lemma PrevShowsPrev(p: Play, io: Io)
    requires Synced(p) && Shows(p) && p.view.cur > 1 && io.seekOk && io.readOk
    ensures var q := PrevStep(p, io);
      Synced(q) && Shows(q) && q.view == View(p.view.cur - 1, p.view.cur - 1, p.reel.frames[p.view.cur - 2].stamp)
  {
    var k := p.view.cur - 1;
    var p' := p.(view := p.view.(cur := k));
    var f := Fetch(p'.reel, k, k, io);
    assert f == (p.reel.(pos := k, midFrame := false), Some(p.reel.frames[k - 1]));
    assert PrevStep(p, io) == Play(f.0, View(k, k, p.reel.frames[k - 1].stamp), p.marks, Grey3(p.reel.frames[k - 1].pixels));
  }

  /** Next on the last displayed frame is refused but leaves cur_frame one
      past the end; Prev then brings back the state as it was, without any
      I/O, except that the iteration has stopped. */
  lemma NextAtEndAndBack(p: Play, io: Io, io': Io)
    requires Synced(p) && p.view.cur == p.reel.numFrames == p.view.disp && p.view.cur >= 1
    ensures NextStep(p, io).view.cur == p.reel.numFrames + 1
    ensures PrevStep(NextStep(p, io), io') == p.(marks := p.marks.(iterating := false))
  {
  }

  // ---------------------------------------------------------------------
  // Opening and closing
  // ---------------------------------------------------------------------

  /** video_close_file: the file, the frame buffer and the display buffer
      are released. */
  function CloseFileStep(p: Play): (q: Play)
    ensures !q.reel.open && !q.reel.hasBuf && q.shown == []
    ensures q.view == p.view && q.marks == p.marks && q.reel.frames == p.reel.frames
  {
    p.(reel := p.reel.(open := false, hasBuf := false), shown := [])
  }

  /** video_open_file of a file holding frames of h x v pixels: the
      previous file is closed; fopen, the header read and the header's id
      check can fail, g_malloc0 of an empty picture gives no display
      buffer, and a file without a frame fails its first read; otherwise
      frame 1 is read and shown and is the current frame. */
  function OpenFileStep(p: Play, frames: seq<Frame>, h: nat, v: nat, openOk: bool, headerOk: bool, idOk: bool)
    : (res: (Play, bool))
    ensures res.1 <==> openOk && headerOk && idOk && h * v != 0 && |frames| != 0
    ensures res.1 ==> Synced(res.0) && Shows(res.0) && FrameNumber(res.0) == 1
    ensures res.1 ==> res.0.reel.frames == frames && res.0.reel.frSize == h * v && res.0.view.tv == frames[0].stamp
    ensures res.1 ==> res.0.shown == Grey3(frames[0].pixels)
    ensures !res.1 ==> !res.0.reel.open && !res.0.reel.hasBuf
  {
    var c := CloseFileStep(p).(view := p.view.(cur := 1, disp := 0));
    if !openOk || !headerOk || !idOk || h * v == 0 || |frames| == 0 then (c, false)
    else
      (Play(Reel(true, true, |frames|, h * v, frames, 1, false), View(1, 0, frames[0].stamp),
            p.marks, Grey3(frames[0].pixels)), true)
  }

  // ---------------------------------------------------------------------
  // Rewriting time stamps
  // ---------------------------------------------------------------------

  /** The (gint) casts of a struct timeval's fields. */
  function Gint(t: TimeVal): (g: TimeVal)
    ensures InGint(g)
    ensures InGint(t) ==> g == t
  {
    TimeVal(ToInt32(t.sec), ToInt32(t.usec))
  }

  /** Two normal time stamps with the same count of microseconds are the
      same. */
  lemma NormalUnique(a: TimeVal, b: TimeVal)
    requires Normal(a) && Normal(b) && Micros(a) == Micros(b)
    ensures a == b
  {
  }

  /** At the increment between two normal stamps, frame 0 of the run keeps
      the first stamp and frame 1 gets the second: rewriting the two frames
      the increment was taken from would change neither. */
  lemma FrameTimeStart(t1: TimeVal, t2: TimeVal)
    requires Normal(t1) && Normal(t2)
    ensures FrameTime(t1, Increment(t1, t2), 0) == t1
    ensures FrameTime(t1, Increment(t1, t2), 1) == t2
    ensures InGint(t1) && InGint(t2) ==>
              FrameTimeAsWritten(t1, Increment(t1, t2), 0) == t1 &&
              FrameTimeAsWritten(t1, Increment(t1, t2), 1) == t2
  {
    NormalUnique(FrameTime(t1, Increment(t1, t2), 0), t1);
    NormalUnique(FrameTime(t1, Increment(t1, t2), 1), t2);
    if InGint(t1) && InGint(t2) {
      AsWrittenExact(t1, Increment(t1, t2), 0);
      AsWrittenExact(t1, Increment(t1, t2), 1);
    }
  }

  /** video_set_timestamps: the entries must give 1 <= first <= num_frames
      and first + 1 <= last <= num_frames, or nothing happens; then frames
      first and first + 1 are shown, the first stamp and the increment to
      the second are kept as gints, cur_frame is moved on by one so that
      the file position is at its start, and the main loop starts the
      VA_FT iteration. */
  function SetStampsStep(p: Play, first: int, last: int, io1: Io, io2: Io): (q: Play)
    ensures q.reel.frames == p.reel.frames
    ensures !(1 <= first <= p.reel.numFrames && first + 1 <= last <= p.reel.numFrames) ==> q == p
    ensures 1 <= first <= p.reel.numFrames && first + 1 <= last <= p.reel.numFrames ==>
              q.marks.stamping && q.marks.iterating && q.marks.first == first && q.marks.last == last
  {
    if !(1 <= first <= p.reel.numFrames && first + 1 <= last <= p.reel.numFrames) then p
    else
      var p2 := ShowStep(p.(marks := p.marks.(first := first, last := last)), first, io1).0;
      Arm(ShowStep(p2, first + 1, io2).0, Gint(p2.view.tv))
  }

  /** video_set_timestamps in range, as the two frame reads and the arming
      one after the other. */
  lemma SetStampsSteps(p: Play, first: int, last: int, io1: Io, io2: Io, p1: Play, p2: Play)
    requires 1 <= first <= p.reel.numFrames && first + 1 <= last <= p.reel.numFrames
    requires p1 == p.(marks := p.marks.(first := first, last := last))
    requires p2 == ShowStep(p1, first, io1).0
    ensures SetStampsStep(p, first, last, io1, io2) == Arm(ShowStep(p2, first + 1, io2).0, Gint(p2.view.tv))
  {
  }

  /** The end of video_set_timestamps, with the second marked frame read:
      the increment from the first stamp ft to rp.tv is kept, cur_frame
      moves on by one, and the VA_FT iteration starts. */
  function Arm(p: Play, ft: TimeVal): (q: Play)
    ensures q.reel == p.reel && q.shown == p.shown && q.view.disp == p.view.disp
    ensures q.marks.stamping && q.marks.iterating && q.marks.first == p.marks.first && q.marks.last == p.marks.last
  {
    p.(view := p.view.(cur := p.view.cur + 1),
       marks := p.marks.(firstTime := ft, incr := Increment(ft, Gint(p.view.tv)), stamping := true, iterating := true))
  }

  /** The frames numbered a through b - 1 (counting from 1) with the
      stamps of a run from frame mark, as the gint arithmetic of
      video_iter_frames computes them. */
  function Restamped(f: seq<Frame>, first: TimeVal, incr: TimeVal, mark: nat, a: nat, b: nat): (s: seq<Frame>)
    requires mark <= a
    ensures |s| == |f|
    ensures forall i :: 0 <= i < |f| ==> s[i].pixels == f[i].pixels
  {
    seq(|f|, i requires 0 <= i < |f| =>
          if a <= i + 1 < b then f[i].(stamp := FrameTimeAsWritten(first, incr, i + 1 - mark)) else f[i])
  }

  /** A run restamped up to frame c, with frame c then stamped, is the run
      restamped up to frame c + 1. */
  lemma RestampedStep(f: seq<Frame>, first: TimeVal, incr: TimeVal, mark: nat, a: nat, c: nat)
    requires mark <= a <= c && 1 <= c <= |f|
    ensures var s := Restamped(f, first, incr, mark, a, c);
      s[c - 1 := s[c - 1].(stamp := FrameTimeAsWritten(first, incr, c - mark))] == Restamped(f, first, incr, mark, a, c + 1)
  {
  }

  /** Restamping a run in two pieces restamps it whole. */
  lemma RestampedTwice(f: seq<Frame>, first: TimeVal, incr: TimeVal, mark: nat, a: nat, b: nat, c: nat)
    requires mark <= a <= b <= c
    ensures Restamped(Restamped(f, first, incr, mark, a, b), first, incr, mark, b, c)
            == Restamped(f, first, incr, mark, a, c)
  {
  }

  /** The state video_iter_frames's VA_FT branch continues from: an open
      file, a range of at least two frames, cur_frame past its first two
      and at most one past its end, and, unless the range is done, the
      file position at the start of frame cur_frame. */
  predicate Batching(p: Play)
  {
    p.reel.open && 1 <= p.marks.first && p.marks.first + 2 <= p.view.cur <= p.marks.last + 1 &&
    p.marks.last <= p.reel.numFrames == |p.reel.frames| &&
    (p.view.cur <= p.marks.last ==> !p.reel.midFrame && p.reel.pos == p.view.cur - 1)
  }

  /** Every frame of the run before frame n has the run's stamp. */
  predicate StampedTo(p: Play, n: nat)
  {
    forall j :: 0 <= j < |p.reel.frames| && p.marks.first <= j + 1 < n ==>
      p.reel.frames[j].stamp == FrameTimeAsWritten(p.marks.firstTime, p.marks.incr, j + 1 - p.marks.first)
  }

  /** What one batch leaves: the frames, the file position, cur_frame,
      rp.tv, whether the run is done and whether every write went
      through. */
  datatype Run = Run(frames: seq<Frame>, pos: nat, midFrame: bool, cur: nat, tv: TimeVal,
                     done: bool, ok: bool)

  /** One call of video_iter_frames's VA_FT branch, with the fwrite of the
      fails-th frame of the batch failing (none fails when fails is at
      least the batch size): the frames from cur_frame up to the batch's
      end or the run's end are stamped, the file position moves to the
      start of the next one, and a run that is done leaves cur_frame on its
      last frame. A failing write ends the call with the frames before it
      stamped and cur_frame on it. */
  function BatchRun(p: Play, fails: nat): (run: Run)
    requires Batching(p)
    ensures |run.frames| == |p.reel.frames|
    ensures run.done ==> run.ok && run.cur == p.marks.last
    ensures !run.ok ==> !run.done && run.cur == p.view.cur + fails <= p.marks.last
    ensures run.ok && !run.done ==> run.cur == p.view.cur + BATCH <= p.marks.last + 1
  {
    var m := p.marks;
    var next := p.view.cur;
    var stop := if m.last + 1 < next + BATCH then m.last + 1 else next + BATCH;
    if fails < stop - next then
      var c := next + fails;
      Run(Restamped(p.reel.frames, m.firstTime, m.incr, m.first, next, c), c - 1, false,
          c, FrameTimeAsWritten(m.firstTime, m.incr, c - m.first), false, false)
    else
      var fr := Restamped(p.reel.frames, m.firstTime, m.incr, m.first, next, stop);
      var done := m.last + 1 < next + BATCH;
      var cur := if done then m.last else next + BATCH;
      if stop == next then Run(fr, p.reel.pos, p.reel.midFrame, cur, p.view.tv, done, true)
      else
        var tv := FrameTimeAsWritten(m.firstTime, m.incr, stop - 1 - m.first);
        if stop - 1 < m.last then Run(fr, stop - 1, false, cur, tv, done, true)
        else Run(fr, m.last - 1, true, cur, tv, done, true)
  }

  /** The batch's outcome in the playback state; a run that is done ends
      the iteration. */
  function BatchStep(p: Play, fails: nat): (res: (Play, bool))
    requires Batching(p)
    ensures res.0.reel.(frames := p.reel.frames, pos := p.reel.pos, midFrame := p.reel.midFrame) == p.reel
    ensures res.0.view.disp == p.view.disp && res.0.shown == p.shown
    ensures res.0.marks.(iterating := p.marks.iterating) == p.marks
    ensures res.0.marks.iterating ==> p.marks.iterating
  {
    var run := BatchRun(p, fails);
    (p.(reel := p.reel.(frames := run.frames, pos := run.pos, midFrame := run.midFrame),
        view := p.view.(cur := run.cur, tv := run.tv),
        marks := p.marks.(iterating := p.marks.iterating && !run.done)), run.ok)
  }

  /** The loop of video_iter_frames's VA_FT branch: for cur_frame from its
      value on, up to BATCH frames, the end of the run stops the loop one
      frame back; otherwise the frame's stamp is computed from the first
      stamp and the increment, written at the file position, and the
      position moved on to the next frame unless this was the last one. */
  method StampFrames(p: Play, fails: nat) returns (run: Run)
    requires Batching(p)
    ensures run == BatchRun(p, fails)
  {
    var m := p.marks;
    var next := p.view.cur;
    var fr := p.reel.frames;
    var pos, mid := p.reel.pos, p.reel.midFrame;
    var tv := p.view.tv;
    var c := next;
    while c < next + BATCH
      invariant next <= c <= next + BATCH && c <= m.last + 1
      invariant fr == Restamped(p.reel.frames, m.firstTime, m.incr, m.first, next, c)
      invariant c <= m.last ==> !mid && pos == c - 1
      invariant c == m.last + 1 && c > next ==> mid && pos == m.last - 1
      invariant c == next ==> pos == p.reel.pos && mid == p.reel.midFrame && tv == p.view.tv
      invariant c > next ==> tv == FrameTimeAsWritten(m.firstTime, m.incr, c - 1 - m.first)
      invariant c - next <= fails
      decreases next + BATCH - c
    {
      if c > m.last {
        BatchRunAtEnd(p, fails, c, fr, pos, mid, tv);
        return Run(fr, pos, mid, c - 1, tv, true, true);
      }
      var t := FrameTimeAsWritten(m.firstTime, m.incr, c - m.first);
      tv := t;
      if c - next == fails {
        BatchRunFailing(p, fails, c, fr, pos, mid);
        return Run(fr, pos, mid, c, tv, false, false);
      }
      RestampedStep(p.reel.frames, m.firstTime, m.incr, m.first, next, c);
      fr := fr[c - 1 := fr[c - 1].(stamp := t)];
      mid := true;
      if c < m.last {
        pos, mid := c, false;
      }
      c := c + 1;
    }
    BatchRunFull(p, fails, c, fr, pos, mid, tv);
    run := Run(fr, pos, mid, c, tv, false, true);
  }

  /** StampFrames stopping at the run's end gives the batch's outcome. */
  lemma BatchRunAtEnd(p: Play, fails: nat, c: nat, fr: seq<Frame>, pos: nat, mid: bool, tv: TimeVal)
    requires Batching(p)
    requires p.view.cur <= c < p.view.cur + BATCH && c == p.marks.last + 1 && c - p.view.cur <= fails
    requires fr == Restamped(p.reel.frames, p.marks.firstTime, p.marks.incr, p.marks.first, p.view.cur, c)
    requires c > p.view.cur ==>
      mid && pos == p.marks.last - 1 && tv == FrameTimeAsWritten(p.marks.firstTime, p.marks.incr, c - 1 - p.marks.first)
    requires c == p.view.cur ==> pos == p.reel.pos && mid == p.reel.midFrame && tv == p.view.tv
    ensures Run(fr, pos, mid, c - 1, tv, true, true) == BatchRun(p, fails)
  {
  }

  /** StampFrames stopping at a failing write gives the batch's outcome. */
  lemma BatchRunFailing(p: Play, fails: nat, c: nat, fr: seq<Frame>, pos: nat, mid: bool)
    requires Batching(p)
    requires p.view.cur <= c < p.view.cur + BATCH && c <= p.marks.last && c - p.view.cur == fails
    requires fr == Restamped(p.reel.frames, p.marks.firstTime, p.marks.incr, p.marks.first, p.view.cur, c)
    requires !mid && pos == c - 1
    ensures Run(fr, pos, mid, c, FrameTimeAsWritten(p.marks.firstTime, p.marks.incr, c - p.marks.first), false, false)
         == BatchRun(p, fails)
  {
  }

  /** StampFrames stopping after a whole batch gives the batch's outcome. */
  lemma BatchRunFull(p: Play, fails: nat, c: nat, fr: seq<Frame>, pos: nat, mid: bool, tv: TimeVal)
    requires Batching(p)
    requires c == p.view.cur + BATCH && c <= p.marks.last + 1 && c - p.view.cur <= fails
    requires fr == Restamped(p.reel.frames, p.marks.firstTime, p.marks.incr, p.marks.first, p.view.cur, c)
    requires c <= p.marks.last ==> !mid && pos == c - 1
    requires c == p.marks.last + 1 ==> mid && pos == p.marks.last - 1
    requires tv == FrameTimeAsWritten(p.marks.firstTime, p.marks.incr, c - 1 - p.marks.first)
    ensures Run(fr, pos, mid, c, tv, false, true) == BatchRun(p, fails)
  {
  }

  /** A batch keeps the run's other state, writes nothing outside the run,
      and leaves a state the next batch can continue from unless the run
      is done. */
  lemma BatchContinues(p: Play, fails: nat)
    requires Batching(p) && p.marks.iterating
    ensures var (q, ok) := BatchStep(p, fails);
      q.marks.first == p.marks.first && q.marks.last == p.marks.last &&
      q.marks.firstTime == p.marks.firstTime && q.marks.incr == p.marks.incr &&
      (q.marks.iterating || !ok ==> Batching(q)) &&
      (!q.marks.iterating && ok ==> q.view.cur == p.marks.last) &&
      (forall j :: 0 <= j < |p.reel.frames| && !(p.marks.first + 1 < j + 1 <= p.marks.last) ==>
         q.reel.frames[j] == p.reel.frames[j])
  {
  }

  /** A batch extends the stamped part of the run: up to cur_frame while
      the run goes on or after a failing write, and over the whole run when
      it is done. */
  lemma BatchStamps(p: Play, fails: nat)
    requires Batching(p) && p.marks.iterating && StampedTo(p, p.view.cur)
    ensures var (q, ok) := BatchStep(p, fails);
      StampedTo(q, if q.marks.iterating || !ok then q.view.cur else p.marks.last + 1)
  {
    var m := p.marks;
    var next := p.view.cur;
    var stop := if m.last + 1 < next + BATCH then m.last + 1 else next + BATCH;
    var (q, ok) := BatchStep(p, fails);
    var b := if q.marks.iterating || !ok then q.view.cur else m.last + 1;
    if fails < stop - next {
      assert b == next + fails;
    } else {
      assert b == stop;
    }
    assert q.reel.frames == Restamped(p.reel.frames, m.firstTime, m.incr, m.first, next, b);
    RestampedStampedTo(p, q, b);
  }

  /** Restamping the frames from cur_frame up to b, after a run stamped up
      to cur_frame, leaves the run stamped up to b. */
  lemma RestampedStampedTo(p: Play, q: Play, b: nat)
    requires StampedTo(p, p.view.cur) && p.marks.first <= p.view.cur
    requires q.marks.first == p.marks.first && q.marks.firstTime == p.marks.firstTime && q.marks.incr == p.marks.incr
    requires q.reel.frames == Restamped(p.reel.frames, p.marks.firstTime, p.marks.incr, p.marks.first, p.view.cur, b)
    ensures StampedTo(q, b)
  {
  }

  /** Wherever the gint arithmetic does not wrap, the stamps the batches
      write are the exact ones: the first stamp plus so many increments. */
  lemma StampedExact(p: Play, n: nat)
    requires StampedTo(p, n)
    ensures forall j :: 0 <= j < |p.reel.frames| && p.marks.first <= j + 1 < n &&
                        StampFits(p.marks.firstTime, p.marks.incr, j + 1 - p.marks.first) ==>
              p.reel.frames[j].stamp == FrameTime(p.marks.firstTime, p.marks.incr, j + 1 - p.marks.first)
  {
    forall j | 0 <= j < |p.reel.frames| && p.marks.first <= j + 1 < n &&
               StampFits(p.marks.firstTime, p.marks.incr, j + 1 - p.marks.first)
      ensures p.reel.frames[j].stamp == FrameTime(p.marks.firstTime, p.marks.incr, j + 1 - p.marks.first)
    {
      AsWrittenExact(p.marks.firstTime, p.marks.incr, j + 1 - p.marks.first);
    }
  }

  /** Marking a range of a synced file whose first two frames have normal
      stamps that fit gints, with the two reads succeeding (the second one
      needs no seek), leaves the state the first batch runs from, with
      those two frames already carrying the run's stamps. */
  lemma SetStampsReady(p: Play, first: int, last: int, io1: Io, io2: Io)
    requires Synced(p) && Shows(p) && 1 <= first && first + 1 <= last <= p.reel.numFrames
    requires io1.seekOk && io1.readOk && io2.readOk
    requires Normal(p.reel.frames[first - 1].stamp) && InGint(p.reel.frames[first - 1].stamp)
    requires Normal(p.reel.frames[first].stamp) && InGint(p.reel.frames[first].stamp)
    ensures var q := SetStampsStep(p, first, last, io1, io2);
      Batching(q) && StampedTo(q, first + 2) && q.view.cur == first + 2 && q.view.disp == first + 1
  {
    var p1 := p.(marks := p.marks.(first := first, last := last));
    ShowReads(p1, first, io1);
    var p2 := ShowStep(p1, first, io1).0;
    ShowReads(p2, first + 1, io2);
    var t1, t2 := p.reel.frames[first - 1].stamp, p.reel.frames[first].stamp;
    var p3 := ShowStep(p2, first + 1, io2).0;
    assert Gint(p2.view.tv) == t1;
    assert SetStampsStep(p, first, last, io1, io2) == Arm(p3, t1);
    ArmReady(p3, t1, t2);
  }

  /** Arming the run on the second marked frame, shown and synced, with
      the first stamp: the first batch can run, and the two frames carry
      the run's stamps. */
  lemma ArmReady(p: Play, t1: TimeVal, t2: TimeVal)
    requires Synced(p) && 1 <= p.marks.first && p.view.cur == p.marks.first + 1 <= p.marks.last <= p.reel.numFrames
    requires p.reel.frames[p.marks.first - 1].stamp == t1 && p.reel.frames[p.marks.first].stamp == t2
    requires Gint(p.view.tv) == t2
    requires Normal(t1) && InGint(t1) && Normal(t2) && InGint(t2)
    ensures Batching(Arm(p, t1)) && StampedTo(Arm(p, t1), p.marks.first + 2)
    ensures Arm(p, t1).view.cur == p.marks.first + 2
  {
    FrameTimeStart(t1, t2);
  }

  // ---------------------------------------------------------------------
  // The player
  // ---------------------------------------------------------------------

  /** The playback part of GoQat's rp structure, and vid->disp_8_3. */
  class Player {
    var reel: Reel
    var view: View
    var marks: Marks
    var rgb: array<Byte>

    function State(): (r: Play)
      reads this, rgb
    {
      Play(reel, view, marks, rgb[..])
    }

    /** An open file has its frame and display buffers, and every frame
        has fr_size pixels, three display bytes each. */
    predicate Valid()
      reads this, rgb
    {
      reel.open == reel.hasBuf &&
      (reel.open ==> rgb.Length == 3 * reel.frSize && reel.numFrames == |reel.frames| &&
                     forall i :: 0 <= i < |reel.frames| ==> |reel.frames[i].pixels| == reel.frSize)
    }

    constructor ()
      ensures Valid() && !reel.open && view == View(0, 0, TimeVal(0, 0)) && !marks.iterating
    {
      reel := Reel(false, false, 0, 0, [], 0, false);
      view := View(0, 0, TimeVal(0, 0));
      marks := Marks(false, false, 0, 0, TimeVal(0, 0), TimeVal(0, 0));
      rgb := new Byte[0];
    }

    /** video_close_file */
    method Close()
      modifies this
      ensures Valid() && fresh(rgb)
      ensures State() == CloseFileStep(old(State()))
    {
      reel := reel.(open := false, hasBuf := false);
      rgb := new Byte[0];
    }

    /** video_open_file */
    method Open(frames: seq<Frame>, h: nat, v: nat, openOk: bool, headerOk: bool, idOk: bool)
      returns (ok: bool)
      requires forall i :: 0 <= i < |frames| ==> |frames[i].pixels| == h * v
      modifies this
      ensures Valid() && fresh(rgb)
      ensures (State(), ok) == OpenFileStep(old(State()), frames, h, v, openOk, headerOk, idOk)
    {
      Close();
      view := view.(cur := 1, disp := 0);
      if !openOk || !headerOk || !idOk {
        return false;
      }
      var frSize := h * v;
      if frSize == 0 || |frames| == 0 {
        return false;
      }
      var disp := new Byte[3 * frSize];
      Expand(frames[0].pixels, disp);
      rgb := disp;
      reel := Reel(true, true, |frames|, frSize, frames, 1, false);
      view := View(1, 0, frames[0].stamp);
      ok := true;
    }

    /** video_show_frame */
    method ShowFrame(k: nat, io: Io) returns (ok: bool)
      requires Valid() && |io.straddle.pixels| == reel.frSize
      modifies this, rgb
      ensures Valid() && rgb == old(rgb)
      ensures (State(), ok) == ShowStep(old(State()), k, io)
    {
      if k < 1 || k > reel.numFrames || !reel.open || !reel.hasBuf {
        marks := marks.(iterating := false);
        return false;
      }
      if k == view.disp {
        return true;
      }
      var f := Fetch(reel, view.cur, k, io);
      reel := f.0;
      if f.1.None? {
        marks := marks.(iterating := false);
        return false;
      }
      Expand(f.1.value.pixels, rgb);
      view := View(k, k, f.1.value.stamp);
      ok := true;
    }

    /** video_show_next */
    method ShowNext(io: Io)
      requires Valid() && |io.straddle.pixels| == reel.frSize
      modifies this, rgb
      ensures Valid() && rgb == old(rgb)
      ensures State() == NextStep(old(State()), io)
    {
      ghost var p0 := State();
      view := view.(cur := view.cur + 1);
      assert State() == p0.(view := p0.view.(cur := p0.view.cur + 1));
      var shown := ShowFrame(view.cur, io);
    }

    /** video_show_prev */
    method ShowPrev(io: Io)
      requires Valid() && |io.straddle.pixels| == reel.frSize
      modifies this, rgb
      ensures Valid() && rgb == old(rgb)
      ensures State() == PrevStep(old(State()), io)
    {
      if view.cur > 1 {
        ghost var p0 := State();
        view := view.(cur := view.cur - 1);
        assert State() == p0.(view := p0.view.(cur := p0.view.cur - 1));
        var shown := ShowFrame(view.cur, io);
      }
    }

    /** video_set_timestamps, with the two entries' values. */
    method SetTimestamps(first: int, last: int, io1: Io, io2: Io)
      requires Valid() && |io1.straddle.pixels| == reel.frSize && |io2.straddle.pixels| == reel.frSize
      modifies this, rgb
      ensures Valid() && rgb == old(rgb)
      ensures State() == SetStampsStep(old(State()), first, last, io1, io2)
    {
      if !(1 <= first <= reel.numFrames && first + 1 <= last <= reel.numFrames) {
        return;
      }
      ghost var p0 := State();
      marks := marks.(first := first, last := last);
      ghost var p1 := State();
      assert p1 == p0.(marks := p0.marks.(first := first, last := last));
      var shown := ShowFrame(first, io1);
      ghost var p2 := State();
      assert p2 == ShowStep(p1, first, io1).0;
      ShowAndArm(first + 1, io2);
      ghost var p3 := State();
      assert p3 == Arm(ShowStep(p2, first + 1, io2).0, Gint(p2.view.tv));
      SetStampsSteps(p0, first, last, io1, io2, p1, p2);
      assert p0 == old(State());
    }

    /** The second half of video_set_timestamps: the first stamp is taken
        from rp.tv, frame k is read, and the VA_FT run is armed. */
    method ShowAndArm(k: nat, io: Io)
      requires Valid() && |io.straddle.pixels| == reel.frSize
      modifies this, rgb
      ensures Valid() && rgb == old(rgb)
      ensures State() == Arm(ShowStep(old(State()), k, io).0, Gint(old(view.tv)))
    {
      var ft := Gint(view.tv);
      var shown := ShowFrame(k, io);
      ArmRun(ft);
    }

    /** The VA_FT run armed from the first stamp ft and rp.tv. */
    method ArmRun(ft: TimeVal)
      requires Valid()
      modifies this
      ensures Valid() && rgb == old(rgb)
      ensures State() == Arm(old(State()), ft)
    {
      marks := marks.(firstTime := ft, incr := Increment(ft, Gint(view.tv)), stamping := true, iterating := true);
      view := view.(cur := view.cur + 1);
    }

    /** video_iter_frames's VA_FT branch short of the final call: the time
        stamps of up to BATCH frames from cur_frame on are computed from
        the first stamp and the increment and written into the file. */
    method StampBatch(fails: nat) returns (ok: bool)
      requires Valid() && Batching(State())
      modifies this
      ensures Valid()
      ensures (State(), ok) == BatchStep(old(State()), fails)
    {
      var run := StampFrames(State(), fails);
      reel := reel.(frames := run.frames, pos := run.pos, midFrame := run.midFrame);
      view := view.(cur := run.cur, tv := run.tv);
      marks := marks.(iterating := marks.iterating && !run.done);
      ok := run.ok;
    }
  }
}
