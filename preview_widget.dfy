// The preview window's frame transformations: the in-place horizontal and
// vertical flips of 8-bit grey, 16-bit grey and 24-bit colour frames, and
// the compaction of 16-bit grey frames to 8 bits for display
// (oacapture/previewWidget.cc).
//
// Every flip in the source is made of two pointer loops.  A "walk" starts
// with p1 at one end of a span and p2 at the other, exchanges the k bytes of
// one pixel at each pointer, moves p1 on by k and p2 back, and stops when
// the pointers meet.  A "row swap" exchanges whole rows, top against bottom.
// The model states each loop against a function on the byte sequence and
// proves what the function does to pixels and rows.

module PreviewWidget {
  import opened Bytes

  // ---------------------------------------------------------------------
  // Byte exchanges

  /** `s = *p1; *p1 = *p2; *p2 = s`. */
  function Swap(s: seq<Byte>, i: int, j: int): (r: seq<Byte>)
    requires 0 <= i < |s| && 0 <= j < |s|
    ensures |r| == |s|
  {
    s[i := s[j]][j := s[i]]
  }

  /** `n` exchanges with both pointers stepping forward after each. */
  function SwapRun(s: seq<Byte>, p1: int, p2: int, n: nat): (r: seq<Byte>)
    requires 0 <= p1 && p1 + n <= |s| && 0 <= p2 && p2 + n <= |s|
    ensures |r| == |s|
    decreases n
  {
    if n == 0 then s else SwapRun(Swap(s, p1, p2), p1 + 1, p2 + 1, n - 1)
  }

  /** Exchanging the runs at p1 and p2 touches nothing else, and when the
      runs are apart each ends up holding the other. */
  lemma {:induction false} SwapRunAt(s: seq<Byte>, p1: int, p2: int, n: nat, j: int)
    requires 0 <= p1 && p1 + n <= |s| && 0 <= p2 && p2 + n <= |s| && 0 <= j < |s|
    ensures (j < p1 || p1 + n <= j) && (j < p2 || p2 + n <= j) ==> SwapRun(s, p1, p2, n)[j] == s[j]
    ensures p1 + n <= p2 && p1 <= j < p1 + n ==> SwapRun(s, p1, p2, n)[j] == s[p2 + (j - p1)]
    ensures p1 + n <= p2 && p2 <= j < p2 + n ==> SwapRun(s, p1, p2, n)[j] == s[p1 + (j - p2)]
    decreases n
  {
    if n > 0 {
      SwapRunAt(Swap(s, p1, p2), p1 + 1, p2 + 1, n - 1, j);
    }
  }

  method SwapBytes(a: array<Byte>, p1: int, p2: int, n: nat)
    requires 0 <= p1 && p1 + n <= a.Length && 0 <= p2 && p2 + n <= a.Length
    modifies a
    ensures a[..] == SwapRun(old(a[..]), p1, p2, n)
  {
    var i := 0;
    while i < n
      invariant 0 <= i <= n
      invariant SwapRun(a[..], p1 + i, p2 + i, n - i) == SwapRun(old(a[..]), p1, p2, n)
    {
      ghost var before := a[..];
      var t := a[p1 + i];
      a[p1 + i] := a[p2 + i];
      a[p2 + i] := t;
      assert a[..] == Swap(before, p1 + i, p2 + i);
      i := i + 1;
    }
  }

  // ---------------------------------------------------------------------
  // The walk: `while (p1 < p2)`, one pixel of k bytes exchanged per pass,
  // p1 forward by k, p2 back by `back`

  function Walk(s: seq<Byte>, p1: int, p2: int, k: nat, back: nat): (r: seq<Byte>)
    requires k >= 1 && 0 <= p1 && p2 + k <= |s|
    ensures |r| == |s|
    decreases p2 - p1
  {
    if p1 < p2 then Walk(SwapRun(s, p1, p2, k), p1 + k, p2 - back, k, back) else s
  }

  /** A walk leaves every byte outside its span alone. */
  lemma {:induction false} WalkOutside(s: seq<Byte>, p1: int, p2: int, k: nat, back: nat, j: int)
    requires k >= 1 && 0 <= p1 && p2 + k <= |s| && 0 <= j < |s|
    requires j < p1 || p2 + k <= j
    ensures Walk(s, p1, p2, k, back)[j] == s[j]
    decreases p2 - p1
  {
    if p1 < p2 {
      SwapRunAt(s, p1, p2, k, j);
      WalkOutside(SwapRun(s, p1, p2, k), p1 + k, p2 - back, k, back, j);
    }
  }

  /** x is a whole number of k-byte pixels. */
  predicate Multiple(x: int, k: nat)
    decreases if x < 0 then 0 else x
  {
    x == 0 || (k >= 1 && x >= k && Multiple(x - k, k))
  }

  lemma {:induction false} MultipleOf(g: nat, k: nat)
    requires k >= 1
    ensures Multiple(g * k, k)
    decreases g
  {
    if g > 0 {
      MultipleOf(g - 1, k);
      NextRow(g - 1, k);
    }
  }

  /** Two different pixel offsets are at least a pixel apart. */
  lemma {:induction false} MultipleGap(a: int, b: int, k: nat)
    requires Multiple(a, k) && Multiple(b, k) && b < a
    ensures b + k <= a
    decreases if b < 0 then 0 else b
  {
    if b != 0 {
      MultipleGap(a - k, b - k, k);
    }
  }

  /** A walk whose pointers move by a whole pixel each way, from p1 to p2 a
      whole number of k-byte pixels apart, reverses the order of the pixels
      and keeps the bytes of each pixel in their order: byte q of the pixel
      d bytes after p1 comes from byte q of the pixel d bytes before p2. */
  lemma {:induction false} WalkReverses(s: seq<Byte>, p1: int, p2: int, k: nat, d: int, q: nat)
    requires k >= 1 && 0 <= p1 <= p2 && p2 + k <= |s|
    requires Multiple(p2 - p1, k) && Multiple(d, k) && 0 <= d <= p2 - p1 && q < k
    ensures Walk(s, p1, p2, k, k)[p1 + d + q] == s[p2 - d + q]
    decreases p2 - p1
  {
    if p1 < p2 {
      var t := SwapRun(s, p1, p2, k);
      if d == 0 {
        SwapRunAt(s, p1, p2, k, p1 + q);
        WalkOutside(t, p1 + k, p2 - k, k, k, p1 + q);
      } else if d == p2 - p1 {
        SwapRunAt(s, p1, p2, k, p2 + q);
        WalkOutside(t, p1 + k, p2 - k, k, k, p2 + q);
      } else {
        MultipleGap(p2 - p1, d, k);
        assert Multiple(p2 - p1 - k, k) && Multiple(d - k, k);
        assert Multiple(p2 - p1 - 2 * k, k);
        WalkReverses(t, p1 + k, p2 - k, k, d - k, q);
        SwapRunAt(s, p1, p2, k, p2 - d + q);
      }
    }
  }

  method WalkBuffer(a: array<Byte>, p1: int, p2: int, k: nat, back: nat)
    requires k >= 1 && 0 <= p1 && p2 + k <= a.Length
    modifies a
    ensures a[..] == Walk(old(a[..]), p1, p2, k, back)
  {
    var q1, q2 := p1, p2;
    while q1 < q2
      invariant 0 <= q1 && q2 + k <= a.Length
      invariant Walk(a[..], q1, q2, k, back) == Walk(old(a[..]), p1, p2, k, back)
      decreases q2 - q1
    {
      SwapBytes(a, q1, q2, k);
      q1, q2 := q1 + k, q2 - back;
    }
  }

  // ---------------------------------------------------------------------
  // flipX alone: one walk per row, the rows `stride` bytes apart

  /** `rows` rows from `base` on, each with room for w bytes. */
  predicate RowsFit(n: int, base: int, rows: nat, stride: nat, w: int)
    decreases rows
  {
    rows == 0 || (0 <= base && base + w <= n && RowsFit(n, base + stride, rows - 1, stride, w))
  }

  lemma {:induction false} RowsFitOf(n: int, base: int, rows: nat, stride: nat, w: int)
    requires 0 <= base && (rows == 0 || base + (rows - 1) * stride + w <= n)
    ensures RowsFit(n, base, rows, stride, w)
    decreases rows
  {
    if rows > 0 {
      MulMono(0, rows - 1, stride);
      NextRow(rows - 2, stride);
      RowsFitOf(n, base + stride, rows - 1, stride, w);
    }
  }

  function WalkRows(s: seq<Byte>, base: int, rows: nat, stride: nat, span: int, k: nat, back: nat): (r: seq<Byte>)
    requires k >= 1 && RowsFit(|s|, base, rows, stride, span + k)
    ensures |r| == |s|
    decreases rows
  {
    if rows == 0 then s
    else WalkRows(Walk(s, base, base + span, k, back), base + stride, rows - 1, stride, span, k, back)
  }

  /** The row walks leave the bytes before the first row alone. */
  lemma {:induction false} WalkRowsBefore(s: seq<Byte>, base: int, rows: nat, stride: nat, span: int,
                                          k: nat, back: nat, j: int)
    requires k >= 1 && RowsFit(|s|, base, rows, stride, span + k) && 0 <= j < |s| && j < base
    ensures WalkRows(s, base, rows, stride, span, k, back)[j] == s[j]
    decreases rows
  {
    if rows > 0 {
      WalkOutside(s, base, base + span, k, back, j);
      WalkRowsBefore(Walk(s, base, base + span, k, back), base + stride, rows - 1, stride, span, k, back, j);
    }
  }

  /** o is the offset of one of `rows` rows `stride` bytes apart. */
  predicate RowAt(o: int, rows: nat, stride: nat)
    decreases rows
  {
    rows > 0 && (o == 0 || RowAt(o - stride, rows - 1, stride))
  }

  lemma {:induction false} RowAtOf(y: nat, rows: nat, stride: nat)
    requires y < rows
    ensures RowAt(y * stride, rows, stride)
    decreases y
  {
    if y > 0 {
      NextRow(y - 1, stride);
      RowAtOf(y - 1, rows - 1, stride);
    }
  }

  lemma {:induction false} RowAtNonNegative(o: int, rows: nat, stride: nat)
    requires RowAt(o, rows, stride)
    ensures o >= 0
    decreases rows
  {
    if o != 0 {
      RowAtNonNegative(o - stride, rows - 1, stride);
    }
  }

  /** Rows of pixels of k bytes, each walked pixel by pixel: in the row that
      starts o bytes after the first, byte q of the pixel d bytes into the
      row comes from byte q of the pixel d bytes before the row's last
      pixel. */
  lemma {:induction false} WalkRowsMirror(s: seq<Byte>, base: int, rows: nat, stride: nat, span: int, k: nat,
                                          o: int, d: int, q: nat)
    requires k >= 1 && span + k <= stride && RowsFit(|s|, base, rows, stride, span + k)
    requires Multiple(span, k) && Multiple(d, k) && 0 <= d <= span && q < k
    requires RowAt(o, rows, stride)
    ensures 0 <= o && 0 <= base && base + o + span + k <= |s|
    ensures WalkRows(s, base, rows, stride, span, k, k)[base + o + d + q] == s[base + o + span - d + q]
    decreases rows
  {
    var t := Walk(s, base, base + span, k, k);
    var j := base + o + d + q;
    var m := base + o + span - d + q;
    var w := WalkRows(s, base, rows, stride, span, k, k);
    var w' := WalkRows(t, base + stride, rows - 1, stride, span, k, k);
    assert w == w';
    if o == 0 {
      assert base + span + k <= |s|;
      FirstRowMirror(s, base, rows, stride, span, k, d, q);
      assert w[j] == s[m];
    } else {
      var o' := o - stride;
      WalkRowsMirror(t, base + stride, rows - 1, stride, span, k, o', d, q);
      assert base + stride + o' + d + q == j && base + stride + o' + span - d + q == m;
      assert w'[j] == t[m];
      assert base + span + k <= m;
      WalkOutside(s, base, base + span, k, k, m);
      assert w[j] == s[m];
    }
  }

  /** The first row's part of WalkRowsMirror. */
  lemma FirstRowMirror(s: seq<Byte>, base: int, rows: nat, stride: nat, span: int, k: nat, d: int, q: nat)
    requires k >= 1 && span + k <= stride && rows > 0 && RowsFit(|s|, base, rows, stride, span + k)
    requires Multiple(span, k) && Multiple(d, k) && 0 <= d <= span && q < k
    ensures WalkRows(s, base, rows, stride, span, k, k)[base + d + q] == s[base + span - d + q]
  {
    var t := Walk(s, base, base + span, k, k);
    var j := base + d + q;
    assert RowsFit(|t|, base + stride, rows - 1, stride, span + k);
    assert WalkRows(s, base, rows, stride, span, k, k) == WalkRows(t, base + stride, rows - 1, stride, span, k, k);
    WalkRowsBefore(t, base + stride, rows - 1, stride, span, k, k, j);
    WalkReverses(s, base, base + span, k, d, q);
    assert t[j] == s[base + span - d + q];
  }

  method WalkEachRow(a: array<Byte>, rows: nat, stride: nat, span: int, k: nat, back: nat)
    requires k >= 1 && RowsFit(a.Length, 0, rows, stride, span + k)
    modifies a
    ensures a[..] == WalkRows(old(a[..]), 0, rows, stride, span, k, back)
  {
    var y := 0;
    while y < rows
      invariant 0 <= y <= rows
      invariant RowsFit(a.Length, y * stride, rows - y, stride, span + k)
      invariant WalkRows(a[..], y * stride, rows - y, stride, span, k, back)
             == WalkRows(old(a[..]), 0, rows, stride, span, k, back)
    {
      var p1 := y * stride;
      WalkBuffer(a, p1, p1 + span, k, back);
      NextRow(y, stride);
      y := y + 1;
    }
  }

  // ---------------------------------------------------------------------
  // flipY: p1 runs on from the top row while p2 steps up from the bottom
  // row, each pass exchanging one row of rowBytes bytes

  /** `pairs` exchanges from `top` and `bottom` on stay in the buffer and
      never meet. */
  predicate PairsFit(n: int, top: int, bottom: int, rowBytes: nat, pairs: nat)
    decreases pairs
  {
    pairs == 0
    || (0 <= top && top + rowBytes <= bottom && bottom + rowBytes <= n
        && PairsFit(n, top + rowBytes, bottom - rowBytes, rowBytes, pairs - 1))
  }

  /** Row lo against row hi, row lo+1 against row hi-1, and so on. */
  lemma {:induction false} PairsFitOf(n: int, rowBytes: nat, lo: int, hi: int, pairs: nat)
    requires 0 <= lo && lo + 2 * pairs <= hi + 1 && (pairs == 0 || (hi + 1) * rowBytes <= n)
    ensures PairsFit(n, lo * rowBytes, hi * rowBytes, rowBytes, pairs)
    decreases pairs
  {
    if pairs > 0 {
      MulMono(0, lo, rowBytes);
      MulMono(lo + 1, hi, rowBytes);
      NextRow(lo, rowBytes);
      NextRow(hi, rowBytes);
      NextRow(hi - 1, rowBytes);
      PairsFitOf(n, rowBytes, lo + 1, hi - 1, pairs - 1);
    }
  }

  function RowSwaps(s: seq<Byte>, top: int, bottom: int, rowBytes: nat, pairs: nat): (r: seq<Byte>)
    requires PairsFit(|s|, top, bottom, rowBytes, pairs)
    ensures |r| == |s|
    decreases pairs
  {
    if pairs == 0 then s
    else RowSwaps(SwapRun(s, top, bottom, rowBytes), top + rowBytes, bottom - rowBytes, rowBytes, pairs - 1)
  }

  /** The exchanges leave everything above the top row and below the bottom
      row alone. */
  lemma {:induction false} RowSwapsOutside(s: seq<Byte>, top: int, bottom: int, rowBytes: nat, pairs: nat, j: int)
    requires PairsFit(|s|, top, bottom, rowBytes, pairs) && 0 <= j < |s|
    requires j < top || bottom + rowBytes <= j
    ensures RowSwaps(s, top, bottom, rowBytes, pairs)[j] == s[j]
    decreases pairs
  {
    if pairs > 0 {
      SwapRunAt(s, top, bottom, rowBytes, j);
      RowSwapsOutside(SwapRun(s, top, bottom, rowBytes), top + rowBytes, bottom - rowBytes, rowBytes, pairs - 1, j);
    }
  }

  /** p is n steps of w bytes. */
  predicate Times(p: int, n: nat, w: nat)
    decreases n
  {
    if n == 0 then p == 0 else Times(p - w, n - 1, w)
  }

  lemma {:induction false} TimesOf(n: nat, w: nat)
    ensures Times(n * w, n, w)
    decreases n
  {
    if n > 0 {
      NextRow(n - 1, w);
      TimesOf(n - 1, w);
    }
  }

  lemma {:induction false} TimesAtLeast(p: int, n: nat, w: nat)
    requires Times(p, n, w)
    ensures p >= 0 && (n > 0 ==> p >= w)
    decreases n
  {
    if n > 0 {
      TimesAtLeast(p - w, n - 1, w);
    }
  }

  /** The rows between the exchanged ones (passed bytes p = pairs * rowBytes
      from either end) are left alone. */
  lemma {:induction false} RowSwapsBetween(s: seq<Byte>, top: int, bottom: int, rowBytes: nat, pairs: nat,
                                           p: int, j: int)
    requires PairsFit(|s|, top, bottom, rowBytes, pairs) && 0 <= j < |s|
    requires Times(p, pairs, rowBytes) && top + p <= j < bottom - p + rowBytes
    ensures RowSwaps(s, top, bottom, rowBytes, pairs)[j] == s[j]
    decreases pairs
  {
    if pairs > 0 {
      TimesAtLeast(p, pairs, rowBytes);
      SwapRunAt(s, top, bottom, rowBytes, j);
      RowSwapsBetween(SwapRun(s, top, bottom, rowBytes), top + rowBytes, bottom - rowBytes, rowBytes,
                      pairs - 1, p - rowBytes, j);
    }
  }

  /** Each pair exchanges the row o bytes below the top (o a whole number of
      rows, fewer than `pairs`) with the row o bytes above the bottom. */
  lemma {:induction false} RowSwapsAt(s: seq<Byte>, top: int, bottom: int, rowBytes: nat, pairs: nat,
                                      o: int, b: nat)
    requires PairsFit(|s|, top, bottom, rowBytes, pairs)
    requires RowAt(o, pairs, rowBytes) && b < rowBytes
    ensures 0 <= top + o && top + o + rowBytes <= bottom - o && bottom - o + rowBytes <= |s|
    ensures RowSwaps(s, top, bottom, rowBytes, pairs)[top + o + b] == s[bottom - o + b]
    ensures RowSwaps(s, top, bottom, rowBytes, pairs)[bottom - o + b] == s[top + o + b]
    decreases pairs
  {
    var t := SwapRun(s, top, bottom, rowBytes);
    if o == 0 {
      SwapRunAt(s, top, bottom, rowBytes, top + b);
      SwapRunAt(s, top, bottom, rowBytes, bottom + b);
      RowSwapsOutside(t, top + rowBytes, bottom - rowBytes, rowBytes, pairs - 1, top + b);
      RowSwapsOutside(t, top + rowBytes, bottom - rowBytes, rowBytes, pairs - 1, bottom + b);
    } else {
      RowAtNonNegative(o - rowBytes, pairs - 1, rowBytes);
      RowSwapsAt(t, top + rowBytes, bottom - rowBytes, rowBytes, pairs - 1, o - rowBytes, b);
      SwapRunAt(s, top, bottom, rowBytes, top + o + b);
      SwapRunAt(s, top, bottom, rowBytes, bottom - o + b);
    }
  }

  /** How many passes `for (y = height - 1; y > bound; y--)` makes. */
  function Pairs(height: int, bound: int): (n: nat)
    ensures n > 0 <==> height - 1 > bound
    ensures n > 0 ==> n + bound == height - 1
  {
    if height - 1 > bound then height - 1 - bound else 0
  }

  method SwapRowPairs(a: array<Byte>, rowBytes: nat, height: nat, bound: int)
    requires PairsFit(a.Length, 0, (height - 1) * rowBytes, rowBytes, Pairs(height, bound))
    modifies a
    ensures a[..] == RowSwaps(old(a[..]), 0, (height - 1) * rowBytes, rowBytes, Pairs(height, bound))
  {
    var p1 := 0;
    var y := height - 1;
    while y > bound
      invariant PairsFit(a.Length, p1, y * rowBytes, rowBytes, Pairs(y + 1, bound))
      invariant RowSwaps(a[..], p1, y * rowBytes, rowBytes, Pairs(y + 1, bound))
             == RowSwaps(old(a[..]), 0, (height - 1) * rowBytes, rowBytes, Pairs(height, bound))
    {
      var p2 := y * rowBytes;
      SwapBytes(a, p1, p2, rowBytes);
      NextRow(y - 1, rowBytes);
      p1 := p1 + rowBytes;
      y := y - 1;
    }
  }

  // ---------------------------------------------------------------------
  // processFlip

  datatype PixelFormat = Grey8 | Grey16BE | Grey16LE | Rgb24 | Bgr24 | OtherFormat

  /** The shape of the loops of one flip routine: k bytes per pixel, p2
      stepping back by `back` after each exchange in the whole-frame walk
      and the row walks, row y's walk starting at y * stride, and the
      vertical flip stopping at `y > bound`. */
  datatype Loops = Loops(k: nat, back: nat, stride: nat, bound: int)

  /** The three routines as they are written: processFlip8Bit advances p2 by
      one byte back per pixel, processFlip16Bit by +1 then -2 (net one byte)
      and starts row y at y * imageSizeX, processFlip24BitColour by +2 then
      -5 (net three bytes).  All three stop the vertical flip at
      `y > imageSizeY / 2`. */
  function AsWritten(f: PixelFormat, width: nat, height: nat): (l: Option<Loops>)
    ensures l.Some? <==> f != OtherFormat
    ensures l.Some? ==> l.value.k >= 1 && l.value.bound == height / 2
  {
    match f
    case Grey8 => Some(Loops(1, 1, width, height / 2))
    case Grey16BE | Grey16LE => Some(Loops(2, 1, width, height / 2))
    case Rgb24 | Bgr24 => Some(Loops(3, 3, width * 3, height / 2))
    case OtherFormat => None
  }

  /** The routines as evidently intended: p2 steps back one whole pixel,
      16-bit rows start at y * imageSizeX * 2, and the vertical flip runs
      while `y > (imageSizeY - 1) / 2`, so that it also exchanges the middle
      pair of an even number of rows. */
  function Fixed(f: PixelFormat, width: nat, height: nat): (l: Option<Loops>)
    ensures l.Some? <==> f != OtherFormat
    ensures l.Some? ==> l.value.k >= 1 && l.value.back == l.value.k
                        && l.value.stride == width * l.value.k
                        && Pairs(height, l.value.bound) == height / 2
  {
    match f
    case Grey8 => Some(Loops(1, 1, width, (height - 1) / 2))
    case Grey16BE | Grey16LE => Some(Loops(2, 2, width * 2, (height - 1) / 2))
    case Rgb24 | Bgr24 => Some(Loops(3, 3, width * 3, (height - 1) / 2))
    case OtherFormat => None
  }

  /** What the frame sizes must satisfy for every loop to stay inside the
      buffer: the frame length and the configured image both fit, and the
      vertical flip exchanges each row at most once. */
  predicate Fits(n: nat, length: int, width: nat, height: nat, l: Loops)
  {
    l.k >= 1 && length <= n && height * (width * l.k) <= n && 2 * Pairs(height, l.bound) <= height
    && (height == 0 || (height - 1) * l.stride + (width - 1) * l.k + l.k <= n)
  }

  /** The frame after one flip routine with loop shape l. */
  function Flipped(s: seq<Byte>, length: int, flipX: bool, flipY: bool,
                   width: nat, height: nat, l: Loops): (r: seq<Byte>)
    requires Fits(|s|, length, width, height, l)
    ensures |r| == |s|
  {
    RowsFitOf(|s|, 0, height, l.stride, (width - 1) * l.k + l.k);
    PairsFitOf(|s|, width * l.k, 0, height - 1, Pairs(height, l.bound));
    if flipX && flipY then Walk(s, 0, length - l.k, l.k, l.back)
    else
      var t := if flipX then WalkRows(s, 0, height, l.stride, (width - 1) * l.k, l.k, l.back) else s;
      if flipY then RowSwaps(t, 0, (height - 1) * (width * l.k), width * l.k, Pairs(height, l.bound)) else t
  }

  method FlipFrame(a: array<Byte>, length: int, flipX: bool, flipY: bool,
                   width: nat, height: nat, l: Loops)
    requires Fits(a.Length, length, width, height, l)
    modifies a
    ensures a[..] == Flipped(old(a[..]), length, flipX, flipY, width, height, l)
  {
    RowsFitOf(a.Length, 0, height, l.stride, (width - 1) * l.k + l.k);
    PairsFitOf(a.Length, width * l.k, 0, height - 1, Pairs(height, l.bound));
    if flipX && flipY {
      WalkBuffer(a, 0, length - l.k, l.k, l.back);
    } else {
      if flipX {
        WalkEachRow(a, height, l.stride, (width - 1) * l.k, l.k, l.back);
      }
      if flipY {
        SwapRowPairs(a, width * l.k, height, l.bound);
      }
    }
  }

  /** processFlip as written: dispatch on the pixel format; other formats
      are left as they are. */
  method ProcessFlip(a: array<Byte>, length: int, f: PixelFormat, flipX: bool, flipY: bool,
                     width: nat, height: nat)
    requires AsWritten(f, width, height).Some? ==> Fits(a.Length, length, width, height, AsWritten(f, width, height).value)
    modifies a
    ensures AsWritten(f, width, height).None? ==> a[..] == old(a[..])
    ensures AsWritten(f, width, height).Some? ==>
              a[..] == Flipped(old(a[..]), length, flipX, flipY, width, height, AsWritten(f, width, height).value)
  {
    var l := AsWritten(f, width, height);
    if l.Some? {
      FlipFrame(a, length, flipX, flipY, width, height, l.value);
    }
  }

  /** processFlip with the three routines corrected. */
  method ProcessFlipFixed(a: array<Byte>, length: int, f: PixelFormat, flipX: bool, flipY: bool,
                          width: nat, height: nat)
    requires Fixed(f, width, height).Some? ==> Fits(a.Length, length, width, height, Fixed(f, width, height).value)
    modifies a
    ensures Fixed(f, width, height).None? ==> a[..] == old(a[..])
    ensures Fixed(f, width, height).Some? ==>
              a[..] == Flipped(old(a[..]), length, flipX, flipY, width, height, Fixed(f, width, height).value)
  {
    var l := Fixed(f, width, height);
    if l.Some? {
      FlipFrame(a, length, flipX, flipY, width, height, l.value);
    }
  }

  // ---------------------------------------------------------------------
  // What the flips do to pixels

  /** 8-bit, flipX and flipY: the whole frame is reversed byte by byte, and
      the rest of the buffer is left alone. */
  lemma Flip8BothReverses(s: seq<Byte>, length: nat, width: nat, height: nat, j: nat)
    requires Fits(|s|, length, width, height, AsWritten(Grey8, width, height).value) && j < |s|
    ensures j < length ==>
      Flipped(s, length, true, true, width, height, AsWritten(Grey8, width, height).value)[j] == s[length - 1 - j]
    ensures length <= j ==>
      Flipped(s, length, true, true, width, height, AsWritten(Grey8, width, height).value)[j] == s[j]
  {
    if j < length {
      MultipleOf(length - 1, 1);
      MultipleOf(j, 1);
      WalkReverses(s, 0, length - 1, 1, j, 0);
    } else {
      WalkOutside(s, 0, length - 1, 1, 1, j);
    }
  }

  /** 8-bit, flipX alone: pixel x of row y (which starts at pixel p) comes
      from pixel width-1-x of the same row. */
  lemma Flip8RowsReverse(s: seq<Byte>, length: nat, width: nat, height: nat, y: nat, p: int, x: nat)
    requires Fits(|s|, length, width, height, AsWritten(Grey8, width, height).value)
    requires y < height && p == y * width && x < width
    ensures 0 <= p && p + width <= |s|
    ensures Flipped(s, length, true, false, width, height, AsWritten(Grey8, width, height).value)[p + x]
         == s[p + (width - 1 - x)]
  {
    RowsFitOf(|s|, 0, height, width, width);
    MultipleOf(width - 1, 1);
    MultipleOf(x, 1);
    RowAtOf(y, height, width);
    WalkRowsMirror(s, 0, height, width, width - 1, 1, p, x, 0);
  }


  /** 24-bit, flipX and flipY, over a frame of n pixels: pixel g comes from
      pixel n-1-g with its three colour bytes in their order. */
  lemma Flip24BothReversesPixels(s: seq<Byte>, n: nat, width: nat, height: nat, g: nat, q: nat)
    requires Fits(|s|, 3 * n, width, height, AsWritten(Rgb24, width, height).value)
    requires g < n && q < 3
    ensures Flipped(s, 3 * n, true, true, width, height, AsWritten(Rgb24, width, height).value)[3 * g + q]
         == s[3 * (n - 1 - g) + q]
  {
    MultipleOf(n - 1, 3);
    MultipleOf(g, 3);
    WalkReverses(s, 0, 3 * n - 3, 3, 3 * g, q);
  }

  lemma Regroup(y: int, w: int, k: int)
    ensures y * (w * k) == (y * w) * k
  {
  }

  /** flipX alone with whole-pixel steps: in the row at byte o, pixel x comes
      from pixel width-1-x. */
  lemma FlipXRowMirror(s: seq<Byte>, length: int, width: nat, height: nat, l: Loops, o: int, x: nat, q: nat)
    requires Fits(|s|, length, width, height, l) && l.back == l.k && l.stride == width * l.k
    requires RowAt(o, height, l.stride) && x < width && q < l.k
    ensures 0 <= o && o + l.stride <= |s|
    ensures 0 <= x * l.k && 0 <= (width - 1 - x) * l.k
    ensures x * l.k + (width - 1 - x) * l.k + l.k == l.stride
    ensures Flipped(s, length, true, false, width, height, l)[o + x * l.k + q]
         == s[o + (width - 1 - x) * l.k + q]
  {
    var k := l.k;
    NextRow(width - 1, k);
    MulMono(x, width - 1, k);
    MulMono(0, x, k);
    MulMono(0, width - 1 - x, k);
    assert x * k + (width - 1 - x) * k == (width - 1) * k;
    RowsFitOf(|s|, 0, height, l.stride, (width - 1) * k + k);
    MultipleOf(width - 1, k);
    MultipleOf(x, k);
    WalkRowsMirror(s, 0, height, l.stride, (width - 1) * k, k, o, x * k, q);
  }

  /** 24-bit, flipX alone: pixel x of row y (which starts at pixel p) comes
      from pixel width-1-x of the same row, colour bytes in their order. */
  lemma Flip24RowsReverse(s: seq<Byte>, length: nat, width: nat, height: nat, y: nat, p: int, x: nat, q: nat)
    requires Fits(|s|, length, width, height, AsWritten(Rgb24, width, height).value)
    requires y < height && p == y * width && x < width && q < 3
    ensures 0 <= p && (p + width) * 3 <= |s|
    ensures Flipped(s, length, true, false, width, height, AsWritten(Rgb24, width, height).value)[(p + x) * 3 + q]
         == s[(p + (width - 1 - x)) * 3 + q]
  {
    var o := y * (width * 3);
    Regroup(y, width, 3);
    RowAtOf(y, height, width * 3);
    FlipXRowMirror(s, length, width, height, AsWritten(Rgb24, width, height).value, o, x, q);
    assert (p + x) * 3 + q == o + x * 3 + q;
    assert (p + (width - 1 - x)) * 3 + q == o + (width - 1 - x) * 3 + q;
  }



  /** The corrected 16-bit whole-frame flip over n pixels: pixel g comes from
      pixel n-1-g, both bytes kept in order. */
  lemma Flip16BothFixedReversesPixels(s: seq<Byte>, n: nat, width: nat, height: nat, g: nat, q: nat)
    requires Fits(|s|, 2 * n, width, height, Fixed(Grey16LE, width, height).value)
    requires g < n && q < 2
    ensures Flipped(s, 2 * n, true, true, width, height, Fixed(Grey16LE, width, height).value)[2 * g + q]
         == s[2 * (n - 1 - g) + q]
  {
    MultipleOf(n - 1, 2);
    MultipleOf(g, 2);
    WalkReverses(s, 0, 2 * n - 2, 2, 2 * g, q);
  }

  /** The corrected 16-bit row flip: pixel x of row y (which starts at
      pixel p) comes from pixel width-1-x of the same row, both bytes in
      their order. */
  lemma Flip16RowsFixedReverse(s: seq<Byte>, length: nat, width: nat, height: nat, y: nat, p: int, x: nat, q: nat)
    requires Fits(|s|, length, width, height, Fixed(Grey16LE, width, height).value)
    requires y < height && p == y * width && x < width && q < 2
    ensures 0 <= p && (p + width) * 2 <= |s|
    ensures Flipped(s, length, true, false, width, height, Fixed(Grey16LE, width, height).value)[(p + x) * 2 + q]
         == s[(p + (width - 1 - x)) * 2 + q]
  {
    var o := y * (width * 2);
    Regroup(y, width, 2);
    RowAtOf(y, height, width * 2);
    FlipXRowMirror(s, length, width, height, Fixed(Grey16LE, width, height).value, o, x, q);
    assert (p + x) * 2 + q == o + x * 2 + q;
    assert (p + (width - 1 - x)) * 2 + q == o + (width - 1 - x) * 2 + q;
  }



  /** The corrected vertical flip: row i (at byte `at`) comes from row
      height-1-i (at byte `mirror`), for every row, in all three pixel
      formats. */
  lemma FlipYFixedMirrors(s: seq<Byte>, f: PixelFormat, length: nat, width: nat, height: nat,
                          rowBytes: nat, i: nat, at: int, mirror: int, b: nat)
    requires f != OtherFormat && Fits(|s|, length, width, height, Fixed(f, width, height).value)
    requires rowBytes == width * Fixed(f, width, height).value.k
    requires i < height && at == i * rowBytes && mirror == (height - 1 - i) * rowBytes && b < rowBytes
    ensures 0 <= at && at + rowBytes <= |s| && 0 <= mirror && mirror + rowBytes <= |s|
    ensures Flipped(s, length, false, true, width, height, Fixed(f, width, height).value)[at + b]
         == s[mirror + b]
  {
    var l := Fixed(f, width, height).value;
    PairsFitOf(|s|, rowBytes, 0, height - 1, height / 2);
    assert Flipped(s, length, false, true, width, height, l)
        == RowSwaps(s, 0, (height - 1) * rowBytes, rowBytes, height / 2);
    MirrorRow(s, rowBytes, height, i, at, mirror, b);
  }

  /** Exchanging the rows of a frame height rows high pair by pair from the
      outside in, height / 2 times, puts row height-1-i at row i. */
  lemma MirrorRow(s: seq<Byte>, rowBytes: nat, height: nat, i: nat, at: int, mirror: int, b: nat)
    requires height * rowBytes <= |s| && PairsFit(|s|, 0, (height - 1) * rowBytes, rowBytes, height / 2)
    requires i < height && at == i * rowBytes && mirror == (height - 1 - i) * rowBytes && b < rowBytes
    ensures 0 <= at && at + rowBytes <= |s| && 0 <= mirror && mirror + rowBytes <= |s|
    ensures RowSwaps(s, 0, (height - 1) * rowBytes, rowBytes, height / 2)[at + b] == s[mirror + b]
  {
    var bottom, pairs := (height - 1) * rowBytes, height / 2;
    MulMono(0, i, rowBytes);
    MulMono(0, height - 1 - i, rowBytes);
    MulMono(i + 1, height, rowBytes);
    MulMono(height - i, height, rowBytes);
    NextRow(i, rowBytes);
    NextRow(height - 1 - i, rowBytes);
    NextRow(height - 1, rowBytes);
    assert bottom - at == mirror && bottom - mirror == at;
    if i < pairs {
      RowAtOf(i, pairs, rowBytes);
      RowSwapsAt(s, 0, bottom, rowBytes, pairs, at, b);
    } else if height - pairs <= i {
      RowAtOf(height - 1 - i, pairs, rowBytes);
      RowSwapsAt(s, 0, bottom, rowBytes, pairs, mirror, b);
    } else {
      assert i == pairs && height == 2 * pairs + 1 && at == mirror;
      TimesOf(pairs, rowBytes);
      RowSwapsBetween(s, 0, bottom, rowBytes, pairs, at, at + b);
    }
  }

  /** With `pairs` exchanges between rows that are two rows short of
      meeting, the two rows in the middle stay where they are. */
  lemma MiddleRowsStay(s: seq<Byte>, rowBytes: nat, pairs: nat, upper: int, bottom: int, j: int)
    requires PairsFit(|s|, 0, bottom, rowBytes, pairs) && 0 <= j < |s|
    requires upper == pairs * rowBytes && bottom == upper + upper + rowBytes
    requires upper <= j < upper + 2 * rowBytes
    ensures RowSwaps(s, 0, bottom, rowBytes, pairs)[j] == s[j]
  {
    TimesOf(pairs, rowBytes);
    RowSwapsBetween(s, 0, bottom, rowBytes, pairs, upper, j);
  }

  lemma EvenRows(h: nat, w: nat)
    requires h >= 1
    ensures 0 <= (h - 1) * w
    ensures (2 * h - 1) * w == (h - 1) * w + (h - 1) * w + w
    ensures (2 * h) * w == (h - 1) * w + (h - 1) * w + w + w
  {
    MulMono(0, h - 1, w);
  }

  /** The vertical flip as written, on an even number of rows: the two middle
      rows (at bytes `upper` and `lower`) are never exchanged. */
  lemma FlipYAsWrittenKeepsMiddle(s: seq<Byte>, f: PixelFormat, length: nat, width: nat, height: nat,
                                  rowBytes: nat, upper: int, lower: int, b: nat)
    requires f != OtherFormat && Fits(|s|, length, width, height, AsWritten(f, width, height).value)
    requires rowBytes == width * AsWritten(f, width, height).value.k
    requires height >= 2 && height % 2 == 0 && b < rowBytes
    requires upper == (height / 2 - 1) * rowBytes && lower == upper + rowBytes
    ensures 0 <= upper && lower + rowBytes <= |s|
    ensures Flipped(s, length, false, true, width, height, AsWritten(f, width, height).value)[upper + b]
         == s[upper + b]
    ensures Flipped(s, length, false, true, width, height, AsWritten(f, width, height).value)[lower + b]
         == s[lower + b]
  {
    var h := height / 2;
    EvenRows(h, rowBytes);
    PairsFitOf(|s|, rowBytes, 0, height - 1, h - 1);
    MiddleRowsStay(s, rowBytes, h - 1, upper, (height - 1) * rowBytes, upper + b);
    MiddleRowsStay(s, rowBytes, h - 1, upper, (height - 1) * rowBytes, lower + b);
  }


  /** A two-row frame: as written nothing moves; corrected, the rows trade
      places. */
  lemma FlipYTwoRows()
    ensures Flipped([1, 2], 2, false, true, 1, 2, AsWritten(Grey8, 1, 2).value) == [1, 2]
    ensures Flipped([1, 2], 2, false, true, 1, 2, Fixed(Grey8, 1, 2).value) == [2, 1]
  {
    var t := Swap([1, 2], 0, 1);
    assert SwapRun([1, 2], 0, 1, 1) == SwapRun(t, 1, 2, 0) == [2, 1];
  }

  /** 16-bit, flipX and flipY, as written, on four pixels: the bytes of the
      middle pixels are scrambled instead of the pixel order being reversed. */
  lemma Flip16BothAsWritten()
    ensures Flipped([0, 1, 2, 3, 4, 5, 6, 7], 8, true, true, 4, 1, AsWritten(Grey16LE, 4, 1).value)
         == [6, 7, 5, 0, 4, 2, 3, 1]
  {
    var s: seq<Byte> := [0, 1, 2, 3, 4, 5, 6, 7];
    var t := SwapRun(s, 0, 6, 2);
    assert t == [6, 7, 2, 3, 4, 5, 0, 1] by {
      assert Swap(s, 0, 6) == [6, 1, 2, 3, 4, 5, 0, 7];
      assert SwapRun(s, 0, 6, 2) == SwapRun(Swap(Swap(s, 0, 6), 1, 7), 2, 8, 0);
    }
    assert SwapRun(t, 2, 5, 2) == [6, 7, 5, 0, 4, 2, 3, 1] by {
      assert Swap(t, 2, 5) == [6, 7, 5, 3, 4, 2, 0, 1];
      assert SwapRun(t, 2, 5, 2) == SwapRun(Swap(Swap(t, 2, 5), 3, 6), 4, 7, 0);
    }
  }

  /** 16-bit, flipX alone, as written, on two rows of two pixels: row 1's
      walk starts at byte 2, inside row 0, so row 1 is never flipped. */
  lemma Flip16RowsAsWritten()
    ensures Flipped([0, 1, 2, 3, 4, 5, 6, 7], 8, true, false, 2, 2, AsWritten(Grey16LE, 2, 2).value)
         == [2, 3, 4, 5, 0, 1, 6, 7]
  {
    var s: seq<Byte> := [0, 1, 2, 3, 4, 5, 6, 7];
    var t := SwapRun(s, 0, 2, 2);
    assert t == [2, 3, 0, 1, 4, 5, 6, 7] by {
      assert SwapRun(s, 0, 2, 2) == SwapRun(Swap(Swap(s, 0, 2), 1, 3), 2, 4, 0);
    }
    assert Walk(s, 0, 2, 2, 1) == Walk(t, 2, 1, 2, 1) == t;
    assert SwapRun(t, 2, 4, 2) == [2, 3, 4, 5, 0, 1, 6, 7] by {
      assert SwapRun(t, 2, 4, 2) == SwapRun(Swap(Swap(t, 2, 4), 3, 5), 4, 6, 0);
    }
  }

  // ---------------------------------------------------------------------
  // convert16To8Bit

  /** Sample m of a 16-bit grey frame in the given byte order. */
  function Sample(s: seq<Byte>, m: nat, littleEndian: bool): (v: UShort)
    requires 2 * m + 1 < |s|
    ensures littleEndian ==> v / 256 == s[2 * m + 1] && v % 256 == s[2 * m]
    ensures !littleEndian ==> v / 256 == s[2 * m] && v % 256 == s[2 * m + 1]
  {
    if littleEndian then (s[2 * m + 1] as int) * 256 + s[2 * m] as int
    else (s[2 * m] as int) * 256 + s[2 * m + 1] as int
  }

  /** Keeps the high byte of each sample (byte 1 of a little-endian pair,
      byte 0 of a big-endian one), written from the front of the buffer;
      the bytes after the written prefix are left alone. */
  method Convert16To8Bit(a: array<Byte>, length: nat, littleEndian: bool)
    requires length <= a.Length
    requires littleEndian && length % 2 == 1 ==> length < a.Length
    modifies a
    ensures forall m :: 0 <= m < (length + 1) / 2 ==>
              a[m] == old(a[2 * m + (if littleEndian then 1 else 0)])
    ensures forall m :: 0 <= m < length / 2 ==> a[m] == Sample(old(a[..]), m, littleEndian) / 256
    ensures forall j :: (length + 1) / 2 <= j < a.Length ==> a[j] == old(a[j])
  {
    var off := if littleEndian then 1 else 0;
    var t := 0;
    var i := 0;
    while i < length
      invariant i == 2 * t && t <= (length + 1) / 2
      invariant forall m :: 0 <= m < t ==> a[m] == old(a[2 * m + off])
      invariant forall j :: t <= j < a.Length ==> a[j] == old(a[j])
    {
      a[t] := a[i + off];
      t := t + 1;
      i := i + 2;
    }
    forall m | 0 <= m < length / 2
      ensures a[m] == Sample(old(a[..]), m, littleEndian) / 256
    {
      assert old(a[..])[2 * m + off] == old(a[2 * m + off]);
    }
  }
}
