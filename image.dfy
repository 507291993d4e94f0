// The image geometry and FITS output of the SEDI camera program
// (rlags/SEDI_Camera/src/image.c): where a selection rectangle meets the
// exposed area, embedding a binned exposure in a full-chip frame, and the
// layout of the FITS header and data unit that is written to disk.

module Image {
  import opened Bytes

  /** The exposed area of an exposure (struct exposure_data): corners in
      unbinned chip pixels, the binning factors and the binned size. */
  datatype Exposure = Exposure(hTopL: UShort, vTopL: UShort, hBotR: UShort, vBotR: UShort,
                               hBin: UShort, vBin: UShort, hPix: UShort, vPix: UShort)

  /** The selection rectangle on the canvas: edges at htl and hbr, so that
      the selected pixels are htl to hbr - 1 (and vtl to vbr - 1). */
  datatype SelRect = SelRect(htl: int, vtl: int, hbr: int, vbr: int)

  /** The overlap passed back by is_in_image, as offsets from the exposure's
      top left pixel. */
  datatype Overlap = Overlap(xoff1: UShort, yoff1: UShort, xoff2: UShort, yoff2: UShort)

  function Max(a: int, b: int): (n: int) { if a >= b then a else b }
  function Min(a: int, b: int): (n: int) { if a <= b then a else b }

  // ---------------------------------------------------------------------
  // is_in_image

  /** is_in_image: the corners of the overlap are computed as ints and cast
      to gushort before they are compared; None is FALSE. */
  function IsInImage(ex: Exposure, sel: SelRect): (r: Option<Overlap>)
  {
    var xa1 := ToUShort(Max(ex.hTopL, sel.htl));
    var xa2 := ToUShort(Min(ex.hBotR, sel.hbr - 1));
    var ya1 := ToUShort(Max(ex.vTopL, sel.vtl));
    var ya2 := ToUShort(Min(ex.vBotR, sel.vbr - 1));
    if xa2 >= xa1 && ya2 >= ya1 then
      Some(Overlap(ToUShort(xa1 - ex.hTopL), ToUShort(ya1 - ex.vTopL),
                   ToUShort(xa2 - ex.hTopL), ToUShort(ya2 - ex.vTopL)))
    else
      None
  }

  /** Pixel x lies in the exposure's columns and in the selection's. */
  predicate InBoth(lo: int, hi: int, sLo: int, sHi: int, x: int)
  {
    lo <= x <= hi && sLo <= x < sHi
  }

  /** While no cast wraps (the selection's left and top edges below 65536,
      its right and bottom edges above 0), is_in_image reports an overlap
      exactly when some pixel lies in both, and the offsets then bound
      exactly those pixels. */
  lemma IsInImageExact(ex: Exposure, sel: SelRect)
    requires sel.htl < 0x1_0000 && sel.vtl < 0x1_0000 && sel.hbr >= 1 && sel.vbr >= 1
    ensures IsInImage(ex, sel).Some? <==>
      (exists x :: InBoth(ex.hTopL, ex.hBotR, sel.htl, sel.hbr, x)) &&
      (exists y :: InBoth(ex.vTopL, ex.vBotR, sel.vtl, sel.vbr, y))
    ensures IsInImage(ex, sel).Some? ==>
      var o := IsInImage(ex, sel).value;
      (forall x :: InBoth(ex.hTopL, ex.hBotR, sel.htl, sel.hbr, x) <==> o.xoff1 <= x - ex.hTopL <= o.xoff2) &&
      (forall y :: InBoth(ex.vTopL, ex.vBotR, sel.vtl, sel.vbr, y) <==> o.yoff1 <= y - ex.vTopL <= o.yoff2)
  {
    var xa1, xa2 := Max(ex.hTopL, sel.htl), Min(ex.hBotR, sel.hbr - 1);
    var ya1, ya2 := Max(ex.vTopL, sel.vtl), Min(ex.vBotR, sel.vbr - 1);
    if xa1 <= xa2 {
      assert InBoth(ex.hTopL, ex.hBotR, sel.htl, sel.hbr, xa1);
    }
    if ya1 <= ya2 {
      assert InBoth(ex.vTopL, ex.vBotR, sel.vtl, sel.vbr, ya1);
    }
  }

  /** When the selection lies wholly left of column 0, the cast of its right
      edge wraps to 65535 and is_in_image reports an overlap although no
      pixel is selected. */
  lemma IsInImageWraps()
    ensures var ex := Exposure(0, 0, 99, 99, 1, 1, 100, 100);
      var sel := SelRect(-10, 0, 0, 50);
      IsInImage(ex, sel).Some? &&
      !exists x :: InBoth(ex.hTopL, ex.hBotR, sel.htl, sel.hbr, x)
  {
    var ex := Exposure(0, 0, 99, 99, 1, 1, 100, 100);
    var sel := SelRect(-10, 0, 0, 50);
    assert ToUShort(Min(ex.hBotR, sel.hbr - 1)) == 0xFFFF;
  }

  /** is_in_image with the corners compared before the cast, as the test
      "does the selection meet the image" intends. */
  function IsInImageChecked(ex: Exposure, sel: SelRect): (r: Option<Overlap>)
    ensures r.Some? <==>
      (exists x :: InBoth(ex.hTopL, ex.hBotR, sel.htl, sel.hbr, x)) &&
      (exists y :: InBoth(ex.vTopL, ex.vBotR, sel.vtl, sel.vbr, y))
    ensures r.Some? ==>
      (forall x :: InBoth(ex.hTopL, ex.hBotR, sel.htl, sel.hbr, x) <==> r.value.xoff1 <= x - ex.hTopL <= r.value.xoff2) &&
      (forall y :: InBoth(ex.vTopL, ex.vBotR, sel.vtl, sel.vbr, y) <==> r.value.yoff1 <= y - ex.vTopL <= r.value.yoff2)
  {
    var xa1, xa2 := Max(ex.hTopL, sel.htl), Min(ex.hBotR, sel.hbr - 1);
    var ya1, ya2 := Max(ex.vTopL, sel.vtl), Min(ex.vBotR, sel.vbr - 1);
    if xa2 >= xa1 && ya2 >= ya1 then
      assert InBoth(ex.hTopL, ex.hBotR, sel.htl, sel.hbr, xa1);
      assert InBoth(ex.vTopL, ex.vBotR, sel.vtl, sel.vbr, ya1);
      Some(Overlap(xa1 - ex.hTopL, ya1 - ex.vTopL, xa2 - ex.hTopL, ya2 - ex.vTopL))
    else
      None
  }

  // ---------------------------------------------------------------------
  // image_embed_data

  /** Where in vadr the binned pixel covering chip row rr and column cc of
      the exposed area is stored. */
  function Binned(ex: Exposure, rr: nat, cc: nat): (n: int)
    requires ex.hBin > 0 && ex.vBin > 0
  {
    ex.hPix * (rr / ex.vBin) + cc / ex.hBin
  }

  /** Chip row r and column c lie in the first `rows` rows of the exposed area. */
  predicate InWindow(ex: Exposure, rows: nat, r: int, c: int)
  {
    ex.hBin > 0 && ex.vBin > 0 && ex.vTopL <= r < ex.vTopL + rows &&
    ex.hTopL <= c < ex.hTopL + ex.hPix * ex.hBin
  }

  /** What image_embed_data leaves at position p of the full frame, once the
      first `rows` chip rows of the exposed area are in place: inside them the
      binned pixel that covers p, elsewhere the minimum value. */
  ghost predicate EmbeddedAt(disp: seq<UShort>, vadr: seq<UShort>, ex: Exposure, maxH: nat,
                             min: UShort, rows: nat, p: nat)
    requires p < |disp| && maxH > 0
  {
    var r, c := p / maxH, p % maxH;
    if InWindow(ex, rows, r, c) then
      var i := Binned(ex, r - ex.vTopL, c - ex.hTopL);
      0 <= i < |vadr| && disp[p] == vadr[i]
    else
      disp[p] == min
  }

  ghost predicate EmbeddedUpTo(disp: seq<UShort>, vadr: seq<UShort>, ex: Exposure, maxH: nat, n: nat,
                               min: UShort, rows: nat)
    requires n <= |disp| && maxH > 0
  {
    forall p :: 0 <= p < n ==> EmbeddedAt(disp, vadr, ex, maxH, min, rows, p)
  }

  /** The fill loop of image_embed_data: counting down, every one of the
      first n positions gets the value. */
  method Fill(disp: array<UShort>, n: nat, val: UShort)
    requires n <= disp.Length
    modifies disp
    ensures forall p :: 0 <= p < n ==> disp[p] == val
    ensures forall p :: n <= p < disp.Length ==> disp[p] == old(disp[p])
  {
    var i := n;
    while i > 0
      invariant 0 <= i <= n
      invariant forall p :: i <= p < n ==> disp[p] == val
      invariant forall p :: n <= p < disp.Length ==> disp[p] == old(disp[p])
    {
      i := i - 1;
      disp[i] := val;
    }
  }

  /** The innermost loop: one binned pixel repeated across its hBin columns. */
  method Replicate(disp: array<UShort>, k: nat, val: UShort, n: nat)
    requires k + n <= disp.Length
    modifies disp
    ensures forall p :: k <= p < k + n ==> disp[p] == val
    ensures forall p :: 0 <= p < disp.Length && !(k <= p < k + n) ==> disp[p] == old(disp[p])
  {
    var j := 0;
    while j < n
      invariant 0 <= j <= n
      invariant forall p :: k <= p < k + j ==> disp[p] == val
      invariant forall p :: 0 <= p < disp.Length && !(k <= p < k + j) ==> disp[p] == old(disp[p])
    {
      disp[k + j] := val;
      j := j + 1;
    }
  }

  /** The first h positions of a row starting at k in the frame hold the
      binned pixels of vadr from `base` on, each hBin wide. */
  ghost predicate RowFrom(disp: seq<UShort>, vadr: seq<UShort>, k: nat, base: nat, hBin: nat, h: nat)
    requires k + h <= |disp| && hBin > 0
  {
    forall c :: 0 <= c < h ==> base + c / hBin < |vadr| && disp[k + c] == vadr[base + c / hBin]
  }

  /** Repeating binned pixel hb across the next hBin positions extends the row. */
  lemma RowStep(a: seq<UShort>, b: seq<UShort>, vadr: seq<UShort>, k: nat, base: nat, hBin: nat,
                hb: nat, h: nat)
    requires hBin > 0 && h == hb * hBin && |a| == |b| && k + h + hBin <= |b|
    requires base + hb < |vadr|
    requires RowFrom(a, vadr, k, base, hBin, h)
    requires forall p :: k + h <= p < k + h + hBin ==> b[p] == vadr[base + hb]
    requires forall p :: 0 <= p < |b| && !(k + h <= p < k + h + hBin) ==> b[p] == a[p]
    ensures RowFrom(b, vadr, k, base, hBin, h + hBin)
  {
    forall c | 0 <= c < h + hBin
      ensures base + c / hBin < |vadr| && b[k + c] == vadr[base + c / hBin]
    {
      if c < h {
        assert b[k + c] == a[k + c];
        DivMono(c, h, hBin);
        BlockDiv(hb, hBin, h);
      } else {
        BlockDiv(hb, hBin, c);
      }
    }
  }

  /** The loops over h and n: one chip row of the exposed area, starting at
      k in the frame, made of the binned pixels of vadr from `base` on. */
  method EmbedRow(vadr: array<UShort>, disp: array<UShort>, k: nat, base: nat, hPix: nat, hBin: nat, w: nat)
    requires vadr != disp && w == hPix * hBin
    requires k + w <= disp.Length && base + hPix <= vadr.Length
    modifies disp
    ensures hBin > 0 ==> RowFrom(disp[..], vadr[..], k, base, hBin, w)
    ensures forall p :: 0 <= p < disp.Length && !(k <= p < k + w) ==> disp[p] == old(disp[p])
  {
    var h := 0;
    ghost var hb := 0;
    while h < w
      invariant h == hb * hBin && 0 <= hb <= hPix && h <= w
      invariant hBin > 0 ==> RowFrom(disp[..], vadr[..], k, base, hBin, h)
      invariant forall p :: 0 <= p < disp.Length && !(k <= p < k + h) ==> disp[p] == old(disp[p])
    {
      StepInside(hb, hPix, hBin, h, w);
      ghost var before := disp[..];
      var val := vadr[base + h / hBin];
      Replicate(disp, k + h, val, hBin);
      RowStep(before, disp[..], vadr[..], k, base, hBin, hb, h);
      h := h + hBin;
      hb := hb + 1;
    }
  }

  /** Inside the row, the next block is a whole binned pixel of it. */
  lemma StepInside(hb: nat, hPix: nat, hBin: nat, h: nat, w: nat)
    requires h == hb * hBin && hb <= hPix && w == hPix * hBin && h < w
    ensures hBin > 0 && hb < hPix && h / hBin == hb && h + hBin <= w && h + hBin == (hb + 1) * hBin
  {
    if hBin == 0 {
      assert false;
    }
    if hb >= hPix {
      MulMono(hPix, hb, hBin);
    }
    NextRow(hb, hBin);
    MulMono(hb + 1, hPix, hBin);
    BlockDiv(hb, hBin, h);
  }

  /** Putting chip row `rows` of the exposed area in place, and changing
      nothing else, extends what is embedded by one row. */
  lemma EmbedStep(a: seq<UShort>, b: seq<UShort>, vadr: seq<UShort>, ex: Exposure, maxH: nat, n: nat,
                  min: UShort, rows: nat, next: nat, k: nat, base: nat)
    requires ex.hBin > 0 && ex.vBin > 0 && maxH > 0 && n <= |a| == |b| && next == rows + 1
    requires ex.hTopL + ex.hPix * ex.hBin <= maxH
    requires k == (ex.vTopL + rows) * maxH + ex.hTopL && (ex.vTopL + rows) * maxH + maxH <= n
    requires base == ex.hPix * (rows / ex.vBin)
    requires EmbeddedUpTo(a, vadr, ex, maxH, n, min, rows)
    requires RowFrom(b, vadr, k, base, ex.hBin, ex.hPix * ex.hBin)
    requires forall p :: 0 <= p < |b| && !(k <= p < k + ex.hPix * ex.hBin) ==> b[p] == a[p]
    ensures EmbeddedUpTo(b, vadr, ex, maxH, n, min, next)
  {
    forall p | 0 <= p < n
      ensures EmbeddedAt(b, vadr, ex, maxH, min, next, p)
    {
      EmbedStepAt(a, b, vadr, ex, maxH, n, min, rows, next, k, base, p);
    }
  }

  /** The step of EmbedStep at one position p. */
  lemma EmbedStepAt(a: seq<UShort>, b: seq<UShort>, vadr: seq<UShort>, ex: Exposure, maxH: nat, n: nat,
                    min: UShort, rows: nat, next: nat, k: nat, base: nat, p: nat)
    requires ex.hBin > 0 && ex.vBin > 0 && maxH > 0 && n <= |a| == |b| && next == rows + 1 && p < n
    requires ex.hTopL + ex.hPix * ex.hBin <= maxH
    requires k == (ex.vTopL + rows) * maxH + ex.hTopL && (ex.vTopL + rows) * maxH + maxH <= n
    requires base == ex.hPix * (rows / ex.vBin)
    requires EmbeddedAt(a, vadr, ex, maxH, min, rows, p)
    requires RowFrom(b, vadr, k, base, ex.hBin, ex.hPix * ex.hBin)
    requires !(k <= p < k + ex.hPix * ex.hBin) ==> b[p] == a[p]
    ensures EmbeddedAt(b, vadr, ex, maxH, min, next, p)
  {
    var w := ex.hPix * ex.hBin;
    var r, c := p / maxH, p % maxH;
    RowMembership(p, maxH, ex.vTopL + rows, ex.hTopL, w, k);
    if k <= p < k + w {
      var cc := p - k;
      assert r - ex.vTopL == rows && c - ex.hTopL == cc;
      assert InWindow(ex, next, r, c);
      assert base + cc / ex.hBin < |vadr| && b[k + cc] == vadr[base + cc / ex.hBin];
      assert Binned(ex, rows, cc) == base + cc / ex.hBin;
    } else {
      assert InWindow(ex, next, r, c) == InWindow(ex, rows, r, c);
    }
  }

  /** In a frame maxH wide, the w positions from column c0 of chip row rr are
      exactly those at rr * maxH + c0 onwards. */
  lemma RowMembership(p: nat, maxH: nat, rr: nat, c0: nat, w: nat, k: nat)
    requires maxH > 0 && k == rr * maxH + c0 && c0 + w <= maxH
    ensures (k <= p < k + w) <==> (p / maxH == rr && c0 <= p % maxH < c0 + w)
    ensures k <= p < k + w ==> p % maxH == c0 + (p - k)
  {
    assert p == (p / maxH) * maxH + p % maxH;
    if k <= p < k + w {
      BlockDiv(rr, maxH, p);
    }
  }

  /** A frame of the minimum value holds no rows of the exposure yet. */
  lemma EmbedNone(disp: seq<UShort>, vadr: seq<UShort>, ex: Exposure, maxH: nat, n: nat, min: UShort)
    requires maxH > 0 && n <= |disp|
    requires forall p :: 0 <= p < n ==> disp[p] == min
    ensures EmbeddedUpTo(disp, vadr, ex, maxH, n, min, 0)
  {
    forall p | 0 <= p < n
      ensures EmbeddedAt(disp, vadr, ex, maxH, min, 0, p)
    {
      assert !InWindow(ex, 0, p / maxH, p % maxH);
    }
  }

  /** Without columns (hBin = 0) no row of the frame changes what is
      embedded. */
  lemma EmbedNoColumns(disp: seq<UShort>, vadr: seq<UShort>, ex: Exposure, maxH: nat, n: nat,
                       min: UShort, rows: nat, next: nat)
    requires maxH > 0 && n <= |disp| && ex.hBin == 0
    requires EmbeddedUpTo(disp, vadr, ex, maxH, n, min, rows)
    ensures EmbeddedUpTo(disp, vadr, ex, maxH, n, min, next)
  {
    forall p | 0 <= p < n
      ensures EmbeddedAt(disp, vadr, ex, maxH, min, next, p)
    {
      assert EmbeddedAt(disp, vadr, ex, maxH, min, rows, p);
      assert !InWindow(ex, next, p / maxH, p % maxH);
      assert !InWindow(ex, rows, p / maxH, p % maxH);
    }
  }

  /** Where the loops over v and m stand: chip row v + m of the exposed area,
      binned row vb, and the place in vadr and in the frame that belong to it. */
  lemma RowPlace(ex: Exposure, maxH: nat, maxV: nat, v: nat, vb: nat, m: nat)
    requires ex.vBin > 0 && m < ex.vBin && vb < ex.vPix && v == vb * ex.vBin
    requires ex.vTopL + ex.vPix * ex.vBin <= maxV
    ensures ex.hPix * v / ex.vBin == ex.hPix * ((v + m) / ex.vBin) == ex.hPix * vb >= 0
    ensures ex.hPix * vb + ex.hPix <= ex.hPix * ex.vPix
    ensures v + m < ex.vPix * ex.vBin
    ensures (ex.vTopL + v + m) * maxH >= 0
    ensures (ex.vTopL + v + m) * maxH + maxH <= maxH * maxV
    ensures (ex.vTopL + v + m + 1) * maxH == (ex.vTopL + v + m) * maxH + maxH
  {
    BinnedRow(ex.hPix, ex.vBin, v, vb, m);
    assert ex.hPix * vb + ex.hPix <= ex.hPix * ex.vPix by {
      NextRow(vb, ex.hPix);
      MulMono(vb + 1, ex.vPix, ex.hPix);
    }
    BlockBounds(vb, ex.vPix, ex.vBin, m);
    FrameRow(ex.vTopL + v + m, maxH, maxV);
  }

  /** Chip row v + m of binned row vb starts binned row vb of vadr. */
  lemma BinnedRow(hPix: nat, vBin: nat, v: nat, vb: nat, m: nat)
    requires vBin > 0 && m < vBin && v == vb * vBin
    ensures hPix * v / vBin == hPix * ((v + m) / vBin) == hPix * vb >= 0
  {
    BlockDiv(vb, vBin, v + m);
    assert hPix * v == (hPix * vb) * vBin;
    MulMono(0, vb, hPix);
    BlockDiv(hPix * vb, vBin, hPix * v);
  }

  /** A row of the frame lies inside it. */
  lemma FrameRow(row: nat, maxH: nat, maxV: nat)
    requires row < maxV
    ensures row * maxH >= 0 && row * maxH + maxH <= maxH * maxV
    ensures (row + 1) * maxH == row * maxH + maxH
  {
    MulMono(0, row, maxH);
    NextRow(row, maxH);
    MulMono(row + 1, maxV, maxH);
  }

  /** image_embed_data: FALSE when either buffer is missing; otherwise the
      whole frame is set to the minimum value and every binned pixel of the
      exposure is repeated over the hBin by vBin chip pixels it covers. */
  method EmbedData(vadr: array?<UShort>, disp: array?<UShort>, ex: Exposure, maxH: nat, maxV: nat,
                   min: UShort) returns (ok: bool)
    requires vadr != null && disp != null ==>
      vadr != disp && maxH > 0 && disp.Length >= maxH * maxV && vadr.Length >= ex.hPix * ex.vPix &&
      ex.hTopL + ex.hPix * ex.hBin <= maxH && ex.vTopL + ex.vPix * ex.vBin <= maxV
    modifies disp
    ensures ok == (vadr != null && disp != null)
    ensures ok ==> EmbeddedUpTo(disp[..], vadr[..], ex, maxH, maxH * maxV, min, ex.vPix * ex.vBin)
    ensures disp != null ==> forall p :: maxH * maxV <= p < disp.Length ==> disp[p] == old(disp[p])
    ensures !ok && disp != null ==> disp[..] == old(disp[..])
  {
    if vadr == null || disp == null {
      return false;
    }
    var n := maxH * maxV;
    Fill(disp, n, min);
    EmbedNone(disp[..], vadr[..], ex, maxH, n, min);
    var w := ex.hPix * ex.hBin;
    var k := ex.hTopL + ex.vTopL * maxH;
    var v := 0;
    ghost var vb := 0;
    while v < ex.vPix * ex.vBin
      invariant v == vb * ex.vBin && 0 <= vb <= ex.vPix && v <= ex.vPix * ex.vBin
      invariant k == (ex.vTopL + v) * maxH + ex.hTopL
      invariant EmbeddedUpTo(disp[..], vadr[..], ex, maxH, n, min, v)
      invariant forall p :: n <= p < disp.Length ==> disp[p] == old(disp[p])
    {
      StepInside(vb, ex.vPix, ex.vBin, v, ex.vPix * ex.vBin);
      var m := 0;
      while m < ex.vBin
        invariant 0 <= m <= ex.vBin
        invariant k == (ex.vTopL + v + m) * maxH + ex.hTopL
        invariant EmbeddedUpTo(disp[..], vadr[..], ex, maxH, n, min, v + m)
        invariant forall p :: n <= p < disp.Length ==> disp[p] == old(disp[p])
      {
        EmbedChipRow(vadr, disp, ex, maxH, maxV, min, v, vb, m, k);
        k := k + w;
        k := k + maxH - w;
        m := m + 1;
      }
      v := v + ex.vBin;
      vb := vb + 1;
    }
    return true;
  }

  /** One round of the loop over m in image_embed_data: chip row v + m of the
      exposed area goes into its row of the frame. */
  method EmbedChipRow(vadr: array<UShort>, disp: array<UShort>, ex: Exposure, maxH: nat, maxV: nat,
                      min: UShort, v: nat, ghost vb: nat, m: nat, k: int)
    requires vadr != disp && maxH > 0 && disp.Length >= maxH * maxV && vadr.Length >= ex.hPix * ex.vPix
    requires ex.hTopL + ex.hPix * ex.hBin <= maxH && ex.vTopL + ex.vPix * ex.vBin <= maxV
    requires m < ex.vBin && vb < ex.vPix && v == vb * ex.vBin
    requires k == (ex.vTopL + v + m) * maxH + ex.hTopL
    requires EmbeddedUpTo(disp[..], vadr[..], ex, maxH, maxH * maxV, min, v + m)
    modifies disp
    ensures EmbeddedUpTo(disp[..], vadr[..], ex, maxH, maxH * maxV, min, v + m + 1)
    ensures forall p :: maxH * maxV <= p < disp.Length ==> disp[p] == old(disp[p])
    ensures k + maxH == (ex.vTopL + v + m + 1) * maxH + ex.hTopL
  {
    var n := maxH * maxV;
    RowPlace(ex, maxH, maxV, v, vb, m);
    var base := ex.hPix * v / ex.vBin;
    ghost var before := disp[..];
    EmbedRow(vadr, disp, k, base, ex.hPix, ex.hBin, ex.hPix * ex.hBin);
    if ex.hBin == 0 {
      assert disp[..] == before;
      EmbedNoColumns(disp[..], vadr[..], ex, maxH, n, min, v + m, v + m + 1);
    } else {
      EmbedStep(before, disp[..], vadr[..], ex, maxH, n, min, v + m, v + m + 1, k, base);
    }
  }

  /** Position c of block q (blocks b wide) lies before the end of n blocks. */
  lemma BlockBounds(q: nat, n: nat, b: nat, c: nat)
    requires q < n && c < b
    ensures q * b + c < n * b
  {
    NextRow(q, b);
    MulMono(q + 1, n, b);
  }

  /** Position c of block q (blocks b wide) lies in block q, before the end
      of n blocks. */
  lemma InBlock(q: nat, n: nat, b: nat, c: nat)
    requires q < n && c < b
    ensures q * b + c < n * b && (q * b + c) / b == q
  {
    BlockBounds(q, n, b, c);
    MulMono(0, q, b);
    BlockDiv(q, b, q * b + c);
  }

  /** Row `row`, column `col` of a frame maxH wide and maxV high. */
  lemma FramePlace(row: nat, col: nat, maxH: nat, maxV: nat, p: nat)
    requires row < maxV && col < maxH && p == row * maxH + col
    ensures p < maxH * maxV && p / maxH == row && p % maxH == col
  {
    BlockBounds(row, maxV, maxH, col);
    BlockDiv(row, maxH, p);
  }

  /** Where the frame holds chip row rr, column cc of the exposed area, it
      holds the binned pixel i that covers them. */
  lemma EmbeddedInWindow(disp: seq<UShort>, vadr: seq<UShort>, ex: Exposure, maxH: nat, maxV: nat,
                         min: UShort, rows: nat, row: nat, col: nat, p: nat, rr: nat, cc: nat, i: int)
    requires maxH > 0 && |disp| >= maxH * maxV && ex.hBin > 0 && ex.vBin > 0
    requires EmbeddedUpTo(disp, vadr, ex, maxH, maxH * maxV, min, rows)
    requires row < maxV && col < maxH && p == row * maxH + col
    requires row == ex.vTopL + rr && col == ex.hTopL + cc
    requires rr < rows && cc < ex.hPix * ex.hBin && i == Binned(ex, rr, cc)
    ensures p < maxH * maxV && 0 <= i < |vadr| && disp[p] == vadr[i]
  {
    FramePlace(row, col, maxH, maxV, p);
    assert EmbeddedAt(disp, vadr, ex, maxH, min, rows, p);
    assert InWindow(ex, rows, p / maxH, p % maxH);
  }

  /** Chip pixel (hb * hBin + c, vb * vBin + m) of the exposed area lies in
      it and bins to binned pixel (hb, vb). */
  lemma BinnedBlock(ex: Exposure, vb: nat, hb: nat, m: nat, c: nat)
    requires vb < ex.vPix && hb < ex.hPix && m < ex.vBin && c < ex.hBin
    ensures 0 <= vb * ex.vBin + m < ex.vPix * ex.vBin && 0 <= hb * ex.hBin + c < ex.hPix * ex.hBin
    ensures Binned(ex, vb * ex.vBin + m, hb * ex.hBin + c) == vb * ex.hPix + hb
  {
    InBlock(vb, ex.vPix, ex.vBin, m);
    InBlock(hb, ex.hPix, ex.hBin, c);
    MulMono(0, vb, ex.vBin);
    MulMono(0, hb, ex.hBin);
  }

  /** Once embedded, chip pixel (hb * hBin + c, vb * vBin + m) of the exposed
      area, placed at its offset in the frame, holds binned pixel (hb, vb). */
  lemma EmbeddedBlock(disp: seq<UShort>, vadr: seq<UShort>, ex: Exposure, maxH: nat, maxV: nat,
                      min: UShort, vb: nat, hb: nat, m: nat, c: nat, p: nat)
    requires maxH > 0 && |disp| >= maxH * maxV
    requires ex.hTopL + ex.hPix * ex.hBin <= maxH && ex.vTopL + ex.vPix * ex.vBin <= maxV
    requires EmbeddedUpTo(disp, vadr, ex, maxH, maxH * maxV, min, ex.vPix * ex.vBin)
    requires vb < ex.vPix && hb < ex.hPix && m < ex.vBin && c < ex.hBin
    requires p == (ex.vTopL + vb * ex.vBin + m) * maxH + ex.hTopL + hb * ex.hBin + c
    ensures p < maxH * maxV && 0 <= vb * ex.hPix + hb < |vadr| && disp[p] == vadr[vb * ex.hPix + hb]
  {
    var rr, cc := vb * ex.vBin + m, hb * ex.hBin + c;
    BinnedBlock(ex, vb, hb, m, c);
    EmbeddedInWindow(disp, vadr, ex, maxH, maxV, min, ex.vPix * ex.vBin, ex.vTopL + rr, ex.hTopL + cc,
                     p, rr, cc, vb * ex.hPix + hb);
  }

  // ---------------------------------------------------------------------
  // The size of the FITS header and data unit

  const REC_LEN: nat := 2880
  const HEAD_LEN: nat := 1 * 2880
  const CARD_LEN: nat := 80
  const OFFSET: nat := 32768

  /** numbytes of image_save_as_fits: the header record, two bytes per
      pixel and the padding to the record length. */
  function NumBytes(numpix: nat): (n: nat)
  {
    HEAD_LEN + numpix * 2 + (REC_LEN - (numpix * 2) % REC_LEN)
  }

  /** The unit is a whole number of 2880-byte records, and the padding after
      the data is at least one byte and at most one record. */
  lemma NumBytesRecords(numpix: nat)
    ensures NumBytes(numpix) % REC_LEN == 0
    ensures 0 < NumBytes(numpix) - HEAD_LEN - 2 * numpix <= REC_LEN
    ensures (NumBytes(numpix) - HEAD_LEN) % 2 == 0
  {
    var d := numpix * 2;
    assert d == REC_LEN * (d / REC_LEN) + d % REC_LEN;
    assert NumBytes(numpix) == REC_LEN * (d / REC_LEN + 2);
  }

  // ---------------------------------------------------------------------
  // The FITS header record

  /** A byte of the header record: a character, or the NUL with which
      sprintf ends what it prints. */
  datatype HChar = Ch(c: char) | Nul

  /** The characters of s as bytes of the record. */
  function Chars(s: string): (b: seq<HChar>)
    ensures |b| == |s| && forall j :: 0 <= j < |s| ==> b[j] == Ch(s[j])
  {
    seq(|s|, j requires 0 <= j < |s| => Ch(s[j]))
  }

  /** What the header record holds at position p once the cards cs have been
      written: card p / 80, or a space where the card is shorter. */
  function CardChar(cs: seq<string>, p: int): (v: HChar)
  {
    var i, j := p / CARD_LEN, p % CARD_LEN;
    if 0 <= i < |cs| && j < |cs[i]| then Ch(cs[i][j]) else Ch(' ')
  }

  /** The header record of the cards cs: no NUL is left in it. */
  function Block(cs: seq<string>): (b: seq<HChar>)
    ensures |b| == HEAD_LEN && Nul !in b
    ensures forall p :: 0 <= p < HEAD_LEN ==> b[p] == CardChar(cs, p)
  {
    seq(HEAD_LEN, p => CardChar(cs, p))
  }

  /** The cards fit the record: at most 35 of them, none longer than a card. */
  predicate CardsFit(cs: seq<string>)
  {
    |cs| <= 35 && forall i :: 0 <= i < |cs| ==> |cs[i]| <= CARD_LEN
  }

  /** The memset of image_save_as_fits: the record filled with c. */
  method Memset(hdr: array<HChar>, c: HChar)
    modifies hdr
    ensures forall p :: 0 <= p < hdr.Length ==> hdr[p] == c
  {
    var p := 0;
    while p < hdr.Length
      invariant 0 <= p <= hdr.Length
      invariant forall q :: 0 <= q < p ==> hdr[q] == c
    {
      hdr[p] := c;
      p := p + 1;
    }
  }

  /** sprintf(&header[h], card): the card's characters, then a NUL. */
  method Sprintf(hdr: array<HChar>, h: nat, card: string)
    requires h + |card| < hdr.Length
    modifies hdr
    ensures forall p :: 0 <= p < hdr.Length ==>
      hdr[p] == (if h <= p < h + |card| then Ch(card[p - h]) else if p == h + |card| then Nul else old(hdr[p]))
  {
    var j := 0;
    while j < |card|
      invariant 0 <= j <= |card|
      invariant forall p :: 0 <= p < hdr.Length ==>
        hdr[p] == (if h <= p < h + j then Ch(card[p - h]) else old(hdr[p]))
    {
      hdr[h + j] := Ch(card[j]);
      j := j + 1;
    }
    hdr[h + |card|] := Nul;
  }

  /** strlen(header): the position of the first NUL. */
  method StrLen(hdr: array<HChar>) returns (n: nat)
    requires Nul in hdr[..]
    ensures n < hdr.Length && hdr[n] == Nul
    ensures forall p :: 0 <= p < n ==> hdr[p] != Nul
  {
    n := 0;
    while hdr[n] != Nul
      invariant n < hdr.Length && Nul in hdr[n..]
      invariant forall p :: 0 <= p < n ==> hdr[p] != Nul
      decreases hdr.Length - n
    {
      assert hdr[n..] == [hdr[n]] + hdr[n + 1..];
      n := n + 1;
    }
  }

  /** Writing card cs[i] at 80 * i over the record of cs[..i], and nothing
      else, gives the record of cs[..i + 1]. */
  lemma CardStep(a: seq<HChar>, b: seq<HChar>, cs: seq<string>, i: nat)
    requires i < |cs| && CardsFit(cs) && |a| == |b| == HEAD_LEN
    requires forall p :: 0 <= p < HEAD_LEN ==> a[p] == CardChar(cs[..i], p)
    requires forall p :: 0 <= p < HEAD_LEN ==>
      b[p] == (if CARD_LEN * i <= p < CARD_LEN * i + |cs[i]| then Ch(cs[i][p - CARD_LEN * i]) else a[p])
    ensures forall p :: 0 <= p < HEAD_LEN ==> b[p] == CardChar(cs[..i + 1], p)
  {
    forall p | 0 <= p < HEAD_LEN
      ensures b[p] == CardChar(cs[..i + 1], p)
    {
      var q, j := p / CARD_LEN, p % CARD_LEN;
      assert p == CARD_LEN * q + j;
      if q < i {
        assert cs[..i + 1][q] == cs[..i][q];
      }
    }
  }

  /** The card-writing part of image_save_as_fits: the record is filled with
      spaces, then each card is printed at the next multiple of 80 and the
      NUL that sprintf leaves behind it is found with strlen and replaced by
      a space. */
  method WriteHeader(hdr: array<HChar>, cards: seq<string>)
    requires hdr.Length == HEAD_LEN && CardsFit(cards)
    modifies hdr
    ensures hdr[..] == Block(cards)
  {
    Memset(hdr, Ch(' '));
    var h: int := -(CARD_LEN as int);
    var i := 0;
    while i < |cards|
      invariant 0 <= i <= |cards| && h == CARD_LEN * i - CARD_LEN
      invariant forall p :: 0 <= p < HEAD_LEN ==> hdr[p] == CardChar(cards[..i], p)
    {
      h := h + CARD_LEN;
      ghost var before := hdr[..];
      Sprintf(hdr, h, cards[i]);
      assert hdr[..][h + |cards[i]|] == Nul;
      var n := StrLen(hdr);
      assert n == h + |cards[i]|;
      assert before[n] == Ch(' ');
      hdr[n] := Ch(' ');
      CardStep(before, hdr[..], cards, i);
      i := i + 1;
    }
    assert cards[..i] == cards;
  }

  /** Position i of the record of fitting cards holds card i, padded with
      spaces to 80 characters. */
  lemma BlockCard(cs: seq<string>, i: nat)
    requires CardsFit(cs) && i < |cs|
    ensures Block(cs)[CARD_LEN * i .. CARD_LEN * i + CARD_LEN] == Chars(cs[i] + Spaces(CARD_LEN - |cs[i]|))
  {
    var b := Block(cs)[CARD_LEN * i .. CARD_LEN * i + CARD_LEN];
    var t := Chars(cs[i] + Spaces(CARD_LEN - |cs[i]|));
    forall j | 0 <= j < CARD_LEN
      ensures b[j] == t[j]
    {
      var p := CARD_LEN * i + j;
      assert p / CARD_LEN == i && p % CARD_LEN == j;
    }
  }

  /** After the last card the record holds only spaces. */
  lemma BlockTail(cs: seq<string>, p: nat)
    requires CARD_LEN * |cs| <= p < HEAD_LEN
    ensures Block(cs)[p] == Ch(' ')
  {
    assert p / CARD_LEN >= |cs|;
  }

  function Spaces(n: nat): (s: string)
    ensures |s| == n && forall i :: 0 <= i < n ==> s[i] == ' '
  {
    seq(n, _ => ' ')
  }

  // ---------------------------------------------------------------------
  // The cards of image_save_as_fits

  /** printf's %<n>s: s at the right of at least n columns, spaces before. */
  function RightJust(s: string, n: nat): (t: string)
    ensures |t| == (if |s| < n then n else |s|) && t[|t| - |s|..] == s
    ensures forall j :: 0 <= j < |t| - |s| ==> t[j] == ' '
  {
    if |s| < n then Spaces(n - |s|) + s else s
  }

  /** printf's %-<n>s: s at the left of at least n columns, spaces after. */
  function LeftJust(s: string, n: nat): (t: string)
    ensures |t| == (if |s| < n then n else |s|) && t[..|s|] == s
    ensures forall j :: |s| <= j < |t| ==> t[j] == ' '
  {
    if |s| < n then s + Spaces(n - |s|) else s
  }

  /** A card "KEY     = <value> /comment" whose value is right-justified in
      the 20 columns that end in column 30, as %20i and %20.<d>f print it
      (and as the literal SIMPLE, BITPIX, NAXIS and CRPIX cards lay it out). */
  function ValueCard(key: string, text: string, comment: string): (c: string)
  {
    key + "= " + RightJust(text, 20) + " /" + comment
  }

  /** A %20i card. */
  function IntCard(key: string, v: int, comment: string): (c: string)
  {
    ValueCard(key, FormatInt(v), comment)
  }

  /** A card whose value is left-justified in the 20 value columns. */
  function StringCard(key: string, text: string, comment: string): (c: string)
  {
    key + "= " + LeftJust(text, 20) + " /" + comment
  }

  /** A card "KEY     = '<field>'<gap spaces>/comment". */
  function QuotedCard(key: string, field: string, gap: nat, comment: string): (c: string)
  {
    key + "= '" + field + "'" + Spaces(gap) + "/" + comment
  }

  /** The kinds of camera image_save_as_fits tells apart. */
  datatype CamId = CCD | AUG | VID

  /** The values that image_save_as_fits prints into the header. The texts
      of floating-point values are as printf's %.<d>f formats them; the
      integer-valued CRVAL1 and CRVAL2 are formatted in the model. `full`
      is the condition `display && id == CCD && FullFrame` of the source. */
  datatype FitsInfo = FitsInfo(
    id: CamId, full: bool, ex: Exposure, maxH: nat, maxV: nat,
    dataMax: UShort, dataMin: UShort, ccdTemp: string, focusPos: int, focusTemp: string,
    dateObs: string, utStart: string, tmStart: string, expTime: string,
    telescop: string, instrume: string, observer: string, objectName: string,
    equinox: string, ra: string, dec: string, bayerTile: Option<int>)

  /** The Bayer pattern names for the tiles of debayer_get_tile, flipped
      because the rows are saved bottom-up. */
  function BayerName(tile: int): (bp: string)
    ensures |bp| == 2
  {
    if tile == 512 then "GB"
    else if tile == 513 then "RG"
    else if tile == 514 then "BG"
    else if tile == 515 then "GR"
    else "??"
  }

  /** The horizontal and vertical numbers of pixels saved: the whole chip
      for a full-frame display copy, the binned exposure otherwise. */
  function Axes(info: FitsInfo): (wr: (nat, nat))
  {
    if info.full then (info.maxH, info.maxV) else (info.ex.hPix, info.ex.vPix)
  }

  /** The pixel offset of the saved area on each axis: zero unless a CCD
      exposure is saved as it was read, then the left edge and the rows
      below it. */
  function Crval(info: FitsInfo): (xy: (int, int))
  {
    if info.id != CCD || info.full then (0, 0)
    else (info.ex.hTopL, info.maxV - (info.ex.vTopL + info.ex.vPix * info.ex.vBin))
  }

  /** A string card of the observer's entries, empty for video frames. */
  function EntryCard(key: string, info: FitsInfo, v: string): (c: string)
  {
    key + "= '" + (if info.id != VID then v else "") + "'"
  }

  /** The cards of image_save_as_fits in order, ending with END. */
  function Cards(info: FitsInfo): (cs: seq<string>)
  {
    HeadCards(info) + AxisCards(info) + ValueCards(info) + ObsCards(info) + EntryCards(info) +
    BayerCards(info) + ["END"]
  }

  /** SIMPLE, BITPIX and the axis lengths. */
  function HeadCards(info: FitsInfo): (cs: seq<string>)
  {
    var (w, rows) := Axes(info);
    [ ValueCard("SIMPLE  ", "T", "   Standard conforming file"),
      ValueCard("BITPIX  ", "16", "   16 bits per pixel"),
      ValueCard("NAXIS   ", "2", "   2 image axes"),
      IntCard("NAXIS1  ", w, "   no. pixels on horizontal axis"),
      IntCard("NAXIS2  ", rows, "   no. pixels on vertical axis") ]
  }

  /** The coordinate cards of both axes. */
  function AxisCards(info: FitsInfo): (cs: seq<string>)
  {
    var (x0, y0) := Crval(info);
    [ StringCard("CTYPE1  ", "' '", "   axis 1 data type"),
      ValueCard("CRPIX1  ", "1.0", "   reference point at first pixel on axis 1"),
      ValueCard("CRVAL1  ", FormatInt(x0) + ".0", "   pixel offset from start of frame on axis 1"),
      IntCard("CDELT1  ", info.ex.hBin, "   rate of increase of pixel count "),
      StringCard("CTYPE2  ", "' '", "   axis 2 data type"),
      ValueCard("CRPIX2  ", "1.0", "   reference point at first pixel on axis 2"),
      ValueCard("CRVAL2  ", FormatInt(y0) + ".0", "   pixel offset from start of frame on axis 2"),
      IntCard("CDELT2  ", info.ex.vBin, "   rate of increase of pixel count ") ]
  }

  /** Binning, the offset back to unsigned values and the data range. */
  function ValueCards(info: FitsInfo): (cs: seq<string>)
  {
    [ IntCard("BINX1   ", info.ex.hBin, "   pixel binning on X1 axis"),
      IntCard("BINX2   ", info.ex.vBin, "   pixel binning on X2 axis"),
      IntCard("BZERO   ", OFFSET, "   offset to add back on for unsigned integers"),
      IntCard("DATAMAX ", info.dataMax, "   maximum data value"),
      IntCard("DATAMIN ", info.dataMin, "   minimum data value") ]
  }

  /** Temperatures, focuser position and the time of the observation. */
  function ObsCards(info: FitsInfo): (cs: seq<string>)
  {
    [ ValueCard("CCDTEMP ", info.ccdTemp, "   CCD temperature (C)"),
      IntCard("FOCUSPOS", info.focusPos, "   focuser position"),
      ValueCard("FOCUSTMP", info.focusTemp, "   focuser temperature (C)"),
      QuotedCard("DATE-OBS", LeftJust(info.dateObs, 23), 0, "   date of start of observation (UTC)"),
      QuotedCard("UTSTART ", LeftJust(info.utStart, 12), 7, "   time of start of observation (UTC)"),
      ValueCard("TM-START", info.tmStart, "   seconds since midnight (UTC) at start of obs."),
      ValueCard("EXPTIME ", info.expTime, "   exposure length (seconds)") ]
  }

  /** The observer's entries, the epoch and the pointing. */
  function EntryCards(info: FitsInfo): (cs: seq<string>)
  {
    [ EntryCard("TELESCOP", info, info.telescop),
      EntryCard("INSTRUME", info, info.instrume),
      EntryCard("OBSERVER", info, info.observer),
      EntryCard("OBJECT  ", info, info.objectName),
      ValueCard("EQUINOX ", info.equinox, "   Julian epoch of coordinates"),
      QuotedCard("RA      ", RightJust(info.ra, 8), 11, "   Right Ascension of center of image"),
      QuotedCard("DEC     ", RightJust(info.dec, 9), 10, "   declination of center of image") ]
  }

  /** The Bayer pattern card, present for an undebayered, unbinned CCD frame. */
  function BayerCards(info: FitsInfo): (cs: seq<string>)
  {
    if info.bayerTile.Some? then
      [QuotedCard("BAYERPAT", BayerName(info.bayerTile.value), 17, "   bayer pattern at start of image")]
    else []
  }

  /** A %20i card of a value of magnitude below 10^k fits its 80 columns
      when its comment leaves room for the value. */
  lemma IntCardFits(key: string, v: int, k: nat, comment: string)
    requires |key| == 8 && 1 <= k <= 19 && -(Pow10(k) as int) < v < Pow10(k)
    requires |comment| <= 48
    ensures |IntCard(key, v, comment)| <= CARD_LEN
  {
    FormatIntLength(v, k);
  }

  /** strtol skips the spaces that lead a string. */
  lemma {:induction false} SkipSpaces(s: string, n: nat)
    requires n <= |s| && forall j :: 0 <= j < n ==> s[j] == ' '
    ensures SkipSpace(s) == SkipSpace(s[n..])
  {
    if n > 0 {
      assert IsCSpace(s[0]);
      assert s[1..][n - 1..] == s[n..];
      SkipSpaces(s[1..], n - 1);
    }
  }

  /** A reader that takes the value of an integer card with strtol from
      column 11 on gets back the value printed. */
  lemma IntCardReads(key: string, v: int, comment: string)
    requires |key| == 8
    ensures StrToL(IntCard(key, v, comment)[10..]) == v
  {
    var f := FormatInt(v);
    var rest := " /" + comment;
    var t := RightJust(f, 20) + rest;
    assert IntCard(key, v, comment) == (key + "= ") + t;
    assert IntCard(key, v, comment)[10..] == t;
    StrToLOfFormat(v, 0, rest);
    FormatIntHead(v);
    var n := |RightJust(f, 20)| - |f|;
    TailOfJoin(RightJust(f, 20), rest, n);
    SkipSpaces(t, n);
    assert SkipSpace(f + rest) == f + rest;
    SameSkip(t, f + rest);
  }

  /** %d starts with a sign or a digit, never a space. */
  lemma FormatIntHead(v: int)
    ensures FormatInt(v) != [] && !IsCSpace(FormatInt(v)[0])
  {
    var d := NatToDec(if v < 0 then -v else v);
    assert Zeros(0) == [];
    if v >= 0 {
      assert FormatInt(v) == d;
      assert IsDigit(d[0]);
    } else {
      assert FormatInt(v) == "-" + d;
    }
  }

  lemma TailOfJoin(a: string, b: string, n: nat)
    requires n <= |a|
    ensures (a + b)[n..] == a[n..] + b
  {
  }

  lemma SameSkip(s: string, t: string)
    requires SkipSpace(s) == SkipSpace(t)
    ensures StrToL(s) == StrToL(t)
  {
  }

  // ---------------------------------------------------------------------
  // The data part of image_save_as_fits

  /** The colour planes of a colour image, and greyscale. */
  datatype Colour = R | G | B | GREY

  /** The buffers image_save_as_fits takes its samples from. */
  datatype Buffer = Vadr | Disp16 | Disp16x3 | Bvadr | Disp8x3

  /** Where the samples of a save come from: pixel j is element
      plane + stride * j of buf, and a row is the whole chip wide
      (cam_cap.max_h) or the exposure wide (exd.h_pix). */
  datatype Layout = Layout(buf: Buffer, stride: nat, plane: nat, wholeChip: bool)

  /** The choice of source buffer and row width in image_save_as_fits. */
  function SaveLayout(id: CamId, colour: Colour, full: bool): (l: Layout)
    ensures l.plane < l.stride <= 3
    ensures l.wholeChip <==> id == CCD && full
    ensures l.stride == 3 <==> id == AUG || (id == CCD && colour != GREY)
  {
    match id
    case CCD =>
      if colour == GREY then Layout(if full then Disp16 else Vadr, 1, 0, full)
      else
        var c := if colour == R then 0 else if colour == G then 1 else 2;
        Layout(if full then Disp16x3 else Bvadr, 3, c, full)
    case AUG => Layout(Disp8x3, 3, 0, false)
    case VID => Layout(Vadr, 1, 0, false)
  }

  /** The value stored for a sample: shifted by BZERO into the range of a
      signed 16-bit word. */
  function Word(v: UShort): (w: int)
    ensures -0x8000 <= w < 0x8000 && w + OFFSET == v
  {
    v - OFFSET
  }

  /** GINT16_TO_BE: the two bytes of a 16-bit word, most significant first. */
  function BigEndian(w: int): (b: (Byte, Byte))
    requires -0x8000 <= w < 0x8000
  {
    var u := ToUShort(w);
    (u / 256, u % 256)
  }

  /** A FITS reader that takes the two bytes as a signed big-endian word and
      adds BZERO gets back the sample. */
  lemma BigEndianReads(v: UShort)
    ensures var b := BigEndian(Word(v)); ToInt16(b.0 * 256 + b.1) + OFFSET == v
  {
    var w := Word(v);
    var u := ToUShort(w);
    assert u / 256 * 256 + u % 256 == u;
    if w < 0 {
      assert u == w + 0x1_0000;
    }
  }

  /** The pixel saved at position q of the data: rows are written from the
      last to the first, each from left to right. */
  function Pixel(w: nat, rows: nat, q: int): (j: int)
    requires w >= 1
  {
    (rows - 1 - q / w) * w + q % w
  }

  /** Saved positions and pixels correspond one to one: the pixel of a
      position lies in the image, and saving twice over gives the position
      back. */
  lemma PixelFlip(w: nat, rows: nat, q: int)
    requires w >= 1 && 0 <= q < w * rows
    ensures 0 <= Pixel(w, rows, q) < w * rows
    ensures Pixel(w, rows, Pixel(w, rows, q)) == q
  {
    var r := q / w;
    BlockDiv(r, w, q);
    assert 0 <= r by {
      if r < 0 { MulMono(r, -1, w); }
    }
    assert r < rows by {
      if r >= rows { MulMono(rows, r, w); }
    }
    var j := Pixel(w, rows, q);
    var c := q - r * w;
    assert j == (rows - 1 - r) * w + c;
    BlockDiv(rows - 1 - r, w, j);
    MulMono(rows - 1 - r, rows - 1, w);
    NextRow(rows - 1, w);
    MulMono(0, rows - 1 - r, w);
  }

  /** The index in the source buffer of pixel j. */
  function Idx(l: Layout, j: int): (n: int)
  {
    l.plane + l.stride * j
  }

  /** The word saved for pixel j (0 outside the buffer, which the callers
      rule out). */
  function SampleAt(src: seq<UShort>, l: Layout, j: int): (n: int)
  {
    if 0 <= Idx(l, j) < |src| then Word(src[Idx(l, j)]) else 0
  }

  /** Pixels before the last one lie in the buffer when the last one does. */
  lemma IdxBelow(l: Layout, j: int, n: int, len: nat)
    requires 0 <= j < n && Idx(l, n - 1) < len
    ensures 0 <= Idx(l, j) < len
  {
    MulMono(j, n - 1, l.stride);
    MulMono(0, j, l.stride);
  }

  /** Positions 0 .. n - 1 of data hold the words of their pixels. */
  ghost predicate SavedUpTo(data: seq<int>, src: seq<UShort>, l: Layout, w: nat, rows: nat, n: int)
    requires w >= 1
  {
    forall q :: 0 <= q < n ==> q < |data| && data[q] == SampleAt(src, l, Pixel(w, rows, q))
  }

  /** The inner loop: the pixels k .. k + w - 1 of one row, converted, at
      data[i ..]. */
  method SaveRow(src: array<UShort>, l: Layout, data: array<int>, i: nat, k: nat, w: nat) returns (i': nat)
    requires i + w <= data.Length && (w == 0 || Idx(l, k + w - 1) < src.Length)
    modifies data
    ensures i' == i + w
    ensures forall q :: 0 <= q < data.Length ==>
      data[q] == (if i <= q < i + w then SampleAt(src[..], l, k + q - i) else old(data[q]))
  {
    i' := i;
    var j := k;
    while j < k + w
      invariant k <= j <= k + w && i' == i + (j - k)
      invariant forall q :: 0 <= q < data.Length ==>
        data[q] == (if i <= q < i' then SampleAt(src[..], l, k + q - i) else old(data[q]))
    {
      IdxBelow(l, j, k + w, src.Length);
      data[i'] := Word(src[l.plane + l.stride * j]);
      i' := i' + 1;
      j := j + 1;
    }
  }

  /** A row written at position (rows - 1 - r) * w extends what has been
      saved by that row. */
  lemma SaveStep(a: seq<int>, b: seq<int>, src: seq<UShort>, l: Layout, w: nat, rows: nat, r: nat, i0: nat)
    requires w >= 1 && r < rows && |a| == |b| && i0 == (rows - 1 - r) * w && i0 + w <= |b|
    requires SavedUpTo(a, src, l, w, rows, i0)
    requires forall q :: 0 <= q < |b| ==>
      b[q] == (if i0 <= q < i0 + w then SampleAt(src, l, r * w + q - i0) else a[q])
    ensures SavedUpTo(b, src, l, w, rows, i0 + w)
  {
    forall q | 0 <= q < i0 + w
      ensures q < |b| && b[q] == SampleAt(src, l, Pixel(w, rows, q))
    {
      if q >= i0 {
        BlockDiv(rows - 1 - r, w, q);
        assert Pixel(w, rows, q) == r * w + q - i0;
      }
    }
  }

  /** The data-writing part of image_save_as_fits: the rows of the image from
      the last to the first, each sample shifted by BZERO, then zeros up to
      the end of the last record. The source loop does not end for
      zero-width rows, hence w >= 1. */
  method SaveData(src: array<UShort>, l: Layout, w: nat, rows: nat, data: array<int>)
    requires w >= 1 && (rows == 0 || Idx(l, w * rows - 1) < src.Length)
    requires data.Length == (NumBytes(w * rows) - HEAD_LEN) / 2
    modifies data
    ensures forall q :: 0 <= q < w * rows ==> data[q] == SampleAt(src[..], l, Pixel(w, rows, q))
    ensures forall q :: w * rows <= q < data.Length ==> data[q] == 0
  {
    NumBytesRecords(w * rows);
    SaveRows(src, l, w, rows, data);
    var i := w * rows;
    while i < data.Length
      invariant w * rows <= i <= data.Length
      invariant SavedUpTo(data[..], src[..], l, w, rows, w * rows)
      invariant forall q :: w * rows <= q < i ==> data[q] == 0
    {
      data[i] := 0;
      i := i + 1;
    }
  }

  /** The outer loop of SaveData: the rows from the last to the first, each
      converted in place at the next w positions of data. */
  method SaveRows(src: array<UShort>, l: Layout, w: nat, rows: nat, data: array<int>)
    requires w >= 1 && (rows == 0 || Idx(l, w * rows - 1) < src.Length) && w * rows <= data.Length
    modifies data
    ensures SavedUpTo(data[..], src[..], l, w, rows, w * rows)
  {
    var i: nat := 0;
    var k: int := w * rows - w;
    ghost var r: int := rows - 1;
    NextRow(rows - 1, w);
    while k >= 0
      invariant -1 <= r < rows && k == r * w
      invariant i == (rows - 1 - r) * w
      invariant SavedUpTo(data[..], src[..], l, w, rows, i)
    {
      i := SaveRowAt(src, l, w, rows, data, i, k, r);
      k := k - w;
      r := r - 1;
    }
  }

  /** One round of the outer loop of SaveData: row r goes to the next w
      positions of data. */
  method SaveRowAt(src: array<UShort>, l: Layout, w: nat, rows: nat, data: array<int>, i: nat, k: int,
                   ghost r: int) returns (i': nat)
    requires w >= 1 && 0 <= r < rows && Idx(l, w * rows - 1) < src.Length && w * rows <= data.Length
    requires k == r * w && i == (rows - 1 - r) * w
    requires SavedUpTo(data[..], src[..], l, w, rows, i)
    modifies data
    ensures i' == (rows - 1 - (r - 1)) * w && k - w == (r - 1) * w
    ensures SavedUpTo(data[..], src[..], l, w, rows, i')
  {
    RowArith(r, w, rows);
    IdxMono(l, r * w + w - 1, w * rows - 1);
    ghost var before := data[..];
    i' := SaveRow(src, l, data, i, k, w);
    SaveStep(before, data[..], src[..], l, w, rows, r, i);
  }

  /** The row arithmetic of the outer loop of SaveData. */
  lemma RowArith(r: int, w: nat, rows: nat)
    requires 0 <= r < rows
    ensures 0 <= r * w && r * w + w <= w * rows
    ensures 0 <= (rows - 1 - r) * w && (rows - 1 - r) * w + w == (rows - 1 - (r - 1)) * w
    ensures (r - 1) * w == r * w - w
  {
    MulMono(0, r, w);
    NextRow(r, w);
    MulMono(r + 1, rows, w);
    NextRow(rows - 1 - r, w);
    MulMono(0, rows - 1 - r, w);
    NextRow(r - 1, w);
  }

  lemma IdxMono(l: Layout, j: int, n: int)
    requires j <= n
    ensures Idx(l, j) <= Idx(l, n)
  {
    MulMono(j, n, l.stride);
  }

  /** Every pixel saved lies in the source buffer, and the data part is a
      permutation of the image: each pixel is saved at exactly one position. */
  lemma SavedPixels(l: Layout, w: nat, rows: nat, len: nat)
    requires w >= 1 && (rows == 0 || Idx(l, w * rows - 1) < len)
    ensures forall q :: 0 <= q < w * rows ==> 0 <= Idx(l, Pixel(w, rows, q)) < len
    ensures forall j :: 0 <= j < w * rows ==> 0 <= Pixel(w, rows, j) < w * rows && Pixel(w, rows, Pixel(w, rows, j)) == j
  {
    forall q | 0 <= q < w * rows
      ensures 0 <= Idx(l, Pixel(w, rows, q)) < len
      ensures 0 <= Pixel(w, rows, q) < w * rows && Pixel(w, rows, Pixel(w, rows, q)) == q
    {
      PixelFlip(w, rows, q);
      IdxBelow(l, Pixel(w, rows, q), w * rows, len);
    }
  }

  /** The rows written are as wide as NAXIS1 says and as many as NAXIS2
      says: the loops and the header agree on the layout. */
  lemma LayoutMatchesAxes(info: FitsInfo, colour: Colour)
    requires info.full ==> info.id == CCD
    ensures var l := SaveLayout(info.id, colour, info.full);
      (if l.wholeChip then (info.maxH, info.maxV) else (info.ex.hPix, info.ex.vPix)) == Axes(info)
  {
  }
}
