/** The classical computer-vision stencil strategies of `StencilCV`: edge
    outlines, filled silhouettes, their combination and the dispatcher that
    picks one. The image library's own algorithms (gray conversion, Gaussian
    blur, Canny, Otsu's threshold, adaptive threshold, contour tracing and
    contour areas) are the fields of a `Vision` value; `Lawful` states the
    shape and range guarantees the pipelines rely on. Pictures arrive in
    OpenCV's BGR order; every stencil returned has equal channels, so the
    BGR/RGB swaps of `from_pil` and `to_pil` leave it unchanged. */
module StencilCV {
  import opened Images
  import opened Morphology

  /** A traced contour: the flat indices of every pixel that drawing it
      filled (`cv2.drawContours(..., -1)`) covers, boundary and enclosed
      area alike, and its `cv2.contourArea`. */
  datatype Contour = Contour(interior: seq<int>, area: real)

  /** The library routines the strategies call. `ccomp` returns each
      contour with the parent index of its `RETR_CCOMP` hierarchy entry
      (-1 for an outer boundary). */
  datatype Vision = Vision(
    luma: Rgb -> int,
    blur: (Gray, int) -> Gray,
    canny: (Gray, int, int) -> Gray,
    otsu: Gray -> int,
    adaptive: Gray -> Gray,
    external: Gray -> seq<Contour>,
    ccomp: Gray -> seq<(Contour, int)>)

  /** What the pipelines rely on from the library: gray conversion keeps
      pure black and white; blurring keeps the shape; Canny and the
      adaptive threshold return 0/255 masks of the input's shape. */
  ghost predicate Lawful(v: Vision) {
    KeepsBlackAndWhite(v.luma) &&
    (forall g: Gray, k: int :: WellFormed(g) ==> SameShape(v.blur(g, k), g)) &&
    (forall g: Gray, lo: int, hi: int :: WellFormed(g) ==> SameShape(v.canny(g, lo, hi), g) && IsMask(v.canny(g, lo, hi))) &&
    (forall g: Gray :: WellFormed(g) ==> SameShape(v.adaptive(g), g) && IsMask(v.adaptive(g)))
  }

  // ---------------------------------------------------------------------
  // Masks as grids for morphology

  /** A mask as a grid of booleans, white being true. */
  function MaskGrid(g: Gray): (m: seq<seq<bool>>)
    requires WellFormed(g)
    ensures |m| == g.h && IsGrid(m, g.w)
  {
    ToGrid(g.h, g.w, Bits(g))
  }

  /** A grid of booleans back to an h-by-w 0/255 mask. */
  function GridMask(h: nat, w: nat, m: seq<seq<bool>>): (g: Gray)
    requires h > 0 && w > 0 && |m| == h && IsGrid(m, w)
    ensures WellFormed(g) && IsMask(g) && g.h == h && g.w == w
  {
    FlattenLength(m, w);
    FromBits(h, w, Flatten(m))
  }

  lemma MaskGridAt(g: Gray, i: int)
    requires WellFormed(g) && 0 <= i < |g.px|
    ensures 0 <= i / g.w < g.h && 0 <= i % g.w < g.w
    ensures MaskGrid(g)[i / g.w][i % g.w] == (g.px[i] == 255)
  {
    ToGridAt(g.h, g.w, Bits(g), i);
  }

  lemma GridMaskAt(h: nat, w: nat, m: seq<seq<bool>>, i: int)
    requires h > 0 && w > 0 && |m| == h && IsGrid(m, w) && 0 <= i < h * w
    ensures 0 <= i / w < h && 0 <= i % w < w
    ensures GridMask(h, w, m).px[i] == (if m[i / w][i % w] then 255 else 0)
  {
    FlattenAt(m, w, i);
  }

  /** Pixel (r, c) of an image: sample r * w + c. */
  function PixelAt(g: Gray, r: int, c: int): int
    requires WellFormed(g) && 0 <= r < g.h && 0 <= c < g.w
  {
    IndexInRange(g.h, g.w, r, c);
    g.px[r * g.w + c]
  }

  lemma MaskGridCell(g: Gray, r: int, c: int)
    requires WellFormed(g) && 0 <= r < g.h && 0 <= c < g.w
    ensures MaskGrid(g)[r][c] == (PixelAt(g, r, c) == 255)
  {
    ToGridCell(g.h, g.w, Bits(g), r, c);
  }

  lemma GridMaskCell(h: nat, w: nat, m: seq<seq<bool>>, r: int, c: int)
    requires h > 0 && w > 0 && |m| == h && IsGrid(m, w) && 0 <= r < h && 0 <= c < w
    ensures PixelAt(GridMask(h, w, m), r, c) == (if m[r][c] then 255 else 0)
  {
    FlattenCell(m, w, r, c);
  }

  /** `cv2.dilate(mask, kernel)` on a 0/255 mask, where the maximum over
      the element is the boolean "some reached sample is white". */
  function DilateMask(g: Gray, k: seq<Offset>): (d: Gray)
    requires WellFormed(g)
    ensures WellFormed(d) && IsMask(d) && SameShape(d, g)
  {
    GridMask(g.h, g.w, Dilate(MaskGrid(g), g.w, k))
  }

  /** A dilation by an element holding its anchor keeps every white pixel. */
  lemma DilateMaskKeepsWhite(g: Gray, k: seq<Offset>, i: int)
    requires WellFormed(g) && 0 <= i < |g.px| && HasOrigin(k) && g.px[i] == 255
    ensures DilateMask(g, k).px[i] == 255
  {
    MaskGridAt(g, i);
    DilateKeepsWhite(MaskGrid(g), g.w, k, i / g.w, i % g.w);
    GridMaskAt(g.h, g.w, Dilate(MaskGrid(g), g.w, k), i);
  }

  /** Some white pixel of `g` lies in the n-by-n square anchored at its
      centre (row and column offsets -(n / 2) .. n - 1 - n / 2) on (r, c). */
  predicate SquareReachesWhite(g: Gray, n: int, r: int, c: int)
    requires WellFormed(g)
  {
    exists r', c' :: 0 <= r' < g.h && 0 <= c' < g.w &&
      -(n / 2) <= r' - r < n - n / 2 && -(n / 2) <= c' - c < n - n / 2 && PixelAt(g, r', c') == 255
  }

  /** `cv2.dilate` with the n-by-n square of ones: a pixel is white iff the
      square anchored on it reaches a white pixel. */
  lemma DilateSquareAt(g: Gray, n: nat, r: int, c: int)
    requires WellFormed(g) && 0 <= r < g.h && 0 <= c < g.w
    ensures PixelAt(DilateMask(g, Square(n)), r, c) == 255 <==> SquareReachesWhite(g, n, r, c)
  {
    var d := Dilate(MaskGrid(g), g.w, Square(n));
    GridMaskCell(g.h, g.w, d, r, c);
    if d[r][c] {
      DilatedReaches(g, n, r, c);
    }
    if SquareReachesWhite(g, n, r, c) {
      ReachesDilated(g, n, r, c);
    }
  }

  lemma DilatedReaches(g: Gray, n: nat, r: int, c: int)
    requires WellFormed(g) && 0 <= r < g.h && 0 <= c < g.w
    requires Dilate(MaskGrid(g), g.w, Square(n))[r][c]
    ensures SquareReachesWhite(g, n, r, c)
  {
    var k := Square(n);
    var m := MaskGrid(g);
    var j :| 0 <= j < |k| && At(m, g.w, r, c, k[j], false);
    var o := k[j];
    SquareMembers(n, o);
    var r', c' := r + o.0, c + o.1;
    MaskGridCell(g, r', c');
    assert PixelAt(g, r', c') == 255;
  }

  lemma ReachesDilated(g: Gray, n: nat, r: int, c: int)
    requires WellFormed(g) && 0 <= r < g.h && 0 <= c < g.w
    requires SquareReachesWhite(g, n, r, c)
    ensures Dilate(MaskGrid(g), g.w, Square(n))[r][c]
  {
    var k := Square(n);
    var m := MaskGrid(g);
    var r', c' :| 0 <= r' < g.h && 0 <= c' < g.w &&
      -(n / 2) <= r' - r < n - n / 2 && -(n / 2) <= c' - c < n - n / 2 && PixelAt(g, r', c') == 255;
    var o := (r' - r, c' - c);
    SquareMembers(n, o);
    var j :| 0 <= j < |k| && k[j] == o;
    MaskGridCell(g, r', c');
    assert At(m, g.w, r, c, k[j], false);
  }

  /** OpenCV's closing of a mask with the 5x5 ellipse; off-image samples
      never win the minimum or the maximum. */
  function CloseMask(g: Gray): (c: seq<seq<bool>>)
    requires WellFormed(g)
    ensures |c| == g.h && IsGrid(c, g.w)
  {
    Close(MaskGrid(g), g.w, Ellipse5(), true)
  }

  /** `morphologyEx(MORPH_CLOSE)` then `morphologyEx(MORPH_OPEN)` with the
      5x5 ellipse. */
  function Smooth(g: Gray): (s: Gray)
    requires WellFormed(g)
    ensures WellFormed(s) && IsMask(s) && SameShape(s, g)
  {
    GridMask(g.h, g.w, Open(CloseMask(g), g.w, Ellipse5(), true))
  }

  /** Smoothing in two halves: the closing keeps every white pixel white,
      and the opening keeps every pixel the closing left black black. */
  lemma SmoothStages(g: Gray, i: int)
    requires WellFormed(g) && 0 <= i < |g.px|
    ensures 0 <= i / g.w < g.h && 0 <= i % g.w < g.w
    ensures g.px[i] == 255 ==> CloseMask(g)[i / g.w][i % g.w]
    ensures !CloseMask(g)[i / g.w][i % g.w] ==> Smooth(g).px[i] == 0
  {
    var r, c := i / g.w, i % g.w;
    MaskGridAt(g, i);
    Ellipse5Shape();
    if g.px[i] == 255 {
      CloseKeepsWhite(MaskGrid(g), g.w, Ellipse5(), r, c);
    }
    if !CloseMask(g)[r][c] {
      OpenKeepsBlack(CloseMask(g), g.w, Ellipse5(), r, c);
    }
    GridMaskAt(g.h, g.w, Open(CloseMask(g), g.w, Ellipse5(), true), i);
  }

  // ---------------------------------------------------------------------
  // edge_stencil

  /** Gray conversion, Gaussian blur and Canny. */
  function EdgeMap(v: Vision, p: Picture, blurKernel: int, cannyLow: int, cannyHigh: int): (e: Gray)
    requires Lawful(v) && PictureWellFormed(p)
    ensures WellFormed(e) && IsMask(e) && e.h == p.h && e.w == p.w
  {
    var gray := ToGray(v.luma, p);
    var blurred := v.blur(gray, blurKernel);
    v.canny(blurred, cannyLow, cannyHigh)
  }

  /** The edge mask after the optional thickening and inversion. */
  function EdgeMask(v: Vision, p: Picture, blurKernel: int, cannyLow: int, cannyHigh: int,
                    lineThickness: int, invert: bool): (m: Gray)
    requires Lawful(v) && PictureWellFormed(p)
    ensures WellFormed(m) && IsMask(m) && m.h == p.h && m.w == p.w
  {
    var edges := EdgeMap(v, p, blurKernel, cannyLow, cannyHigh);
    var thick := if lineThickness > 1 then DilateMask(edges, Square(lineThickness)) else edges;
    ComplementOfMask(thick);
    if invert then thick else Complement(thick)
  }

  /** `edge_stencil`: white lines on black when `invert`, black lines on
      white otherwise. */
  function EdgeStencil(v: Vision, p: Picture, blurKernel: int, cannyLow: int, cannyHigh: int,
                       lineThickness: int, invert: bool): Picture
    requires Lawful(v) && PictureWellFormed(p)
  {
    Broadcast(EdgeMask(v, p, blurKernel, cannyLow, cannyHigh, lineThickness, invert))
  }

  /** The outline is a stencil of the input's size. */
  lemma EdgeStencilIsStencil(v: Vision, p: Picture, blurKernel: int, cannyLow: int, cannyHigh: int,
                             lineThickness: int, invert: bool)
    requires Lawful(v) && PictureWellFormed(p)
    ensures var s := EdgeStencil(v, p, blurKernel, cannyLow, cannyHigh, lineThickness, invert);
      IsStencil(s) && s.h == p.h && s.w == p.w
  {
    BroadcastOfMask(EdgeMask(v, p, blurKernel, cannyLow, cannyHigh, lineThickness, invert));
  }

  /** The default black-on-white outline is the pixelwise complement of the
      white-on-black one. */
  lemma EdgeInvertComplement(v: Vision, p: Picture, blurKernel: int, cannyLow: int, cannyHigh: int,
                             lineThickness: int, i: int)
    requires Lawful(v) && PictureWellFormed(p) && 0 <= i < |p.px|
    ensures EdgeStencil(v, p, blurKernel, cannyLow, cannyHigh, lineThickness, false).px[i]
      == var x := EdgeStencil(v, p, blurKernel, cannyLow, cannyHigh, lineThickness, true).px[i];
         Rgb(255 - x.r, 255 - x.g, 255 - x.b)
  {
  }

  /** Thickening never loses an edge: every pixel Canny marked is white in
      the white-on-black outline, whatever the thickness. */
  lemma EdgeKeepsCannyEdges(v: Vision, p: Picture, blurKernel: int, cannyLow: int, cannyHigh: int,
                            lineThickness: int, i: int)
    requires Lawful(v) && PictureWellFormed(p) && 0 <= i < |p.px|
    requires EdgeMap(v, p, blurKernel, cannyLow, cannyHigh).px[i] == 255
    ensures EdgeMask(v, p, blurKernel, cannyLow, cannyHigh, lineThickness, true).px[i] == 255
  {
    if lineThickness > 1 {
      SquareHasOrigin(lineThickness);
      DilateMaskKeepsWhite(EdgeMap(v, p, blurKernel, cannyLow, cannyHigh), Square(lineThickness), i);
    }
  }

  /** Without thickening the white-on-black outline is Canny's map itself;
      with it, a pixel is white iff Canny marked some pixel that the
      `lineThickness`-square element anchored at it reaches. */
  lemma EdgeThickness(v: Vision, p: Picture, blurKernel: int, cannyLow: int, cannyHigh: int,
                      lineThickness: int)
    requires Lawful(v) && PictureWellFormed(p)
    ensures lineThickness <= 1 ==>
      EdgeMask(v, p, blurKernel, cannyLow, cannyHigh, lineThickness, true) == EdgeMap(v, p, blurKernel, cannyLow, cannyHigh)
    ensures lineThickness > 1 ==> forall r, c :: 0 <= r < p.h && 0 <= c < p.w ==>
      (PixelAt(EdgeMask(v, p, blurKernel, cannyLow, cannyHigh, lineThickness, true), r, c) == 255 <==>
       SquareReachesWhite(EdgeMap(v, p, blurKernel, cannyLow, cannyHigh), lineThickness, r, c))
  {
    if lineThickness > 1 {
      var edges := EdgeMap(v, p, blurKernel, cannyLow, cannyHigh);
      forall r, c | 0 <= r < p.h && 0 <= c < p.w
        ensures PixelAt(EdgeMask(v, p, blurKernel, cannyLow, cannyHigh, lineThickness, true), r, c) == 255 <==>
          SquareReachesWhite(edges, lineThickness, r, c)
      {
        DilateSquareAt(edges, lineThickness, r, c);
      }
    }
  }

  // ---------------------------------------------------------------------
  // silhouette_stencil

  /** `cv2.threshold(g, t, 255, THRESH_BINARY)`: white exactly where the
      sample is strictly above `t`. */
  function Binarize(g: Gray, t: int): (b: Gray)
    ensures SameShape(b, g) && IsMask(b)
    ensures forall i :: 0 <= i < |g.px| ==> (b.px[i] == 255 <==> g.px[i] > t)
  {
    Gray(g.h, g.w, seq(|g.px|, i requires 0 <= i < |g.px| => if g.px[i] > t then 255 else 0))
  }

  /** The three threshold methods; any name other than 'otsu' and
      'adaptive' means the simple threshold at `value`. */
  function Threshold(v: Vision, blurred: Gray, thresholdMethod: string, value: int): (b: Gray)
    requires Lawful(v) && WellFormed(blurred)
    ensures WellFormed(b) && SameShape(b, blurred) && IsMask(b)
  {
    if thresholdMethod == "otsu" then Binarize(blurred, v.otsu(blurred))
    else if thresholdMethod == "adaptive" then v.adaptive(blurred)
    else Binarize(blurred, value)
  }

  /** Invert when `np.mean(mask) < 127`, i.e. when the sample sum is below
      127 per pixel. */
  function Polarity(g: Gray): (r: Gray)
    ensures SameShape(r, g)
  {
    if Sum(g.px) < 127 * |g.px| then Complement(g) else g
  }

  /** On a mask the step inverts exactly when 255 * white < 127 * pixels,
      and afterwards 255 * white >= 127 * pixels: the mean is at least 127. */
  lemma PolarityMajority(g: Gray)
    requires IsMask(g) && |g.px| > 0
    ensures IsMask(Polarity(g))
    ensures Polarity(g) == Complement(g) <==> 255 * CountWhite(g.px) < 127 * |g.px|
    ensures Polarity(g) == g <==> !(255 * CountWhite(g.px) < 127 * |g.px|)
    ensures 255 * CountWhite(Polarity(g).px) >= 127 * |g.px|
  {
    SumOfMask(g.px);
    ComplementOfMask(g);
    CountWhiteComplement(g);
    assert Complement(g).px[0] != g.px[0];
  }

  /** Pixels `pts` painted black (value 0) onto `m`; points off the image
      are clipped, as OpenCV's drawing does. */
  function Paint(m: seq<int>, pts: seq<int>): (r: seq<int>)
    ensures |r| == |m|
    ensures forall i :: 0 <= i < |m| ==> r[i] == (if i in pts then 0 else m[i])
  {
    if pts == [] then m
    else
      var q := Paint(m, pts[..|pts| - 1]);
      var x := pts[|pts| - 1];
      assert forall i :: i in pts <==> i in pts[..|pts| - 1] || i == x;
      if 0 <= x < |q| then q[x := 0] else q
  }

  /** A fresh all-white n-pixel mask with every contour of `cs` drawn
      filled in black. */
  function Drawn(n: nat, cs: seq<Contour>): (m: seq<int>)
    ensures |m| == n
    ensures forall i :: 0 <= i < n ==>
      m[i] == (if exists c :: c in cs && i in c.interior then 0 else 255)
  {
    if cs == [] then seq(n, _ => 255)
    else
      var front := cs[..|cs| - 1];
      assert forall c :: c in cs <==> c in front || c == cs[|cs| - 1];
      Paint(Drawn(n, front), cs[|cs| - 1].interior)
  }

  /** The contours kept by small-object removal, in order. */
  function LargeOnes(cs: seq<Contour>, minArea: real): (r: seq<Contour>)
    ensures forall c :: c in r <==> c in cs && c.area >= minArea
  {
    if cs == [] then []
    else
      var front := cs[..|cs| - 1];
      var c := cs[|cs| - 1];
      assert forall d :: d in cs <==> d in front || d == c;
      LargeOnes(front, minArea) + (if c.area >= minArea then [c] else [])
  }

  lemma DrawnLargeSnoc(n: nat, cs: seq<Contour>, c: Contour, minArea: real)
    ensures Drawn(n, LargeOnes(cs + [c], minArea)) ==
      if c.area >= minArea then Paint(Drawn(n, LargeOnes(cs, minArea)), c.interior)
      else Drawn(n, LargeOnes(cs, minArea))
  {
    assert (cs + [c])[..|cs|] == cs;
    var before := LargeOnes(cs, minArea);
    if c.area >= minArea {
      assert (before + [c])[..|before|] == before;
    } else {
      assert before + [] == before;
    }
  }

  /** The contours without a parent in a two-level hierarchy, in order. */
  function Outer(hier: seq<(Contour, int)>): (r: seq<Contour>)
    ensures forall c :: c in r <==> (c, -1) in hier
  {
    if hier == [] then []
    else
      var front := hier[..|hier| - 1];
      var e := hier[|hier| - 1];
      assert forall d :: d in hier <==> d in front || d == e;
      Outer(front) + (if e.1 == -1 then [e.0] else [])
  }

  /** A fresh white mask of the input's shape with the kept contours drawn
      black. */
  function Redraw(g: Gray, cs: seq<Contour>): (r: Gray)
    requires WellFormed(g)
    ensures WellFormed(r) && IsMask(r) && SameShape(r, g)
  {
    Gray(g.h, g.w, Drawn(|g.px|, cs))
  }

  /** After small-object removal a pixel is black exactly when it lies in
      a traced external contour of area at least `minArea`: everything
      else is white, and holes inside kept contours are black. */
  lemma RemovalBlackIff(g: Gray, cs: seq<Contour>, minArea: real, i: int)
    requires WellFormed(g) && 0 <= i < |g.px|
    ensures Redraw(g, LargeOnes(cs, minArea)).px[i] == 0 <==>
      exists c :: c in cs && c.area >= minArea && i in c.interior
  {
    var kept := LargeOnes(cs, minArea);
    if exists c :: c in cs && c.area >= minArea && i in c.interior {
      var c :| c in cs && c.area >= minArea && i in c.interior;
      assert c in kept;
    }
  }

  /** After hole filling a pixel is black exactly when it lies in an outer
      boundary: the black set is the union of the filled outer contours,
      so no hole survives inside one. */
  lemma FillBlackIff(g: Gray, hier: seq<(Contour, int)>, i: int)
    requires WellFormed(g) && 0 <= i < |g.px|
    ensures Redraw(g, Outer(hier)).px[i] == 0 <==>
      exists c :: (c, -1) in hier && i in c.interior
  {
    var outer := Outer(hier);
    if exists c :: (c, -1) in hier && i in c.interior {
      var c :| (c, -1) in hier && i in c.interior;
      assert c in outer;
    }
  }

  /** The mask `silhouette_stencil` converts to its result. */
  function SilhouetteMask(v: Vision, p: Picture, thresholdMethod: string, value: int, blurKernel: int,
                          fillHoles: bool, removeSmallObjects: int, smoothEdges: bool): (m: Gray)
    requires Lawful(v) && PictureWellFormed(p)
    ensures WellFormed(m) && IsMask(m) && m.h == p.h && m.w == p.w
  {
    var gray := ToGray(v.luma, p);
    var blurred := v.blur(gray, blurKernel);
    var binary := Threshold(v, blurred, thresholdMethod, value);
    ComplementOfMask(binary);
    var oriented := Polarity(binary);
    var cleaned := if removeSmallObjects > 0
      then Redraw(oriented, LargeOnes(v.external(Complement(oriented)), removeSmallObjects as real))
      else oriented;
    var filled := if fillHoles then Redraw(cleaned, Outer(v.ccomp(Complement(cleaned)))) else cleaned;
    if smoothEdges then Smooth(filled) else filled
  }

  /** `silhouette_stencil`. */
  function Silhouette(v: Vision, p: Picture, thresholdMethod: string, value: int, blurKernel: int,
                      fillHoles: bool, removeSmallObjects: int, smoothEdges: bool): Picture
    requires Lawful(v) && PictureWellFormed(p)
  {
    Broadcast(SilhouetteMask(v, p, thresholdMethod, value, blurKernel, fillHoles, removeSmallObjects, smoothEdges))
  }

  /** The silhouette is a stencil of the input's size. */
  lemma SilhouetteIsStencil(v: Vision, p: Picture, thresholdMethod: string, value: int, blurKernel: int,
                            fillHoles: bool, removeSmallObjects: int, smoothEdges: bool)
    requires Lawful(v) && PictureWellFormed(p)
    ensures var s := Silhouette(v, p, thresholdMethod, value, blurKernel, fillHoles, removeSmallObjects, smoothEdges);
      IsStencil(s) && s.h == p.h && s.w == p.w
  {
    BroadcastOfMask(SilhouetteMask(v, p, thresholdMethod, value, blurKernel, fillHoles, removeSmallObjects, smoothEdges));
  }

  /** In the simple mode, before polarity correction, a pixel is white iff
      its blurred value exceeds `threshold_value`. */
  lemma SimpleThreshold(v: Vision, blurred: Gray, thresholdMethod: string, value: int, i: int)
    requires Lawful(v) && WellFormed(blurred) && 0 <= i < |blurred.px|
    requires thresholdMethod != "otsu" && thresholdMethod != "adaptive"
    ensures Threshold(v, blurred, thresholdMethod, value).px[i] == 255 <==> blurred.px[i] > value
    ensures Threshold(v, blurred, thresholdMethod, value).px[i] == 0 <==> blurred.px[i] <= value
  {
  }

  /** Paints `c`'s interior black into `mask` in place, clipping points off
      the image. */
  method DrawFilled(mask: array<int>, c: Contour)
    modifies mask
    ensures mask[..] == Paint(old(mask[..]), c.interior)
  {
    ghost var start := mask[..];
    for t := 0 to |c.interior|
      invariant mask[..] == Paint(start, c.interior[..t])
    {
      assert c.interior[..t + 1][..t] == c.interior[..t];
      var x := c.interior[t];
      if 0 <= x < mask.Length {
        mask[x] := 0;
      }
    }
    assert c.interior[..|c.interior|] == c.interior;
  }

  /** The removal loop: a white canvas, then every external contour whose
      area reaches `minArea` drawn filled. */
  method RedrawLarge(n: nat, contours: seq<Contour>, minArea: real) returns (mask: array<int>)
    ensures fresh(mask) && mask[..] == Drawn(n, LargeOnes(contours, minArea))
  {
    mask := new int[n](_ => 255);
    assert mask[..] == Drawn(n, []);
    for j := 0 to |contours|
      invariant mask[..] == Drawn(n, LargeOnes(contours[..j], minArea))
    {
      var c := contours[j];
      assert contours[..j + 1] == contours[..j] + [c];
      DrawnLargeSnoc(n, contours[..j], c, minArea);
      if c.area >= minArea {
        DrawFilled(mask, c);
      }
    }
    assert contours[..|contours|] == contours;
  }

  /** The hole-filling loop: a white canvas, then every contour whose
      hierarchy parent is -1 drawn filled. */
  method RedrawOuter(n: nat, hier: seq<(Contour, int)>) returns (mask: array<int>)
    ensures fresh(mask) && mask[..] == Drawn(n, Outer(hier))
  {
    mask := new int[n](_ => 255);
    assert mask[..] == Drawn(n, []);
    for j := 0 to |hier|
      invariant mask[..] == Drawn(n, Outer(hier[..j]))
    {
      var (c, parent) := hier[j];
      assert hier[..j + 1][..j] == hier[..j];
      ghost var before := Outer(hier[..j]);
      if parent == -1 {
        assert (before + [c])[..|before|] == before;
        DrawFilled(mask, c);
      }
    }
    assert hier[..|hier|] == hier;
  }

  /** `silhouette_stencil`, stage by stage. */
  method SilhouetteStencil(v: Vision, p: Picture, thresholdMethod: string, value: int, blurKernel: int,
                           fillHoles: bool, removeSmallObjects: int, smoothEdges: bool)
    returns (result: Picture)
    requires Lawful(v) && PictureWellFormed(p)
    ensures result == Silhouette(v, p, thresholdMethod, value, blurKernel, fillHoles, removeSmallObjects, smoothEdges)
  {
    var gray := ToGray(v.luma, p);
    var blurred := v.blur(gray, blurKernel);
    var binary := Threshold(v, blurred, thresholdMethod, value);
    if Sum(binary.px) < 127 * |binary.px| {
      binary := Complement(binary);
    }
    ComplementOfMask(binary);
    if removeSmallObjects > 0 {
      var contours := v.external(Complement(binary));
      var mask := RedrawLarge(|binary.px|, contours, removeSmallObjects as real);
      binary := Gray(binary.h, binary.w, mask[..]);
    }
    ComplementOfMask(binary);
    if fillHoles {
      var hier := v.ccomp(Complement(binary));
      var mask := RedrawOuter(|binary.px|, hier);
      binary := Gray(binary.h, binary.w, mask[..]);
    }
    if smoothEdges {
      binary := Smooth(binary);
    }
    result := Broadcast(binary);
  }

  // ---------------------------------------------------------------------
  // hybrid_stencil and auto_stencil

  /** The default silhouette that `hybrid_stencil` and `auto_stencil` ask for. */
  function DefaultSilhouetteMask(v: Vision, p: Picture): (m: Gray)
    requires Lawful(v) && PictureWellFormed(p)
    ensures WellFormed(m) && IsMask(m) && m.h == p.h && m.w == p.w
  {
    SilhouetteMask(v, p, "otsu", 127, 5, true, 500, true)
  }

  /** The gray mask of a stencil that was built from mask `m`. */
  function GrayOf(v: Vision, m: Gray): (g: Gray)
    requires Lawful(v) && WellFormed(m) && IsMask(m)
    ensures g == m
  {
    ToGrayOfBroadcastMask(v.luma, m);
    ToGray(v.luma, Broadcast(m))
  }

  /** `hybrid_stencil`: an all-white canvas ANDed with each enabled source,
      the silhouette first, then the white-on-black edge map. */
  function Hybrid(v: Vision, p: Picture, showEdges: bool, showFill: bool, edgeThickness: int): (s: Picture)
    requires Lawful(v) && PictureWellFormed(p)
    ensures IsStencil(s) && s.h == p.h && s.w == p.w && |s.px| == |p.px|
    ensures forall i :: 0 <= i < |p.px| ==>
      (s.px[i].r == 255 <==>
        (showFill ==> DefaultSilhouetteMask(v, p).px[i] == 255) &&
        (showEdges ==> EdgeMask(v, p, 5, 50, 150, edgeThickness, true).px[i] == 255))
  {
    var canvas := White(p.h, p.w);
    var sil := DefaultSilhouetteMask(v, p);
    var withFill := if showFill then And(canvas, GrayOf(v, sil)) else canvas;
    var edges := EdgeMask(v, p, 5, 50, 150, edgeThickness, true);
    var withEdges := if showEdges then And(withFill, GrayOf(v, edges)) else withFill;
    BroadcastOfMask(withEdges);
    Broadcast(withEdges)
  }

  /** Every hybrid pixel is at most the same pixel of each enabled source,
      and with both sources off the result is all white. */
  lemma HybridBounds(v: Vision, p: Picture, showEdges: bool, showFill: bool, edgeThickness: int, i: int)
    requires Lawful(v) && PictureWellFormed(p) && 0 <= i < |p.px|
    ensures showFill ==> Hybrid(v, p, showEdges, showFill, edgeThickness).px[i].r <= DefaultSilhouetteMask(v, p).px[i]
    ensures showEdges ==> Hybrid(v, p, showEdges, showFill, edgeThickness).px[i].r <= EdgeMask(v, p, 5, 50, 150, edgeThickness, true).px[i]
    ensures !showFill && !showEdges ==> Hybrid(v, p, showEdges, showFill, edgeThickness).px[i] == Rgb(255, 255, 255)
  {
  }

  /** `hybrid_stencil`, reassigning the running result as the source does. */
  method HybridStencil(v: Vision, p: Picture, showEdges: bool, showFill: bool, edgeThickness: int)
    returns (stencil: Picture)
    requires Lawful(v) && PictureWellFormed(p)
    ensures stencil == Hybrid(v, p, showEdges, showFill, edgeThickness)
  {
    var result := White(p.h, p.w);
    if showFill {
      var silhouette := SilhouetteStencil(v, p, "otsu", 127, 5, true, 500, true);
      var silhouetteGray := ToGray(v.luma, silhouette);
      ToGrayOfBroadcastMask(v.luma, DefaultSilhouetteMask(v, p));
      result := And(result, silhouetteGray);
    }
    if showEdges {
      var edges := EdgeStencil(v, p, 5, 50, 150, edgeThickness, true);
      var edgesGray := ToGray(v.luma, edges);
      ToGrayOfBroadcastMask(v.luma, EdgeMask(v, p, 5, 50, 150, edgeThickness, true));
      result := And(result, edgesGray);
    }
    stencil := Broadcast(result);
  }

  /** `auto_stencil`: 'outline' gives the default outline, 'filled' the
      default silhouette, and any other style the default hybrid. */
  method AutoStencil(v: Vision, p: Picture, style: string) returns (stencil: Picture)
    requires Lawful(v) && PictureWellFormed(p)
    ensures style == "outline" ==> stencil == EdgeStencil(v, p, 5, 50, 150, 2, false)
    ensures style == "filled" ==> stencil == Silhouette(v, p, "otsu", 127, 5, true, 500, true)
    ensures style != "outline" && style != "filled" ==> stencil == Hybrid(v, p, true, true, 2)
  {
    if style == "outline" {
      stencil := EdgeStencil(v, p, 5, 50, 150, 2, false);
    } else if style == "filled" {
      stencil := SilhouetteStencil(v, p, "otsu", 127, 5, true, 500, true);
    } else {
      stencil := HybridStencil(v, p, true, true, 2);
    }
  }
}
