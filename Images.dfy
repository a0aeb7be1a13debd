/** Pixel buffers and whole-image operations shared by the stencil
    pipelines. An image is a row-major buffer: pixel (r, c) of an image of
    width w is `px[r * w + c]`. Samples are unbounded integers; 8-bit data
    stays in 0..255 because every operation below maps bytes to bytes. */
module Images {

  /** A single-channel (grayscale) image, as a 2-D uint8 numpy array. */
  datatype Gray = Gray(h: nat, w: nat, px: seq<int>)

  /** One colour sample; channel order is whatever the producer used. */
  datatype Rgb = Rgb(r: int, g: int, b: int)

  /** A three-channel image, as a PIL RGB image or an OpenCV BGR array. */
  datatype Picture = Picture(h: nat, w: nat, px: seq<Rgb>)

  /** The buffer holds exactly h * w samples of a non-degenerate image. */
  predicate WellFormed(g: Gray) {
    g.h > 0 && g.w > 0 && |g.px| == g.h * g.w
  }

  predicate PictureWellFormed(p: Picture) {
    p.h > 0 && p.w > 0 && |p.px| == p.h * p.w
  }

  predicate SameShape(a: Gray, b: Gray) {
    a.h == b.h && a.w == b.w && |a.px| == |b.px|
  }

  /** A binary mask in OpenCV's convention: every sample is 0 or 255. */
  predicate IsMask(g: Gray) {
    forall i :: 0 <= i < |g.px| ==> g.px[i] == 0 || g.px[i] == 255
  }

  /** A stencil as the pipelines hand it back: a well-formed picture whose
      every pixel is pure black or pure white, the same in all channels. */
  predicate IsStencil(p: Picture) {
    PictureWellFormed(p) &&
    forall i :: 0 <= i < |p.px| ==>
      p.px[i].r == p.px[i].g == p.px[i].b && (p.px[i].r == 0 || p.px[i].r == 255)
  }

  /** `np.ones_like(gray) * 255`: an all-white canvas of the given shape. */
  function White(h: nat, w: nat): (g: Gray)
    requires h > 0 && w > 0
    ensures WellFormed(g) && IsMask(g)
    ensures forall i :: 0 <= i < |g.px| ==> g.px[i] == 255
  {
    Gray(h, w, seq(h * w, _ => 255))
  }

  /** `cv2.bitwise_not` on uint8 samples: v becomes 255 - v. */
  function Complement(g: Gray): (r: Gray)
    ensures SameShape(r, g)
    ensures forall i :: 0 <= i < |g.px| ==> r.px[i] == 255 - g.px[i]
  {
    Gray(g.h, g.w, seq(|g.px|, i requires 0 <= i < |g.px| => 255 - g.px[i]))
  }

  lemma ComplementInvolutive(g: Gray)
    ensures Complement(Complement(g)) == g
  {
    assert Complement(Complement(g)).px == g.px;
  }

  lemma ComplementOfMask(g: Gray)
    requires IsMask(g)
    ensures IsMask(Complement(g))
  {
  }

  /** Number of samples equal to 255. */
  function CountWhite(px: seq<int>): (n: nat)
    ensures n <= |px|
  {
    if px == [] then 0
    else CountWhite(px[..|px| - 1]) + (if px[|px| - 1] == 255 then 1 else 0)
  }

  /** On a mask, complementing turns the white count into the black count. */
  lemma {:induction false} CountWhiteComplement(g: Gray)
    requires IsMask(g)
    ensures CountWhite(Complement(g).px) == |g.px| - CountWhite(g.px)
    decreases |g.px|
  {
    if g.px != [] {
      var n := |g.px|;
      var g' := Gray(g.h, g.w, g.px[..n - 1]);
      assert Complement(g).px[..n - 1] == Complement(g').px;
      CountWhiteComplement(g');
    }
  }

  /** The sum of all samples of a mask is 255 times its white count, so
      `np.mean(mask) < 127` reads `255 * CountWhite < 127 * size`. */
  function Sum(px: seq<int>): int {
    if px == [] then 0 else Sum(px[..|px| - 1]) + px[|px| - 1]
  }

  lemma {:induction false} SumOfMask(px: seq<int>)
    requires forall i :: 0 <= i < |px| ==> px[i] == 0 || px[i] == 255
    ensures Sum(px) == 255 * CountWhite(px)
  {
    if px != [] {
      SumOfMask(px[..|px| - 1]);
    }
  }

  /** `cv2.cvtColor(gray, cv2.COLOR_GRAY2RGB)`: every channel gets the sample. */
  function Broadcast(g: Gray): (p: Picture)
    requires WellFormed(g)
    ensures PictureWellFormed(p) && p.h == g.h && p.w == g.w
    ensures forall i :: 0 <= i < |g.px| ==> p.px[i] == Rgb(g.px[i], g.px[i], g.px[i])
  {
    Picture(g.h, g.w, seq(|g.px|, i requires 0 <= i < |g.px| => Rgb(g.px[i], g.px[i], g.px[i])))
  }

  lemma BroadcastOfMask(g: Gray)
    requires WellFormed(g) && IsMask(g)
    ensures IsStencil(Broadcast(g))
  {
  }

  /** A per-pixel colour-to-gray conversion applied to a whole picture; the
      weighting itself (`luma`) belongs to the image library. */
  function ToGray(luma: Rgb -> int, p: Picture): (g: Gray)
    ensures g.h == p.h && g.w == p.w && |g.px| == |p.px|
    ensures forall i :: 0 <= i < |p.px| ==> g.px[i] == luma(p.px[i])
  {
    Gray(p.h, p.w, seq(|p.px|, i requires 0 <= i < |p.px| => luma(p.px[i])))
  }

  /** A colour conversion that maps pure black and pure white to themselves,
      as OpenCV's and PIL's gray conversions do. */
  predicate KeepsBlackAndWhite(luma: Rgb -> int) {
    luma(Rgb(0, 0, 0)) == 0 && luma(Rgb(255, 255, 255)) == 255
  }

  /** Converting a broadcast mask back to gray recovers the mask. */
  lemma ToGrayOfBroadcastMask(luma: Rgb -> int, g: Gray)
    requires WellFormed(g) && IsMask(g) && KeepsBlackAndWhite(luma)
    ensures ToGray(luma, Broadcast(g)) == g
  {
    var back := ToGray(luma, Broadcast(g));
    forall i | 0 <= i < |g.px| ensures back.px[i] == g.px[i] {
      assert Broadcast(g).px[i] == Rgb(g.px[i], g.px[i], g.px[i]);
    }
    assert back.px == g.px;
  }

  /** Bitwise AND of two uint8 samples. */
  function BitAnd(a: int, b: int): int
    requires 0 <= a < 256 && 0 <= b < 256
  {
    ((a as bv8) & (b as bv8)) as int
  }

  /** On black-and-white samples the bitwise AND is white iff both are. */
  lemma BitAndOfMaskValues(a: int, b: int)
    requires a == 0 || a == 255
    requires b == 0 || b == 255
    ensures BitAnd(a, b) == (if a == 255 && b == 255 then 255 else 0)
  {
    if a == 0 {
      assert (0 as bv8) & (b as bv8) == 0;
    } else if b == 0 {
      assert (255 as bv8) & (0 as bv8) == 0;
    } else {
      assert (255 as bv8) & (255 as bv8) == 255;
    }
  }

  /** `cv2.bitwise_and` of two masks of the same shape. */
  function And(a: Gray, b: Gray): (r: Gray)
    requires SameShape(a, b) && IsMask(a) && IsMask(b)
    ensures SameShape(r, a) && IsMask(r)
    ensures forall i :: 0 <= i < |a.px| ==> (r.px[i] == 255 <==> a.px[i] == 255 && b.px[i] == 255)
    ensures forall i :: 0 <= i < |a.px| ==> r.px[i] <= a.px[i] && r.px[i] <= b.px[i]
  {
    var px := seq(|a.px|, i requires 0 <= i < |a.px| => BitAnd(a.px[i], b.px[i]));
    assert forall i :: 0 <= i < |a.px| ==> px[i] == (if a.px[i] == 255 && b.px[i] == 255 then 255 else 0) by {
      forall i | 0 <= i < |a.px| ensures px[i] == (if a.px[i] == 255 && b.px[i] == 255 then 255 else 0) {
        BitAndOfMaskValues(a.px[i], b.px[i]);
      }
    }
    Gray(a.h, a.w, px)
  }

  /** A mask as booleans, white (255) being true. */
  function Bits(g: Gray): (b: seq<bool>)
    ensures |b| == |g.px|
    ensures forall i :: 0 <= i < |b| ==> b[i] == (g.px[i] == 255)
  {
    seq(|g.px|, i requires 0 <= i < |g.px| => g.px[i] == 255)
  }

  /** Booleans back to a 0/255 mask (`(binary * 255).astype(np.uint8)`). */
  function FromBits(h: nat, w: nat, b: seq<bool>): (g: Gray)
    ensures g.h == h && g.w == w && |g.px| == |b| && IsMask(g)
    ensures forall i :: 0 <= i < |b| ==> g.px[i] == (if b[i] then 255 else 0)
  {
    Gray(h, w, seq(|b|, i requires 0 <= i < |b| => if b[i] then 255 else 0))
  }

  lemma FromBitsOfBits(g: Gray)
    requires IsMask(g)
    ensures FromBits(g.h, g.w, Bits(g)) == g
  {
    assert FromBits(g.h, g.w, Bits(g)).px == g.px;
  }
}
