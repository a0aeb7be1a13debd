/** The stencil generator's deterministic parts: the second binariser
    `_clean_stencil_image`, the prompt decoration and negative-prompt
    default of `generate`, the shape of `generate`'s result, and the file
    names `generate_and_save` picks. The diffusion pipeline itself is an
    input: the images it produced. */
module StencilGenerator {
  import opened Wrappers
  import opened Strings
  import opened Images
  import opened Morphology
  import opened Components

  /** The image-library collaborators of `_clean_stencil_image`: PIL's
      conversion to mode 'L', whether scikit-image can be imported, and its
      `threshold_otsu`. */
  datatype Imaging = Imaging(toL: Rgb -> int, hasSkimage: bool, otsu: Gray -> real)

  // ---------------------------------------------------------------------
  // Counting and negating boolean masks

  /** `np.sum(binary)`: the number of true (white) pixels. */
  function Count(b: seq<bool>): (n: nat)
    ensures n <= |b|
  {
    if b == [] then 0 else Count(b[..|b| - 1]) + (if b[|b| - 1] then 1 else 0)
  }

  /** `~binary`. */
  function Negate(b: seq<bool>): (r: seq<bool>)
    ensures |r| == |b| && forall i :: 0 <= i < |b| ==> r[i] == !b[i]
  {
    seq(|b|, i requires 0 <= i < |b| => !b[i])
  }

  /** Negating swaps the white and black counts. */
  lemma {:induction false} CountNegate(b: seq<bool>)
    ensures Count(Negate(b)) == |b| - Count(b)
    decreases |b|
  {
    if b != [] {
      var n := |b|;
      assert Negate(b)[..n - 1] == Negate(b[..n - 1]);
      CountNegate(b[..n - 1]);
    }
  }

  // ---------------------------------------------------------------------
  // _clean_stencil_image, stage by stage

  /** The threshold actually used: Otsu's value when scikit-image is
      present, else exactly 128. The caller's `binary_threshold` is
      overwritten on both paths and never read. */
  function Cutoff(img: Imaging, gray: Gray): (t: real)
    ensures img.hasSkimage ==> t == img.otsu(gray)
    ensures !img.hasSkimage ==> t == 128.0
  {
    if img.hasSkimage then img.otsu(gray) else 128.0
  }

  /** `img_array > binary_threshold`. */
  function Thresholded(gray: Gray, t: real): (b: seq<bool>)
    ensures |b| == |gray.px|
    ensures forall i :: 0 <= i < |b| ==> (b[i] <==> gray.px[i] as real > t)
  {
    seq(|gray.px|, i requires 0 <= i < |gray.px| => gray.px[i] as real > t)
  }

  /** The polarity step: invert when white is under half of the pixels
      (`white_pixels < total_pixels / 2`, a true division). */
  function Oriented(b: seq<bool>, invertIfNeeded: bool): (r: seq<bool>)
    ensures |r| == |b|
  {
    if invertIfNeeded && 2 * Count(b) < |b| then Negate(b) else b
  }

  /** With the step enabled, the mask is inverted exactly when white is the
      minority, and afterwards white is at least half of the pixels. */
  lemma OrientedMajority(b: seq<bool>)
    requires |b| > 0
    ensures Oriented(b, true) == Negate(b) <==> 2 * Count(b) < |b|
    ensures Oriented(b, true) == b <==> 2 * Count(b) >= |b|
    ensures 2 * Count(Oriented(b, true)) >= |b|
  {
    CountNegate(b);
    assert Negate(b)[0] != b[0];
  }

  /** Small-object removal: `label(~binary)` numbers the black 4-connected
      components; a black pixel turns white when its component has fewer
      than `minSize` pixels. Label 0 (the white pixels) has size 0, so those
      pixels are "set" to white, which they already are. */
  function Removed(w: nat, b: seq<bool>, minSize: int): (r: seq<bool>)
    requires w > 0
    ensures |r| == |b|
  {
    var fg := Negate(b);
    seq(|b|, p requires 0 <= p < |b| => b[p] || |Component(w, fg, p)| < minSize)
  }

  /** Removal never turns a white pixel black, and it treats each black
      component as a whole: all of it turns white when it is smaller than
      `minSize`, and all of it stays black otherwise. */
  lemma RemovalByComponent(w: nat, b: seq<bool>, minSize: int, p: int)
    requires w > 0 && 0 <= p < |b| && !b[p]
    ensures forall x :: 0 <= x < |b| && b[x] ==> Removed(w, b, minSize)[x]
    ensures forall x :: x in Component(w, Negate(b), p) ==>
      0 <= x < |b| && !b[x] && (Removed(w, b, minSize)[x] <==> |Component(w, Negate(b), p)| < minSize)
  {
    var fg := Negate(b);
    forall x | x in Component(w, fg, p)
      ensures 0 <= x < |b| && !b[x] && (Removed(w, b, minSize)[x] <==> |Component(w, fg, p)| < minSize)
    {
      SameComponent(w, fg, p, x);
    }
  }

  /** scipy's `binary_closing` with `np.ones((3, 3))` and its default
      `border_value=0`, on the row-major mask. */
  function Closing(h: nat, w: nat, b: seq<bool>): (r: seq<bool>)
    requires w > 0 && |b| == h * w
    ensures |r| == h * w
  {
    var c := Close(ToGrid(h, w, b), w, Ones3(), false);
    FlattenLength(c, w);
    Flatten(c)
  }

  /** Because the border reads as black during the erosion, every pixel of
      the outer frame is black after the closing. */
  lemma ClosingBlackensFrame(h: nat, w: nat, b: seq<bool>, i: int)
    requires w > 0 && |b| == h * w && 0 <= i < |b|
    requires OnFrame(h, w, i / w, i % w)
    ensures !Closing(h, w, b)[i]
  {
    var g := ToGrid(h, w, b);
    var c := Close(g, w, Ones3(), false);
    FlattenAt(c, w, i);
    ErodeOnes3BlackensFrame(Dilate(g, w, Ones3()), w, i / w, i % w);
  }

  /** Away from the frame the closing never turns a white pixel black. */
  lemma ClosingKeepsInteriorWhite(h: nat, w: nat, b: seq<bool>, i: int)
    requires w > 0 && |b| == h * w && 0 <= i < |b| && b[i]
    requires !OnFrame(h, w, i / w, i % w)
    ensures Closing(h, w, b)[i]
  {
    var g := ToGrid(h, w, b);
    var c := Close(g, w, Ones3(), false);
    FlattenAt(c, w, i);
    ToGridAt(h, w, b, i);
    CloseOnes3KeepsInteriorWhite(g, w, i / w, i % w);
  }

  /** The boolean mask `_clean_stencil_image` ends with, before conversion
      to 0/255. scipy is imported by the module itself, so the removal and
      closing stages always have it. */
  function CleanMask(img: Imaging, image: Picture, invertIfNeeded: bool,
                     removeSmallObjects: bool, minObjectSize: int): (m: seq<bool>)
    requires PictureWellFormed(image)
    ensures |m| == |image.px|
  {
    var gray := ToGray(img.toL, image);
    var binary := Oriented(Thresholded(gray, Cutoff(img, gray)), invertIfNeeded);
    var cleaned := if removeSmallObjects then Removed(image.w, binary, minObjectSize) else binary;
    Closing(image.h, image.w, cleaned)
  }

  /** The returned RGB image: `(binary * 255)` broadcast to three channels. */
  function CleanStencil(img: Imaging, image: Picture, invertIfNeeded: bool,
                        removeSmallObjects: bool, minObjectSize: int): (s: Picture)
    requires PictureWellFormed(image)
    ensures IsStencil(s) && s.h == image.h && s.w == image.w
    ensures forall i :: 0 <= i < |s.px| ==>
      s.px[i].r == (if CleanMask(img, image, invertIfNeeded, removeSmallObjects, minObjectSize)[i] then 255 else 0)
  {
    var m := FromBits(image.h, image.w, CleanMask(img, image, invertIfNeeded, removeSmallObjects, minObjectSize));
    BroadcastOfMask(m);
    Broadcast(m)
  }

  /** The polarity step on the mask array: count the white pixels, then
      invert every pixel in place when they are under half. */
  method OrientInPlace(binary: array<bool>, invertIfNeeded: bool)
    modifies binary
    ensures binary[..] == Oriented(old(binary[..]), invertIfNeeded)
  {
    if invertIfNeeded {
      var n := binary.Length;
      var white := 0;
      for i := 0 to n
        invariant white == Count(binary[..i])
      {
        assert binary[..i + 1][..i] == binary[..i];
        if binary[i] {
          white := white + 1;
        }
      }
      assert binary[..n] == binary[..];
      if 2 * white < n {
        ghost var before := binary[..];
        for i := 0 to n
          invariant forall j :: 0 <= j < i ==> binary[j] == !before[j]
          invariant forall j :: i <= j < n ==> binary[j] == before[j]
        {
          binary[i] := !binary[i];
        }
        assert binary[..] == Negate(before);
      }
    }
  }

  /** `binary[remove_pixel] = True`: every black pixel whose component in
      the mask as it was labelled is too small turns white. */
  method RemoveSmallInPlace(binary: array<bool>, w: nat, minObjectSize: int)
    requires w > 0
    modifies binary
    ensures binary[..] == Removed(w, old(binary[..]), minObjectSize)
  {
    var n := binary.Length;
    var fg := Negate(binary[..]);
    ghost var target := Removed(w, binary[..], minObjectSize);
    for p := 0 to n
      invariant forall j :: 0 <= j < p ==> binary[j] == target[j]
      invariant forall j :: p <= j < n ==> binary[j] == !fg[j]
    {
      if fg[p] && |Component(w, fg, p)| < minObjectSize {
        binary[p] := true;
      }
    }
    assert binary[..] == target;
  }

  /** `_clean_stencil_image`: the mask is built in an array that each stage
      updates in place. */
  method CleanStencilImage(img: Imaging, image: Picture, binaryThreshold: int, invertIfNeeded: bool,
                           removeSmallObjects: bool, minObjectSize: int)
    returns (cleaned: Picture)
    requires PictureWellFormed(image)
    ensures cleaned == CleanStencil(img, image, invertIfNeeded, removeSmallObjects, minObjectSize)
  {
    var gray := ToGray(img.toL, image);
    var n := |gray.px|;
    var t := Cutoff(img, gray);
    var binary := new bool[n](i requires 0 <= i < n => gray.px[i] as real > t);
    assert binary[..] == Thresholded(gray, t);
    OrientInPlace(binary, invertIfNeeded);
    if removeSmallObjects {
      RemoveSmallInPlace(binary, image.w, minObjectSize);
    }
    var m := FromBits(image.h, image.w, Closing(image.h, image.w, binary[..]));
    cleaned := Broadcast(m);
  }

  // ---------------------------------------------------------------------
  // The generator: prompt decoration, generate, generate_and_save

  /** Text appended to prompts for the pretrained model. */
  const StandardSuffix: string :=
    "black silhouette, high contrast, simple stencil design, centered in frame, complete object visible, isolated subject"

  /** The default negative prompt of the pretrained model. */
  const StandardNegative: string := "color, colorful, photograph, realistic, detailed, complex, "

  /** What `generate` hands back: one image when one was asked for, else the
      list. */
  datatype Generated = Single(image: Picture) | Many(images: seq<Picture>)

  class Generator {
    /** A fine-tuned checkpoint was loaded instead of the pretrained model. */
    const checkpointPath: Option<string>
    const isCheckpointModel: bool
    const stencilSuffix: string
    const defaultNegativePrompt: Option<string>

    /** The configuration `__init__` sets once the model is loaded. */
    constructor (checkpointPath: Option<string>)
      ensures this.checkpointPath == checkpointPath
      ensures isCheckpointModel == checkpointPath.Some?
      ensures isCheckpointModel ==> stencilSuffix == "Sketch of" && defaultNegativePrompt == None
      ensures !isCheckpointModel ==>
        stencilSuffix == StandardSuffix && defaultNegativePrompt == Some(StandardNegative)
    {
      this.checkpointPath := checkpointPath;
      isCheckpointModel := checkpointPath.Some?;
      if checkpointPath.Some? {
        stencilSuffix := "Sketch of";
        defaultNegativePrompt := None;
      } else {
        stencilSuffix := StandardSuffix;
        defaultNegativePrompt := Some(StandardNegative);
      }
    }

    /** The prompt sent to the pipeline. A checkpoint model gets the prefix
        "sketch of " unless the prompt already starts with it in any case;
        the pretrained model gets ", " and its suffix appended. */
    function FullPrompt(prompt: string, addStencilSuffix: bool): (r: string)
      ensures r == prompt || r == "sketch of " + prompt || r == prompt + ", " + stencilSuffix
      ensures isCheckpointModel ==>
        (r == "sketch of " + prompt <==> addStencilSuffix && !StartsWith(Lower(prompt), "sketch of"))
      ensures !isCheckpointModel ==> (r == prompt + ", " + stencilSuffix <==> addStencilSuffix)
      ensures isCheckpointModel && !(addStencilSuffix && !StartsWith(Lower(prompt), "sketch of")) ==> r == prompt
      ensures !isCheckpointModel && !addStencilSuffix ==> r == prompt
    {
      if isCheckpointModel then
        if addStencilSuffix && !StartsWith(Lower(prompt), "sketch of") then "sketch of " + prompt else prompt
      else if addStencilSuffix then prompt + ", " + stencilSuffix
      else prompt
    }

    /** `negative_prompt or self.default_negative_prompt`: None and the
        empty string both fall back to the default. */
    function NegativePrompt(negativePrompt: Option<string>): (r: Option<string>)
      ensures negativePrompt.Some? && negativePrompt.value != [] ==> r == negativePrompt
      ensures negativePrompt == None || negativePrompt == Some([]) ==> r == defaultNegativePrompt
    {
      if negativePrompt.Some? && negativePrompt.value != [] then negativePrompt else defaultNegativePrompt
    }

    /** The images `generate` returns, given the `numImages` images the
        pipeline produced: each cleaned when `cleanBackground` holds, and
        the first alone when one image was asked for. */
    function Generate(img: Imaging, images: seq<Picture>, numImages: nat, cleanBackground: bool): (r: Generated)
      requires |images| == numImages
      requires forall i :: 0 <= i < |images| ==> PictureWellFormed(images[i])
      ensures r.Single? <==> numImages == 1
      ensures r.Many? ==> |r.images| == numImages
      ensures forall i :: 0 <= i < numImages ==>
        Outputs(r)[i] == (if cleanBackground then CleanStencil(img, images[i], true, true, 100) else images[i])
    {
      var out := if cleanBackground
        then seq(|images|, i requires 0 <= i < |images| => CleanStencil(img, images[i], true, true, 100))
        else images;
      if numImages == 1 then Single(out[0]) else Many(out)
    }
  }

  /** The images of a result, as a list. */
  function Outputs(g: Generated): (r: seq<Picture>)
    ensures g.Single? ==> r == [g.image]
    ensures g.Many? ==> r == g.images
  {
    if g.Single? then [g.image] else g.images
  }

  /** Decorating a checkpoint model's prompt twice changes nothing more:
      the decorated prompt already starts with "sketch of". */
  lemma CheckpointPromptIdempotent(gen: Generator, prompt: string)
    requires gen.isCheckpointModel
    ensures gen.FullPrompt(gen.FullPrompt(prompt, true), true) == gen.FullPrompt(prompt, true)
  {
    var once := gen.FullPrompt(prompt, true);
    if once != prompt {
      LowerAppend("sketch of ", prompt);
      assert Lower("sketch of ") == "sketch of ";
      assert Lower(once)[..9] == "sketch of";
    }
  }

  /** The pretrained model's prompt keeps the caller's text at the front
      and ends with the stencil suffix. */
  lemma StandardPromptShape(gen: Generator, prompt: string)
    requires !gen.isCheckpointModel
    ensures StartsWith(gen.FullPrompt(prompt, true), prompt)
    ensures EndsWith(gen.FullPrompt(prompt, true), gen.stencilSuffix)
  {
    var r := gen.FullPrompt(prompt, true);
    assert r[..|prompt|] == prompt;
    assert r[|r| - |gen.stencilSuffix|..] == gen.stencilSuffix;
  }

  /** The path image `idx` (0-based) is saved to when several are made. */
  function IndexedPath(outputPath: string, idx: nat): string {
    ReplaceAll(outputPath, ".png", "_" + NatToString(idx + 1) + ".png")
  }

  /** `generate_and_save`'s saving loop: the (path, image) pairs handed to
      `save_image`, in order. */
  method SavePlan(outputPath: string, result: Generated) returns (saves: seq<(string, Picture)>)
    ensures result.Single? ==> saves == [(outputPath, result.image)]
    ensures result.Many? ==> |saves| == |result.images|
    ensures result.Many? ==>
      forall idx :: 0 <= idx < |saves| ==> saves[idx] == (IndexedPath(outputPath, idx), result.images[idx])
  {
    if result.Single? {
      saves := [(outputPath, result.image)];
    } else {
      saves := [];
      for idx := 0 to |result.images|
        invariant |saves| == idx
        invariant forall j :: 0 <= j < idx ==> saves[j] == (IndexedPath(outputPath, j), result.images[j])
      {
        var path := ReplaceAll(outputPath, ".png", "_" + NatToString(idx + 1) + ".png");
        saves := saves + [(path, result.images[idx])];
      }
    }
  }

  /** A text that does not contain `p` still does not after dropping its
      first character. */
  lemma NotContainsTail(s: string, p: string)
    requires s != [] && !Contains(s, p)
    ensures !Contains(s[1..], p)
  {
    forall i | 0 <= i <= |s[1..]|
      ensures !OccursAt(s[1..], p, i)
    {
      assert !OccursAt(s, p, i + 1);
      if i + |p| <= |s[1..]| {
        assert s[1..][i..i + |p|] == s[i + 1..i + 1 + |p|];
      }
    }
  }

  /** A non-empty stem without ".png" does not start the extended name
      with ".png". */
  lemma NotAtStart(stem: string)
    requires stem != [] && !Contains(stem, ".png")
    ensures (stem + ".png")[..4] != ".png"
  {
    var s := stem + ".png";
    if |stem| >= 4 {
      assert s[..4] == stem[..4];
      assert !OccursAt(stem, ".png", 0);
    } else {
      assert s[..4][|stem|] == '.';
    }
  }

  /** Replacing ".png" in a stem plus ".png" touches the extension only. */
  lemma {:induction false} ReplaceInStem(stem: string, rep: string)
    requires !Contains(stem, ".png")
    ensures ReplaceAll(stem + ".png", ".png", rep) == stem + rep
    decreases |stem|
  {
    var s := stem + ".png";
    if stem == [] {
      assert s[..4] == ".png";
      assert s[4..] == [];
    } else {
      NotAtStart(stem);
      NotContainsTail(stem, ".png");
      assert s[1..] == stem[1..] + ".png";
      ReplaceInStem(stem[1..], rep);
      assert [s[0]] + (stem[1..] + rep) == stem + rep;
    }
  }

  /** A name whose only ".png" is its extension gets the index inserted
      before the extension. */
  lemma IndexedPathOfStem(stem: string, idx: nat)
    requires !Contains(stem, ".png")
    ensures IndexedPath(stem + ".png", idx) == stem + "_" + NatToString(idx + 1) + ".png"
  {
    var n := NatToString(idx + 1);
    ReplaceInStem(stem, "_" + n + ".png");
    assert stem + ("_" + n + ".png") == stem + "_" + n + ".png";
  }

  /** Without ".png" in the output path nothing is replaced: every image of
      a batch is saved to the same path, each overwriting the previous. */
  lemma UnsuffixedPathsCollide(outputPath: string, i: nat, j: nat)
    requires !Contains(outputPath, ".png")
    ensures IndexedPath(outputPath, i) == IndexedPath(outputPath, j) == outputPath
  {
    ReplaceAllAbsent(outputPath, ".png", "_" + NatToString(i + 1) + ".png");
    ReplaceAllAbsent(outputPath, ".png", "_" + NatToString(j + 1) + ".png");
  }
}
