/** The state kept by the web front end between requests: which generator
    is loaded, and the images of the last generation together with whether
    each one currently shows its outline. The diffusion pipeline and the
    outline operation (`edge_stencil` with its defaults) are inputs. */
module App {
  import opened Wrappers
  import opened Strings
  import opened Images
  import opened StencilGenerator

  /** The checkpoint directory for a model choice of the UI, or None for
      the pretrained model. */
  function CheckpointPath(modelType: string): (p: Option<string>)
    ensures p.Some? <==> modelType == "Checkpoint-500" || modelType == "Checkpoint-1000"
    ensures p.Some? ==> |modelType| > 11 && p.value == "./Fine-tuning/checkpoint-" + modelType[11..]
  {
    if modelType == "Checkpoint-500" then Some("./Fine-tuning/checkpoint-500")
    else if modelType == "Checkpoint-1000" then Some("./Fine-tuning/checkpoint-1000")
    else None
  }

  /** The image a toggle acts on: the selection, or the only image when
      nothing is selected and exactly one image exists. */
  function Target(selectedIndex: Option<nat>, count: nat): (t: Option<nat>)
    ensures selectedIndex.Some? ==> t == selectedIndex
    ensures selectedIndex.None? ==> (t.Some? <==> count == 1) && (t.Some? ==> t.value == 0)
  {
    if selectedIndex.Some? then selectedIndex
    else if count == 1 then Some(0)
    else None
  }

  /** The status lines of `apply_outline`. */
  const NoImages: string := "No images to process!"
  const NoSelection: string := "Please select an image first by clicking on it!"
  const IndexOutOfRange: string := "Error: Image index out of range!"
  const AssignmentOutOfRange: string := "Error applying outline: list assignment index out of range"

  function RevertedMessage(i: nat): string {
    "Reverted image " + NatToString(i + 1) + " to original."
  }

  function AppliedMessage(i: nat): string {
    "Applied outline to image " + NatToString(i + 1) + ". Click again to revert."
  }

  /** What `apply_outline` hands back (the gallery and the status line)
      together with the new outline flags. */
  datatype OutlineResult = OutlineResult(gallery: seq<Picture>, status: seq<bool>, message: string)

  /** `apply_outline` on the state (`originals`, `status`): rejections
      first, then a toggle of the target image. An index past the end of
      the gallery makes the list assignment raise before any flag changes;
      the handler returns the gallery with the exception's text. */
  function Outline(originals: seq<Picture>, status: seq<bool>, gallery: seq<Picture>,
                   selectedIndex: Option<nat>, outline: Picture -> Picture): (r: OutlineResult)
    requires |status| == |originals|
    ensures |r.gallery| == |gallery| && |r.status| == |status|
  {
    var target := Target(selectedIndex, |originals|);
    if gallery == [] then OutlineResult(gallery, status, NoImages)
    else if target.None? then OutlineResult(gallery, status, NoSelection)
    else if target.value >= |originals| then OutlineResult(gallery, status, IndexOutOfRange)
    else if target.value >= |gallery| then
      OutlineResult(gallery, status, AssignmentOutOfRange)
    else
      var i := target.value;
      if status[i] then
        OutlineResult(gallery[i := originals[i]], status[i := false],
                      RevertedMessage(i))
      else
        OutlineResult(gallery[i := outline(originals[i])], status[i := true],
                      AppliedMessage(i))
  }

  /** The call toggles image i: the gallery is non-empty and the target
      lies inside both lists. */
  predicate Toggles(originals: seq<Picture>, gallery: seq<Picture>, selectedIndex: Option<nat>, i: nat) {
    gallery != [] && Target(selectedIndex, |originals|) == Some(i) && i < |originals| && i < |gallery|
  }

  /** Each gallery image shows its original, or the original's outline
      exactly when its flag is set. */
  predicate Consistent(originals: seq<Picture>, status: seq<bool>, gallery: seq<Picture>,
                       outline: Picture -> Picture) {
    |status| == |originals| == |gallery| &&
    forall j :: 0 <= j < |gallery| ==> gallery[j] == (if status[j] then outline(originals[j]) else originals[j])
  }

  /** A call that does not toggle returns the gallery and the flags as
      they were. */
  lemma OutlineRejects(originals: seq<Picture>, status: seq<bool>, gallery: seq<Picture>,
                       selectedIndex: Option<nat>, outline: Picture -> Picture)
    requires |status| == |originals|
    requires forall i: nat :: !Toggles(originals, gallery, selectedIndex, i)
    ensures Outline(originals, status, gallery, selectedIndex, outline).gallery == gallery
    ensures Outline(originals, status, gallery, selectedIndex, outline).status == status
  {
    var target := Target(selectedIndex, |originals|);
    if gallery != [] && target.Some? {
      assert !Toggles(originals, gallery, selectedIndex, target.value);
    }
  }

  /** A toggle flips the target's flag, swaps its gallery image between the
      original and its outline, and changes nothing at any other index. */
  lemma OutlineToggles(originals: seq<Picture>, status: seq<bool>, gallery: seq<Picture>,
                       selectedIndex: Option<nat>, outline: Picture -> Picture, i: nat)
    requires |status| == |originals| && Toggles(originals, gallery, selectedIndex, i)
    ensures var r := Outline(originals, status, gallery, selectedIndex, outline);
      r.status[i] == !status[i] &&
      r.gallery[i] == (if status[i] then originals[i] else outline(originals[i])) &&
      (forall j :: 0 <= j < |gallery| && j != i ==> r.gallery[j] == gallery[j]) &&
      (forall j :: 0 <= j < |status| && j != i ==> r.status[j] == status[j])
  {
  }

  /** Every call keeps the gallery consistent with the flags. */
  lemma OutlineKeepsConsistent(originals: seq<Picture>, status: seq<bool>, gallery: seq<Picture>,
                               selectedIndex: Option<nat>, outline: Picture -> Picture)
    requires Consistent(originals, status, gallery, outline)
    ensures var r := Outline(originals, status, gallery, selectedIndex, outline);
      Consistent(originals, r.status, r.gallery, outline)
  {
    var r := Outline(originals, status, gallery, selectedIndex, outline);
    var target := Target(selectedIndex, |originals|);
    if gallery != [] && target.Some? && target.value < |originals| {
      OutlineToggles(originals, status, gallery, selectedIndex, outline, target.value);
    } else {
      OutlineRejects(originals, status, gallery, selectedIndex, outline);
    }
  }

  /** Toggling the same image twice restores both the gallery and the flags
      of a consistent state: an outlined image goes back to its original. */
  lemma OutlineTwiceRestores(originals: seq<Picture>, status: seq<bool>, gallery: seq<Picture>,
                             selectedIndex: Option<nat>, outline: Picture -> Picture, i: nat)
    requires Consistent(originals, status, gallery, outline)
    requires Toggles(originals, gallery, selectedIndex, i)
    ensures var once := Outline(originals, status, gallery, selectedIndex, outline);
      var twice := Outline(originals, once.status, once.gallery, selectedIndex, outline);
      twice.gallery == gallery && twice.status == status
  {
    var once := Outline(originals, status, gallery, selectedIndex, outline);
    OutlineToggles(originals, status, gallery, selectedIndex, outline, i);
    assert once.gallery != [];
    OutlineToggles(originals, once.status, once.gallery, selectedIndex, outline, i);
    var twice := Outline(originals, once.status, once.gallery, selectedIndex, outline);
    assert twice.gallery == gallery;
    assert twice.status == status;
  }

  /** A fresh generation is consistent: every image shows its original and
      no flag is set. */
  lemma GeneratedConsistent(images: seq<Picture>, outline: Picture -> Picture)
    ensures Consistent(images, AllFalse(|images|), images, outline)
  {
  }

  /** The status line of `generate_stencil` for a blank prompt. */
  const BlankPrompt: string := "Please enter a prompt!"

  /** The status line of `generate_stencil` for a raised exception. */
  function ErrorMessage(error: string): string {
    "Error: " + error
  }

  /** The status line of `generate_stencil` after a successful generation. */
  function SuccessMessage(count: nat): string {
    "Generation successful! Created " + NatToString(count) + " image(s)."
  }

  /** `[False] * n`. */
  function AllFalse(n: nat): (flags: seq<bool>)
    ensures |flags| == n && forall i :: 0 <= i < n ==> !flags[i]
  {
    seq(n, _ => false)
  }

  /** `load_model` builds a generator when none exists or the model
      choice differs from the loaded one. */
  predicate Reloads(generator: Generator?, currentModelType: Option<string>, modelType: string) {
    generator == null || currentModelType != Some(modelType)
  }

  class StencilApp {
    var generator: Generator?
    var currentModelType: Option<string>
    var originalImages: seq<Picture>
    var outlinedStatus: seq<bool>

    /** The two lists run in parallel. */
    predicate Valid()
      reads this
    {
      |originalImages| == |outlinedStatus|
    }

    constructor ()
      ensures Valid()
      ensures generator == null && currentModelType == None
      ensures originalImages == [] && outlinedStatus == []
    {
      generator := null;
      currentModelType := None;
      originalImages := [];
      outlinedStatus := [];
    }

    /** `load_model`: a new generator is built exactly when none exists or
        the model choice changed. `failure` is the exception building it
        would raise, if any; then nothing changes. */
    method LoadModel(modelType: string, failure: Option<string>) returns (r: Result<Generator>)
      modifies this
      ensures originalImages == old(originalImages) && outlinedStatus == old(outlinedStatus)
      ensures !Reloads(old(generator), old(currentModelType), modelType) ==>
        r.Success? && r.value == generator && generator == old(generator) && currentModelType == old(currentModelType)
      ensures Reloads(old(generator), old(currentModelType), modelType) && failure.Some? ==>
        r == Failure(failure.value) &&
        generator == old(generator) && currentModelType == old(currentModelType)
      ensures Reloads(old(generator), old(currentModelType), modelType) && failure.None? ==>
        r.Success? && r.value == generator && fresh(generator) &&
        generator.checkpointPath == CheckpointPath(modelType) && currentModelType == Some(modelType)
    {
      if Reloads(generator, currentModelType, modelType) {
        if failure.Some? {
          return Failure(failure.value);
        }
        var checkpointPath := CheckpointPath(modelType);
        generator := new Generator(checkpointPath);
        currentModelType := Some(modelType);
      }
      r := Success(generator);
    }

    /** `generate_stencil`. A blank prompt is refused; otherwise the model
        is loaded and asked for `numImages` images. `loadFailure` and a
        failed `pipeline` stand for the exceptions the handler turns into
        an "Error: " message. */
    method GenerateStencil(prompt: string, modelType: string, numImages: nat, cleanBackground: bool,
                           img: Imaging, loadFailure: Option<string>, pipeline: Result<seq<Picture>>)
      returns (gallery: seq<Picture>, message: string)
      requires Valid()
      requires pipeline.Success? ==> |pipeline.value| == numImages
      requires pipeline.Success? ==> forall i :: 0 <= i < |pipeline.value| ==> PictureWellFormed(pipeline.value[i])
      modifies this
      ensures Valid()
      ensures AllSpace(prompt) ==>
        gallery == [] && message == BlankPrompt &&
        generator == old(generator) && currentModelType == old(currentModelType) &&
        originalImages == old(originalImages) && outlinedStatus == old(outlinedStatus)
      ensures !AllSpace(prompt) && Reloads(old(generator), old(currentModelType), modelType) && loadFailure.Some? ==>
        gallery == [] && message == ErrorMessage(loadFailure.value) &&
        generator == old(generator) && currentModelType == old(currentModelType) &&
        originalImages == old(originalImages) && outlinedStatus == old(outlinedStatus)
      ensures !AllSpace(prompt) && !(Reloads(old(generator), old(currentModelType), modelType) && loadFailure.Some?) ==>
        generator != null && currentModelType == Some(modelType) &&
        (Reloads(old(generator), old(currentModelType), modelType) ==>
          fresh(generator) && generator.checkpointPath == CheckpointPath(modelType)) &&
        (!Reloads(old(generator), old(currentModelType), modelType) ==> generator == old(generator))
      ensures (!AllSpace(prompt) && !(Reloads(old(generator), old(currentModelType), modelType) && loadFailure.Some?) &&
               pipeline.Failure?) ==>
        gallery == [] && message == ErrorMessage(pipeline.error) &&
        originalImages == old(originalImages) && outlinedStatus == old(outlinedStatus)
      ensures (!AllSpace(prompt) && !(Reloads(old(generator), old(currentModelType), modelType) && loadFailure.Some?) &&
               pipeline.Success?) ==>
        generator != null &&
        gallery == Outputs(generator.Generate(img, pipeline.value, numImages, cleanBackground)) &&
        originalImages == gallery && outlinedStatus == AllFalse(|gallery|) &&
        message == SuccessMessage(|gallery|)
    {
      if Strip(prompt) == [] {
        return [], BlankPrompt;
      }
      var loaded := LoadModel(modelType, loadFailure);
      if loaded.Failure? {
        return [], ErrorMessage(loaded.error);
      }
      var gen := loaded.value;
      if pipeline.Failure? {
        return [], ErrorMessage(pipeline.error);
      }
      var images := Outputs(gen.Generate(img, pipeline.value, numImages, cleanBackground));
      gallery, message := ShowGenerated(images);
    }

    /** The tail of `generate_stencil`: fresh images become the originals,
        none is outlined, and the status line counts them. */
    method ShowGenerated(images: seq<Picture>) returns (gallery: seq<Picture>, message: string)
      modifies this
      ensures Valid()
      ensures generator == old(generator) && currentModelType == old(currentModelType)
      ensures originalImages == images && outlinedStatus == AllFalse(|images|)
      ensures gallery == images && message == SuccessMessage(|images|)
    {
      originalImages := images;
      outlinedStatus := AllFalse(|images|);
      gallery := images;
      message := SuccessMessage(|images|);
    }

    /** `apply_outline`: the state changes as `Outline` says, and the
        originals never change. */
    method ApplyOutline(gallery: seq<Picture>, selectedIndex: Option<nat>, outline: Picture -> Picture)
      returns (updated: seq<Picture>, message: string)
      requires Valid()
      modifies this
      ensures Valid()
      ensures generator == old(generator) && currentModelType == old(currentModelType)
      ensures originalImages == old(originalImages)
      ensures OutlineResult(updated, outlinedStatus, message) ==
        Outline(old(originalImages), old(outlinedStatus), gallery, selectedIndex, outline)
    {
      if gallery == [] {
        return gallery, NoImages;
      }
      var index: nat;
      if selectedIndex.None? {
        if |originalImages| == 1 {
          index := 0;
        } else {
          return gallery, NoSelection;
        }
      } else {
        index := selectedIndex.value;
      }
      if index >= |originalImages| {
        return gallery, IndexOutOfRange;
      }
      if index >= |gallery| {
        return gallery, AssignmentOutOfRange;
      }
      updated := gallery;
      if outlinedStatus[index] {
        updated := updated[index := originalImages[index]];
        outlinedStatus := outlinedStatus[index := false];
        message := RevertedMessage(index);
      } else {
        var outlined := outline(originalImages[index]);
        updated := updated[index := outlined];
        outlinedStatus := outlinedStatus[index := true];
        message := AppliedMessage(index);
      }
    }
  }
}
