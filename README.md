# Stencil-AI: a verified model of the stencil post-processing and its helpers

This project models the deterministic core of Stencil-AI in Dafny and proves
what that core promises. Stencil-AI turns text prompts into drawing stencils:
black-on-white images produced by a diffusion model, then cleaned by classical
image processing.

**Stencil binarisation** is the main part:

- The `StencilCV` strategies (`StencilCV.dfy`):
  - edge outlines: gray, blur, Canny, optional square dilation, optional inversion;
  - filled silhouettes: threshold, majority polarity, small-object removal by redrawing external contours, hole filling from the two-level contour hierarchy, then closing and opening with the 5x5 ellipse;
  - the hybrid: a white canvas ANDed with each enabled source;
  - the `auto_stencil` dispatcher.
- The generator's second binariser `_clean_stencil_image` (`StencilGenerator.dfy`):
  - threshold `> t`, with `t` from Otsu or the fallback 128;
  - inversion when white is under half the image;
  - removal of small black 4-connected components;
  - scipy closing with a 3x3 element of ones.
- Shared pieces:
  - `Images.dfy`: flat row-major gray and RGB images, 0/255 masks, complement, bitwise AND, channel broadcast;
  - `Morphology.dfy`: dilation, erosion, closing and opening over offset structuring elements;
  - `Components.dfy`: 4-connected components as the least closed set around a seed.

**Smaller cores:**

- `StencilGenerator.dfy`:
  - prompt decoration and the negative-prompt default of `generate`;
  - the shape of `generate`'s result;
  - the indexed file names of `generate_and_save`.
- `PromptNLP.dfy`:
  - article insertion (`make_independent_prompt`);
  - the background test;
  - the dedupe, relation, merge and filter steps of `decompose_prompt`, over a given parse.
- `App.dfy`: the web front end's state.
  - `StencilApp` holds the loaded generator and its model choice.
  - It also holds the parallel lists of original images and outline flags, which `apply_outline` toggles.
- `Volume.dfy`: the backend's file-volume validators.
  - the safe-basename check and the magic-byte signature filter;
  - the bucket-path sanity check and bucket lookup;
  - the argument checks of `saveImage` and `deleteImage`;
  - the temp-file age rule.
- `BreakPrompt.dfy`: the `break_prompt` tool definition, a JSON Schema, and a small validator.
  - The validator covers the keywords the schema uses.
  - It proves which argument values the schema admits.

Library algorithms are fields of a value the model takes as a parameter:

- gray conversion, Gaussian blur, Canny, Otsu's threshold, the adaptive threshold, contour tracing and contour areas (a `Vision` value);
- PIL's mode-'L' conversion and `threshold_otsu` (an `Imaging` value).

A ghost predicate, `Lawful`, states the shape and 0/255 guarantees the pipelines rely on. The diffusion pipeline is an input: the images it produced.

## Model

| member | source | states |
|---|---|---|
| Images.White | StencilAI/StencilCV.py:265 | the canvas is a well-formed 0/255 mask whose every pixel is 255 |
| Images.Complement | StencilAI/StencilCV.py:123-124 | `bitwise_not` keeps the shape and maps every pixel v to 255 - v |
| Images.ComplementInvolutive | StencilAI/StencilCV.py:123-124 | inverting twice gives back the image |
| Images.ComplementOfMask | StencilAI/StencilCV.py:186-187 | the complement of a 0/255 mask is a 0/255 mask |
| Images.CountWhiteComplement | StencilAI/StencilCV.py:186-187 | inverting a mask swaps its white and black pixel counts |
| Images.SumOfMask | StencilAI/StencilCV.py:186 | the pixel sum of a 0/255 mask is 255 times its white count, which turns `np.mean(binary) < 127` into 255·#white < 127·#pixels |
| Images.Broadcast | StencilAI/StencilCV.py:127 | gray-to-RGB conversion keeps height and width and copies each value into all three channels |
| Images.BroadcastOfMask | StencilAI/StencilCV.py:127 | a broadcast 0/255 mask is a stencil: every pixel is black or white with R = G = B |
| Images.ToGray | StencilAI/StencilCV.py:109 | gray conversion keeps the size and applies the luma function pixel by pixel |
| Images.ToGrayOfBroadcastMask | StencilAI/StencilCV.py:270-271 | converting a broadcast mask back to gray gives the mask itself, provided gray conversion keeps pure black and white |
| Images.BitAndOfMaskValues | StencilAI/StencilCV.py:272 | bitwise AND of two 0/255 values is 255 iff both are 255, else 0 |
| Images.And | StencilAI/StencilCV.py:272 | ANDing two masks of one shape gives a mask that is white exactly where both are white, and no pixel is above either input |
| Images.Bits | StencilAI/Stencil.py:226 | the boolean view of a mask is true exactly at its 255 pixels |
| Images.FromBits | StencilAI/Stencil.py:263 | `(binary * 255)` maps true to 255 and false to 0 and keeps the size |
| Images.FromBitsOfBits | StencilAI/Stencil.py:263 | a mask survives the round trip through booleans and back |
| Morphology.ToGridCell | StencilAI/Stencil.py:258 | the flat mask read as h rows of width w, with cell (r, c) the flat pixel r·w + c |
| Morphology.FlattenToGrid | StencilAI/Stencil.py:263 | reading a flat mask as a grid and flattening it again gives it back |
| Morphology.Dilate | StencilAI/StencilCV.py:120 | a cell is white iff some offset of the element reaches a white in-image cell |
| Morphology.Erode | StencilAI/Stencil.py:258 | a cell is white iff every offset reaches a white cell, an off-image position reading as the given border value |
| Morphology.DilateKeepsWhite | StencilAI/StencilCV.py:118-120 | dilation by an element holding its anchor never turns a white cell black |
| Morphology.CloseKeepsWhite | StencilAI/StencilCV.py:228 | closing with a symmetric element, the border reading white in the erosion, never turns a white cell black |
| Morphology.OpenKeepsBlack | StencilAI/StencilCV.py:229 | opening with a symmetric element never turns a black cell white |
| Morphology.Ones3 | StencilAI/Stencil.py:258 | `np.ones((3, 3))` is the nine offsets in -1..1 by -1..1 |
| Morphology.Ones3Shape | StencilAI/Stencil.py:258 | the 3x3 element holds its anchor and is symmetric |
| Morphology.ErodeOnes3BlackensFrame | StencilAI/Stencil.py:258 | when the border reads black, erosion by the 3x3 element blackens every cell of the outer frame |
| Morphology.CloseOnes3KeepsInteriorWhite | StencilAI/Stencil.py:258 | when the border reads black, closing by the 3x3 element keeps every white cell off the frame white |
| Morphology.SquareMembers | StencilAI/StencilCV.py:119 | the n x n all-ones kernel has n² offsets: exactly those with row and column in -(n/2) .. n-1-n/2, i.e. anchored at the centre |
| Morphology.SquareHasOrigin | StencilAI/StencilCV.py:119 | a square kernel of side at least 1 holds its anchor |
| Morphology.Ellipse5 | StencilAI/StencilCV.py:227 | the 5x5 elliptic element has 17 offsets |
| Morphology.Ellipse5Shape | StencilAI/StencilCV.py:227 | the 5x5 elliptic element holds its anchor and is symmetric |
| Components.AdjacentSymmetric | StencilAI/Stencil.py:243 | 4-neighbourhood (scipy `label`'s default structure) is symmetric |
| Components.Labelled | StencilAI/Stencil.py:243 | the labelled pixels are exactly the in-range foreground pixels of `~binary` |
| Components.Grow | StencilAI/Stencil.py:243 | one growth step adds only foreground pixels adjacent to the set |
| Components.ComponentClosed | StencilAI/Stencil.py:243 | a pixel's component holds the pixel, holds only foreground, and is closed under foreground adjacency |
| Components.ComponentNeighbour | StencilAI/Stencil.py:243 | a foreground neighbour of a component member is in the component |
| Components.ComponentLeast | StencilAI/Stencil.py:243 | the component lies inside every adjacency-closed set holding the seed: it is the least one |
| Components.SameComponent | StencilAI/Stencil.py:243-250 | every member of a component is foreground and has that same component, so one label covers it |
| StencilCV.DilateMask | StencilAI/StencilCV.py:118-120 | `cv2.dilate` of a mask is a 0/255 mask of the same shape |
| StencilCV.DilateMaskKeepsWhite | StencilAI/StencilCV.py:118-120 | dilating a mask by an element holding its anchor keeps every white pixel |
| StencilCV.Smooth | StencilAI/StencilCV.py:226-229 | close-then-open with the 5x5 ellipse gives a 0/255 mask of the same shape |
| StencilCV.SmoothStages | StencilAI/StencilCV.py:226-229 | the closing keeps every white pixel, and a pixel the closing leaves black stays black after the opening |
| StencilCV.EdgeMap | StencilAI/StencilCV.py:109-115 | gray, blur and Canny give a 0/255 mask of the input's height and width |
| StencilCV.EdgeMask | StencilAI/StencilCV.py:109-124 | the single-channel outline is a 0/255 mask of the input's height and width |
| StencilCV.EdgeStencilIsStencil | StencilAI/StencilCV.py:109-129 | `EdgeStencil` models `edge_stencil` (StencilAI/StencilCV.py:83-129); it returns a stencil of the input's height and width: pixels 0 or 255, equal across channels |
| StencilCV.EdgeInvertComplement | StencilAI/StencilCV.py:123-124 | with `invert=False` every pixel is the complement (255 - v per channel) of the same call with `invert=True` |
| StencilCV.EdgeKeepsCannyEdges | StencilAI/StencilCV.py:118-120 | every pixel Canny marked is white in the white-on-black outline, whatever the line thickness |
| StencilCV.EdgeThickness | StencilAI/StencilCV.py:118-120 | for thickness ≤ 1 the white-on-black outline is Canny's map; above 1, pixel (r, c) is white iff Canny marked a pixel at row offset -(t/2) .. t-1-t/2 and column offset likewise from it, inside the image |
| StencilCV.DilateSquareAt | StencilAI/StencilCV.py:119-120 | dilating a 0/255 mask with the n x n square of ones makes (r, c) white iff the square anchored at its centre on (r, c) covers a white pixel inside the image |
| StencilCV.Binarize | StencilAI/StencilCV.py:174 | `THRESH_BINARY` at t: a pixel is 255 iff its value is > t, else 0, same shape |
| StencilCV.Threshold | StencilAI/StencilCV.py:171-182 | every threshold method yields a 0/255 mask of the blurred image's shape |
| StencilCV.SimpleThreshold | StencilAI/StencilCV.py:181-182 | in the simple mode a pixel is 255 iff its blurred value is > `threshold_value`, and 0 iff it is ≤ it |
| StencilCV.Polarity | StencilAI/StencilCV.py:186-187 | the polarity step keeps the shape |
| StencilCV.PolarityMajority | StencilAI/StencilCV.py:186-187 | the mask is inverted iff 255·#white < 127·#pixels (mean below 127), it stays a mask, and afterwards 255·#white ≥ 127·#pixels |
| StencilCV.Paint | StencilAI/StencilCV.py:203 | drawing a contour filled blackens exactly its in-image interior pixels and leaves every other pixel as it was |
| StencilCV.Drawn | StencilAI/StencilCV.py:199-205 | a white canvas with contours drawn filled is black exactly at the pixels inside some drawn contour |
| StencilCV.LargeOnes | StencilAI/StencilCV.py:200-202 | the kept contours are exactly those of area ≥ the limit |
| StencilCV.Outer | StencilAI/StencilCV.py:218-220 | the drawn contours are exactly those whose hierarchy parent is -1 |
| StencilCV.Redraw | StencilAI/StencilCV.py:199-205 | redrawing gives a fresh 0/255 mask of the input's shape |
| StencilCV.RemovalBlackIff | StencilAI/StencilCV.py:190-205 | after removal a pixel is black iff it lies in a traced external contour of area ≥ `remove_small_objects`, so holes inside kept contours are black too |
| StencilCV.FillBlackIff | StencilAI/StencilCV.py:208-223 | after hole filling a pixel is black iff it lies in an outer (parent -1) contour: the black set is the union of filled outer boundaries |
| StencilCV.DrawFilled | StencilAI/StencilCV.py:203 | the in-place drawing loop leaves the array equal to `Paint` of its old contents |
| StencilCV.RedrawLarge | StencilAI/StencilCV.py:199-205 | the removal loop builds a fresh mask equal to the white canvas with exactly the large contours drawn |
| StencilCV.RedrawOuter | StencilAI/StencilCV.py:217-223 | the hole-filling loop builds a fresh mask equal to the white canvas with exactly the outer contours drawn |
| StencilCV.SilhouetteMask | StencilAI/StencilCV.py:166-229 | the silhouette pipeline's mask is 0/255 with the input's height and width |
| StencilCV.SilhouetteIsStencil | StencilAI/StencilCV.py:166-234 | `Silhouette` models `silhouette_stencil` (StencilAI/StencilCV.py:131-234); it returns a stencil of the input's height and width |
| StencilCV.SilhouetteStencil | StencilAI/StencilCV.py:166-234 | the stage-by-stage method (with its drawing loops) returns exactly the silhouette function's result |
| StencilCV.DefaultSilhouetteMask | StencilAI/StencilCV.py:134-139 | the default silhouette (otsu, 127, 5, fill, 500, smooth) is a 0/255 mask of the input's size |
| StencilCV.GrayOf | StencilAI/StencilCV.py:270-271 | converting a stencil built from a mask back to gray gives that mask |
| StencilCV.Hybrid | StencilAI/StencilCV.py:265-284 | the hybrid is a stencil of the input's size, white exactly where every enabled source (default silhouette; edge map with `invert=True`) is white |
| StencilCV.HybridBounds | StencilAI/StencilCV.py:265-279 | each hybrid pixel is ≤ the same pixel of each enabled source, and with both flags off it is white |
| StencilCV.HybridStencil | StencilAI/StencilCV.py:264-284 | the step-by-step canvas update returns exactly `Hybrid` |
| StencilCV.AutoStencil | StencilAI/StencilCV.py:301-306 | 'outline' gives the default edge stencil, 'filled' the default silhouette, and any other style the default hybrid |
| StencilGenerator.Negate | StencilAI/Stencil.py:236 | `~binary` flips every pixel and keeps the length |
| StencilGenerator.CountNegate | StencilAI/Stencil.py:232-236 | negating swaps the white and black counts |
| StencilGenerator.Cutoff | StencilAI/Stencil.py:218-223 | the threshold is Otsu's value when scikit-image imports, else exactly 128; the `binary_threshold` argument is never read |
| StencilGenerator.Thresholded | StencilAI/Stencil.py:226 | a pixel is white iff its gray value is strictly greater than the threshold |
| StencilGenerator.OrientedMajority | StencilAI/Stencil.py:229-236 | `Oriented` models the inversion step (StencilAI/Stencil.py:229-236): with the step enabled the mask is inverted iff 2·#white < #pixels, is kept iff 2·#white ≥ #pixels, and afterwards 2·#white ≥ #pixels |
| StencilGenerator.OrientInPlace | StencilAI/Stencil.py:229-236 | the counting and in-place inversion loops leave the array equal to the oriented mask of its old contents |
| StencilGenerator.RemovalByComponent | StencilAI/Stencil.py:241-251 | `Removed` models small-object removal (StencilAI/Stencil.py:241-251): it never turns white black, and a black 4-connected component turns wholly white iff its size is < `min_object_size`, else stays wholly black |
| StencilGenerator.RemoveSmallInPlace | StencilAI/Stencil.py:241-251 | the in-place assignment `binary[remove_pixel] = True` leaves the array equal to the removal function of its old contents |
| StencilGenerator.Closing | StencilAI/Stencil.py:258 | `binary_closing` keeps the number of pixels |
| StencilGenerator.ClosingBlackensFrame | StencilAI/Stencil.py:255-258 | with scipy's default `border_value=0` every pixel of the outer frame is black after the closing |
| StencilGenerator.ClosingKeepsInteriorWhite | StencilAI/Stencil.py:255-258 | off the frame the closing never turns a white pixel black |
| StencilGenerator.CleanMask | StencilAI/Stencil.py:209-258 | the final boolean mask has one entry per input pixel |
| StencilGenerator.CleanStencil | StencilAI/Stencil.py:262-266 | the output has the input's size, every pixel is 0 or 255 with R = G = B, and it is 255 exactly where the final mask is true |
| StencilGenerator.CleanStencilImage | StencilAI/Stencil.py:185-268 | the array-based method returns exactly `CleanStencil` |
| StencilGenerator.Generator.constructor | StencilAI/Stencil.py:69-97 | a checkpoint model has suffix "Sketch of" and no default negative prompt; the pretrained model has the stencil suffix and the default negative prompt |
| StencilGenerator.Generator.FullPrompt | StencilAI/Stencil.py:305-314 | a checkpoint model gets "sketch of " + prompt iff the suffix is wanted and the lowered prompt does not start with "sketch of"; the pretrained model gets prompt + ", " + suffix iff wanted; otherwise the prompt is unchanged |
| StencilGenerator.Generator.NegativePrompt | StencilAI/Stencil.py:317 | the caller's negative prompt is used unless it is None or empty, in which case the model's default is |
| StencilGenerator.Generator.Generate | StencilAI/Stencil.py:340-350 | every image is cleaned iff `clean_background`; the result is a single image iff one was asked for, else the list of all |
| StencilGenerator.Outputs | StencilAI/app.py:95-97 | a single image becomes a one-element list; a list is kept |
| StencilGenerator.CheckpointPromptIdempotent | StencilAI/Stencil.py:307-310 | decorating a checkpoint prompt twice gives the same prompt as decorating it once |
| StencilGenerator.StandardPromptShape | StencilAI/Stencil.py:312-314 | the pretrained model's decorated prompt starts with the caller's prompt and ends with the stencil suffix |
| StencilGenerator.SavePlan | StencilAI/Stencil.py:393-398 | one image is saved to the path unchanged; with several, image idx is saved to the path with every ".png" replaced by "_{idx+1}.png" |
| StencilGenerator.IndexedPathOfStem | StencilAI/Stencil.py:397 | `IndexedPath` models the per-image path (StencilAI/Stencil.py:397): for a stem without ".png", "stem.png" becomes "stem_{idx+1}.png" |
| StencilGenerator.UnsuffixedPathsCollide | StencilAI/Stencil.py:397 | a path without ".png" is not changed, so every image of a batch is written to the same path |
| Strings.Lower | StencilAI/PromptNLP/PromptNLP.py:61 | lower-casing keeps the length and lowers each character |
| Strings.WordsEmptyIffAllSpace | StencilAI/PromptNLP/PromptNLP.py:58 | `split()` gives no words iff the text is all whitespace |
| Strings.WordsOfPair | StencilAI/PromptNLP/PromptNLP.py:185 | two space-free words joined by a space split into exactly those two words |
| Strings.Words | StencilAI/PromptNLP/PromptNLP.py:58 | every word `split()` returns is non-empty and holds no whitespace |
| Strings.Strip | StencilAI/app.py:74 | `strip()` gives the empty string iff the text is all whitespace, which is the blank-prompt test |
| Strings.ReplaceAllAbsent | StencilAI/Stencil.py:397 | `replace` leaves a string without the pattern unchanged |
| PromptNLP.MakeIndependentPrompt | StencilAI/PromptNLP/PromptNLP.py:58-69 | the text is returned unchanged iff its first word is all digits, or it has ≥ 2 words and the first is "the" in any case, or its last word ends in 's'; otherwise it is "a " + text |
| PromptNLP.IndependentPromptWords | StencilAI/PromptNLP/PromptNLP.py:58-69 | the result's words are the input's, possibly after "a", and it starts with a numeral, "a" or "the" or ends in a plural-looking word |
| PromptNLP.IndependentPromptDog | StencilAI/PromptNLP/PromptNLP.py:51-52 | "dog" becomes "a dog" |
| PromptNLP.IndependentPromptCats | StencilAI/PromptNLP/PromptNLP.py:53-54 | "cats" stays "cats" |
| PromptNLP.IndependentPromptTwoDogs | StencilAI/PromptNLP/PromptNLP.py:55-56 | "two dogs" stays "two dogs" |
| PromptNLP.BackgroundPair | StencilAI/PromptNLP/PromptNLP.py:183-191 | `IsBackgroundPrompt` models `is_background_prompt` (StencilAI/PromptNLP/PromptNLP.py:183-191): a two-word phrase is background iff its first word is "a" or "the" and its second is night, day, evening or morning, both case-insensitively |
| PromptNLP.BackgroundNeedsTwoWords | StencilAI/PromptNLP/PromptNLP.py:188 | a text without exactly two words is never background |
| PromptNLP.BackgroundANight | StencilAI/PromptNLP/PromptNLP.py:175-176 | "a night" is background |
| PromptNLP.BackgroundTheMorning | StencilAI/PromptNLP/PromptNLP.py:188 | "The Morning" is background (case-insensitive) |
| PromptNLP.BackgroundADog | StencilAI/PromptNLP/PromptNLP.py:177-178 | "a dog" is not background |
| PromptNLP.BackgroundALamp | StencilAI/PromptNLP/PromptNLP.py:179-180 | "a lamp" is not background |
| PromptNLP.Keys | StencilAI/PromptNLP/PromptNLP.py:110-116 | the key set holds exactly the keys of the list's entries |
| PromptNLP.DedupeKeys | StencilAI/PromptNLP/PromptNLP.py:110-116 | the deduplicated list has the same key set as the input: no key is lost |
| PromptNLP.DedupeIsFirstOccurrences | StencilAI/PromptNLP/PromptNLP.py:110-116 | `Dedupe` models the step-2 deduplication (StencilAI/PromptNLP/PromptNLP.py:110-116): it keeps exactly the first entry with each lowercased key, in input order |
| PromptNLP.DedupeDistinct | StencilAI/PromptNLP/PromptNLP.py:110-116 | no two kept entries share a key |
| PromptNLP.DedupeWithin | StencilAI/PromptNLP/PromptNLP.py:110-116 | every kept entry comes from the input |
| PromptNLP.DedupeBy | StencilAI/PromptNLP/PromptNLP.py:110-116 | the loop with its `seen` set returns exactly the dedupe function's result |
| PromptNLP.IndependentPrompts | StencilAI/PromptNLP/PromptNLP.py:119-127 | the step-3 loop returns exactly `IndependentOf`: entry i is `ChunkPrompt` of chunk i (StencilAI/PromptNLP/PromptNLP.py:121-126), the independent prompt of its stripped text, or of its root word alone when modifiers are dropped |
| PromptNLP.RelationPrompts | StencilAI/PromptNLP/PromptNLP.py:131-144 | the step-4 loop returns exactly `RelationsOf`: entry i is `RelationPrompt` of triple i (StencilAI/PromptNLP/PromptNLP.py:143), the independent prompts of both nouns around the preposition, separated by single spaces |
| PromptNLP.MergeShape | StencilAI/PromptNLP/PromptNLP.py:147-150 | `Merge` models step 5 (StencilAI/PromptNLP/PromptNLP.py:147-150): the merged list starts with all independent prompts in order, holds exactly the independent prompts and relations, and no appended relation equals any other entry |
| PromptNLP.MergePrompts | StencilAI/PromptNLP/PromptNLP.py:147-150 | the step-5 loop returns exactly `Merge` |
| PromptNLP.FilterExact | StencilAI/PromptNLP/PromptNLP.py:153-154 | `FilterBackground` models step 6 (StencilAI/PromptNLP/PromptNLP.py:153-156); without background, the result holds exactly the entries that are not background prompts, and its length drops by their count |
| PromptNLP.FilterSingle | StencilAI/PromptNLP/PromptNLP.py:153-154 | a single prompt is dropped iff it is a background prompt, and kept otherwise |
| PromptNLP.FilterAppend | StencilAI/PromptNLP/PromptNLP.py:153-154 | filtering a concatenation is the concatenation of the filtered parts, so the kept prompts stay in order with their multiplicity |
| PromptNLP.FilterPrompts | StencilAI/PromptNLP/PromptNLP.py:153-156 | the step-6 filter returns exactly `FilterBackground`, the list itself when background is included |
| PromptNLP.DecomposePrompt | StencilAI/PromptNLP/PromptNLP.py:109-158 | the steps after parsing, run in order, return exactly `Decomposition` of the parse |
| App.CheckpointPath | StencilAI/app.py:38-43 | a path exists iff the choice is "Checkpoint-500" or "Checkpoint-1000", and then it is "./Fine-tuning/checkpoint-" followed by the number |
| App.Target | StencilAI/app.py:128-133 | a selection is used as given; with none, index 0 is chosen iff there is exactly one original |
| App.Outline | StencilAI/app.py:125-174 | `apply_outline` keeps the lengths of the gallery and the flags |
| App.OutlineRejects | StencilAI/app.py:125-136 | a call with an empty gallery, no usable selection or an out-of-range index returns the gallery and flags unchanged |
| App.OutlineToggles | StencilAI/app.py:143-168 | a toggle flips the target's flag and swaps its gallery entry between the original and its outline, changing no other index |
| App.OutlineKeepsConsistent | StencilAI/app.py:125-168 | every call keeps each gallery image equal to its original, or its outline exactly when its flag is set |
| App.OutlineTwiceRestores | StencilAI/app.py:143-168 | toggling the same image twice restores the gallery and the flags |
| App.GeneratedConsistent | StencilAI/app.py:99-101 | a fresh generation (all flags False, gallery = originals) is consistent |
| App.StencilApp.constructor | StencilAI/app.py:20-25 | no generator, no model choice, and empty parallel lists |
| App.StencilApp.LoadModel | StencilAI/app.py:27-52 | a generator is built iff none exists or the model choice changed, with that choice's checkpoint path; afterwards the current choice is the requested one; a failed build changes nothing |
| App.StencilApp.GenerateStencil | StencilAI/app.py:54-106 | a blank prompt is refused with no state change; on success the originals are the returned images and every flag is False; errors become "Error: ..." with the images untouched |
| App.StencilApp.ShowGenerated | StencilAI/app.py:99-103 | after generation the originals are the new images, no image is outlined, and the message counts the images; the generator is kept |
| App.StencilApp.ApplyOutline | StencilAI/app.py:108-174 | the new gallery, flags and message are `Outline` of the old state, and the originals never change |
| Volume.BasenameIdentity | backend/src/volume/volume.service.ts:158 | a name equals its basename iff it holds no '/' |
| Volume.ExtNameExamples | backend/src/volume/volume.service.ts:160 | `ExtName` models Node's `path.extname` as used at backend/src/volume/volume.service.ts:160: it gives ".png", ".JPG", "" for a leading-dot name, and "" without a dot |
| Volume.CheckSafeBasename | backend/src/volume/volume.service.ts:153-167 | a rejection carries "file basename was rejected"; an accepted name has 1..255 characters and no '/' or '\\' |
| Volume.CheckSafeBasenameExact | backend/src/volume/volume.service.ts:153-166 | a name is accepted iff it has 1..255 characters from [A-Za-z0-9._-], no "..", and ends, lower-cased, in an allowed extension after a non-empty stem |
| Volume.CheckSafeBasenameSound | backend/src/volume/volume.service.ts:153-166 | every accepted name meets the safe-name conditions |
| Volume.CheckSafeBasenameComplete | backend/src/volume/volume.service.ts:153-166 | every name meeting the safe-name conditions is accepted |
| Volume.ExtNameOfSafe | backend/src/volume/volume.service.ts:160 | for a slash-free name without "..", ending in an allowed extension after a stem, `extname` lower-cased is that extension |
| Volume.SafeBasenameAcceptsPng | backend/src/volume/volume.service.ts:153-166 | "stencil.png" is accepted |
| Volume.SafeBasenameAcceptsUpperCase | backend/src/volume/volume.service.ts:160 | "Photo_01.JPEG" is accepted: the extension is compared lower-cased |
| Volume.SafeBasenameRejects | backend/src/volume/volume.service.ts:153-166 | "../x.png", ".png" and "a.gif" are rejected |
| Volume.FileFilter | backend/src/volume/volume.service.ts:132-144 | a buffer passes iff bytes 0-3 are 89 50 4E 47, or bytes 0-2 are FF D8 FF, or bytes 8-11 are 57 45 42 50 (missing bytes never match); otherwise the error is the signature message |
| Volume.CheckBucketPath | backend/src/volume/volume.service.ts:36 | a bucket path passes iff it is not absolute and no piece of its split on runs of '/' or '\\' is empty, "." or ".."; else the error names the path |
| Volume.SaneResolvesBelow | backend/src/volume/volume.service.ts:36-54 | a path passing the check (without backslashes) resolves to the root followed by its pieces, strictly below the root |
| Volume.FindSubdirectory | backend/src/volume/volume.service.ts:113-124 | an unknown key fails with "Invalid bucket: " + key; a found directory is a configured bucket under the root |
| Volume.ConfiguredBuckets | backend/src/volume/volume.service.ts:9-11 | the configured "stencil" bucket and "temp" pass the sanity check, and "stencil" resolves to root/stencil |
| Volume.JoinSafeName | backend/src/volume/volume.service.ts:176-177 | joining a directory with an accepted name appends exactly that one segment |
| Volume.DeleteImageTarget | backend/src/volume/volume.service.ts:204-212 | `DeleteImage` models `deleteImage` (backend/src/volume/volume.service.ts:204-212): a deletion goes ahead only when the path splits on "/" into two parts, the first a bucket and the second a safe name, and it targets that name directly inside the bucket, under the root |
| Volume.DeleteImageSteps | backend/src/volume/volume.service.ts:204-210 | a deletion that goes ahead has passed the part count, the name check and the bucket lookup, and joins the name to the bucket's directory |
| Volume.TempFolder | backend/src/volume/volume.service.ts:127-129 | the temp folder is root/temp |
| Volume.SaveImageRejects | backend/src/volume/volume.service.ts:170-172 | `SaveImage` models `saveImage` (backend/src/volume/volume.service.ts:170-191): an unsafe name fails with the basename error before anything else; a safe name with a bad signature fails with the signature error |
| Volume.SaveImageTarget | backend/src/volume/volume.service.ts:170-177 | a saved file is written to root/temp/name and moved to bucket/name under the root, for a configured bucket |
| Volume.SaveImageSteps | backend/src/volume/volume.service.ts:171-177 | the name check comes first, then the signature, then the bucket, and success joins the name to the temp and bucket directories |
| Volume.StaleFilesExact | backend/src/volume/volume.service.ts:91-102 | `StaleFiles` models the selection in `cleanupTempFiles` (backend/src/volume/volume.service.ts:84-111): the deleted files are exactly the listed files whose stat succeeded and whose age exceeds one hour |
| Volume.StaleIsStrict | backend/src/volume/volume.service.ts:98-99 | a file exactly one hour old is kept; one older is deleted |
| Volume.CleanupTempFiles | backend/src/volume/volume.service.ts:84-110 | the cleanup loop removes exactly `StaleFiles`, in listing order |
| BreakPrompt.KeyIndex | backend/src/oeno/tools/breakPrompt.tool.ts:4-24 | the index of a key in a JSON object, -1 iff the key is absent |
| BreakPrompt.Get | backend/src/oeno/tools/breakPrompt.tool.ts:4-24 | member lookup finds a value iff the key is present |
| BreakPrompt.BreakPromptToolShape | backend/src/oeno/tools/breakPrompt.tool.ts:2-10 | `BreakPromptTool` models `breakPromptTool` (backend/src/oeno/tools/breakPrompt.tool.ts:2-25): the tool is named "break_prompt", the count defaults to 3, the description embeds the count, and the parameters are the argument schema for that count |
| BreakPrompt.ParametersShape | backend/src/oeno/tools/breakPrompt.tool.ts:10-23 | the argument schema is an object with the single property "prompts", which is required, and additionalProperties false |
| BreakPrompt.PromptsSchemaShape | backend/src/oeno/tools/breakPrompt.tool.ts:13-17 | "prompts" is an array of sub-prompts with minItems = maxItems = the count |
| BreakPrompt.PromptsDescriptionCount | backend/src/oeno/tools/breakPrompt.tool.ts:18 | the "prompts" description embeds the count |
| BreakPrompt.SubPromptShape | backend/src/oeno/tools/breakPrompt.tool.ts:27-42 | a sub-prompt is a closed object that describes "subject" and "action" and requires both |
| BreakPrompt.SubPromptPropertiesShape | backend/src/oeno/tools/breakPrompt.tool.ts:30-37 | the "subject" and "action" properties are both typed string |
| BreakPrompt.StringPropertyExact | backend/src/oeno/tools/breakPrompt.tool.ts:31-38 | a string property admits exactly the strings |
| BreakPrompt.SubPromptKeys | backend/src/oeno/tools/breakPrompt.tool.ts:30-39 | the sub-prompt describes exactly the keys "subject" and "action" |
| BreakPrompt.SubPromptRequired | backend/src/oeno/tools/breakPrompt.tool.ts:40 | the required list is met iff both "subject" and "action" are present |
| BreakPrompt.SubPromptClosed | backend/src/oeno/tools/breakPrompt.tool.ts:41 | additionalProperties false admits only the keys "subject" and "action" |
| BreakPrompt.SubPromptExact | backend/src/oeno/tools/breakPrompt.tool.ts:27-42 | `SubPrompt` models `subPrompt` (backend/src/oeno/tools/breakPrompt.tool.ts:27-43): the sub-prompt schema admits exactly the objects with only "subject" and "action", both present and both strings |
| BreakPrompt.PromptsExact | backend/src/oeno/tools/breakPrompt.tool.ts:13-19 | the "prompts" schema admits exactly arrays of exactly the count of sub-prompts |
| BreakPrompt.ParametersRequired | backend/src/oeno/tools/breakPrompt.tool.ts:21 | the top-level required list is met iff "prompts" is present |
| BreakPrompt.ParametersClosed | backend/src/oeno/tools/breakPrompt.tool.ts:22 | additionalProperties false admits only the key "prompts" |
| BreakPrompt.ParametersExact | backend/src/oeno/tools/breakPrompt.tool.ts:10-23 | the argument schema admits exactly objects whose only member is "prompts", an array of exactly the count of sub-prompts |
| BreakPrompt.DefaultToolAsksForThree | backend/src/oeno/tools/breakPrompt.tool.ts:2 | the tool without a count equals the tool for 3, whose schema admits exactly three sub-prompts |

## Left out

- Library algorithms are parameters, not definitions: Gaussian blur, Canny, Otsu's threshold (OpenCV and scikit-image), the adaptive Gaussian threshold, OpenCV contour tracing and `contourArea`, and the luma weights of gray conversion. Each is a function-valued field of `Vision` or `Imaging`. Their shape and 0/255 guarantees are stated by `Lawful` or required where used. A contour is modelled by the pixels its filled drawing covers and its area.
- Image loading and input-type dispatch (path, array or PIL image), the BGR/RGB swaps of `from_pil`/`to_pil`, `save`, and PIL mode conversions other than to 'L' are left out. Every stencil has equal channels, so the swaps do not change it.
- StencilCV.Polarity: `np.mean` is a floating-point mean; the model compares the integer sum with 127·#pixels, which is the same test without rounding.
- Strings.Lower: Python's `lower`, `isspace` and `isdigit` and JavaScript's `toLowerCase` are modelled for ASCII letters and the ASCII/Latin-1 whitespace set; other Unicode case mappings and digits are left out.
- StencilGenerator.Generator.Generate: the diffusion pipeline (model loading, the CLIP patch, devices, seeds, steps, guidance, sizes) is an input, the images it produced. The prompt and negative prompt it receives are modelled by `FullPrompt` and `NegativePrompt`; `generate` always cleans with the defaults (invert, remove, size 100).
- Logging (`print`, `console.log`) and the disk writes of `save_image` are left out; `SavePlan` returns the (path, image) pairs that are written.
- StencilGenerator.Closing: scipy's `binary_closing` border convention (`border_value=0`) is modelled as written, so the frame of every cleaned image is black.
- The fine-tuning script, the model upload script, the repository-root `Stencil.py` and the demo script are not part of this model.
- PromptNLP.DecomposePrompt: spaCy's parse is an input. The noun chunks (text and root text) and the (noun, preposition, noun) triples found in the dependency tree are given as lists; the token walk that finds them is left out.
- PromptNLP.MakeIndependentPrompt: requires text that is not blank. On blank text the source's `words[0]` raises `IndexError`; `decompose_prompt` never passes one, since spaCy's noun chunks and their roots always hold a word, so the model has no error path for it.
- App.StencilApp.GenerateStencil: generation and generator construction are inputs. A failure of either is a given message, reported as the handler does. `negative_prompt`, seeds and the other pipeline settings only reach the pipeline.
- App.StencilApp.ApplyOutline: `edge_stencil` with its defaults is the given total function `outline`; an exception from it is left out. A negative `selected_index` is left out (indices are natural numbers).
- The Gradio interface (`create_interface`, launch) is UI and is left out.
- Volume.CheckSafeBasename: the `typeof name !== "string"` test is left out (names are strings). String lengths are counted in characters, not UTF-16 code units.
- Volume.FindSubdirectory: bucket lookup on the JavaScript object ignores inherited prototype keys. The escape test on the resolved path compares path segments. For resolved, normalised paths this equals the string test `startsWith(root + sep) || path == root` for every root except the file-system root "/".
- Volume.ConfiguredBuckets: for the root "/" the source's test looks for the prefix "//", so it rejects every bucket below "/" as an escape; the model's segment test accepts them (`StencilBucketDirectory` gives `["stencil"]` for the empty root). The service's root is `path.resolve(process.cwd(), "volume")`, which always ends in the segment "volume", so it is never "/".
- StencilCV.EdgeMap: the blur is a total function of the kernel size. OpenCV's `GaussianBlur` raises an error for an even or non-positive kernel size, and `edge_stencil` passes `blur_kernel` through unchecked. The model has no error path there, so `EdgeStencilIsStencil` also covers those sizes.
- StencilCV.SilhouetteMask: the same holds for `silhouette_stencil`'s `blur_kernel`. The model has no error path for an even or non-positive kernel size, so `SilhouetteIsStencil` also covers those sizes.
- Volume.SaneResolvesBelow: proved for bucket paths without backslashes, which `path.resolve` treats as ordinary characters on POSIX.
- The file-system side of the volume service is left out: `verifyVolumeLayout`/`verifyValidFolder` existence and symlink checks, the directory walk, `mkdir`, writes, renames, unlinks, `realpath`, `sendFile`, `getImage`, and the `setInterval` schedule. `isFileClean` always returns true, so the antivirus branch is never taken.
- Volume.CleanupTempFiles: the clock and the directory listing are inputs; a failed `stat` is an absent modification time, and such a file is skipped.
- BreakPrompt.BreakPromptTool: non-integer counts are left out (the count is an integer); the validator covers only the JSON Schema keywords the tool uses (type, properties, required, additionalProperties, items, minItems, maxItems).
- The backend's other services (authentication, database, the OpenAI client, artwork storage), controllers, modules, DTOs, middleware and strategies are framework glue and are not part of this model.
