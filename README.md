# String art generators, modelled in Dafny

The repository turns a greyscale picture into "string art". Pins (nodes) sit around the
picture. A thread is stretched from pin to pin, each time choosing the chord that best
darkens what is still too light. This project models the chord-choosing core of the
repository and proves properties of it. Three source files are modelled, each in its
own module:

- `string_art_generator.dfy` (module `Greedy`) models `string_art_generator.py`:
  - Importance is `1 - luminance`, and coverage starts at zero.
  - Integer Bresenham rasterisation of a chord.
  - The score of a chord: the remaining demand `max(orig - coverage, 0)` summed over its
    pixels.
  - The best-chord search, with its threshold and first-seen tie-break.
  - The capped coverage update `coverage := min(coverage + 1, orig)`.
  - The greedy loop, which stops at `max_lines` or when nothing improves.

  The generator is a class. Its two grids are `array2<real>`: coverage is updated in
  place, and orig is only read after the constructor.
  Rasterisation is proved equal to a closed form (`Chord`): pixel k of a chord is k steps
  along the major axis plus the minor-axis offset rounded to nearest, with halves rounded
  down.
- `art_generator.dfy` (module `Multiplicative`) models `art_generator.py` and
  `line_mask.py`:
  - a white canvas;
  - a benefit per chord, the sum of `canvas - target` over its mask;
  - an argmax that always moves, taking the lowest index among equals;
  - in-place darkening `canvas *= gamma` along the chosen mask, where a cell listed
    twice is darkened once, as with NumPy fancy indexing.
- `string_art_ui.dfy` (module `StepDriver`) models the step-by-step driver of
  `string_art_ui.py`:
  - the start node is chosen at random;
  - each step takes the greedy best chord (the first best one, as the generator
    returns it), or else a random other node;
  - each step commits the chord's pixels and counts one line;
  - steps repeat until `max_lines`, and the generator then runs once more.
- `common.dfy` (module `Common`) holds the `Option` type and `Max`, shared by the three.

Random choices are passed in as indices (`pick`). The Tk scheduling (`after`) is a loop.

As written, the driver cannot take a single step. It commits each chord by calling
`update_coverage` (string_art_ui.py:210), which `string_art_generator.py` does not
define, so the first step raises AttributeError. No chord is committed, the current
node and the line count stay as they were, and no further step is scheduled. The model
keeps this as-written step (`StepGenerationAsWritten`) and, as the intended driver,
commits the chord with the capped update the generator itself uses (lines 97-99,
`UpdateCoverage`). "## Findings" below records this.

## Model

| member | source | states |
|---|---|---|
| Greedy.StringArtGenerator.constructor | string_art_generator.py:18-37 | orig is 1 - luminance pixel by pixel and coverage is all zero; for luminance in [0, 1], 0 <= coverage <= orig <= 1 holds from the start |
| Greedy.StringArtGenerator.BresenhamLine | string_art_generator.py:39-66 | the returned pixels are exactly the closed-form chord from (x0, y0) to (x1, y1), end point included |
| Greedy.StringArtGenerator.WalkAlongX | string_art_generator.py:47-55 | the x-major loop emits the first dx pixels of the closed-form chord; the halved float error term is kept doubled as an integer |
| Greedy.StringArtGenerator.WalkAlongY | string_art_generator.py:56-64 | the y-major loop (also taken when dx == dy) emits the first dy pixels of the closed-form chord |
| Greedy.ChordEnds | string_art_generator.py:43-66 | a chord has max(dx, dy) + 1 pixels, starts at its first end point and ends at its second |
| Greedy.ChordStep | string_art_generator.py:49-64 | consecutive pixels advance exactly one unit along the major axis and zero or one unit, towards the end point, along the minor axis |
| Greedy.ChordInBox | string_art_generator.py:43-66 | every pixel lies in the bounding box of the two end points |
| Greedy.ChordDistinct | string_art_generator.py:43-66 | no pixel is produced twice |
| Greedy.ChordDirectional | string_art_generator.py:45-55 | the chord depends on its direction: (0, 0) -> (2, 1) passes through (1, 0) but (2, 1) -> (0, 0) through (1, 1) |
| Greedy.ChordInGrid | string_art_generator.py:76-79 | a chord between two in-grid pins indexes only in-grid pixels |
| Greedy.MinorOffsetBounds | string_art_generator.py:47-64 | the minor-axis offset runs from 0 at the first pixel to the full minor extent at the last, never outside |
| Greedy.MinorOffsetStep | string_art_generator.py:51-54 | each step moves the minor axis by 0 or 1 |
| Greedy.MinorOffsetFromError | string_art_generator.py:48-54 | the error-term window the loop keeps determines the minor offset uniquely |
| Greedy.Score | string_art_generator.py:77-80 | a chord's improvement is never negative |
| Greedy.ScoreZeroIff | string_art_generator.py:77-80 | a chord scores zero if and only if coverage has reached orig at every one of its pixels |
| Greedy.StringArtGenerator.ComputeBestLine | string_art_generator.py:68-84 | the result is an acceptable node other than the current one (score >= threshold) with a positive score, at least every acceptable chord's score, and strictly above every earlier one's (first seen wins ties); no result exactly when no acceptable chord scores above zero, with improvement 0 |
| Greedy.StringArtGenerator.UpdateCoverage | string_art_generator.py:97-99 | each pixel's coverage becomes its old value after one capped increment per occurrence in the line |
| Greedy.SaturateClosedForm | string_art_generator.py:97-99 | n capped increments equal min(c + n, orig) |
| Greedy.SaturateBounds | string_art_generator.py:97-99 | starting at or below the cap, coverage never decreases and never passes orig |
| Greedy.SaturateOnce | string_art_generator.py:97-99 | a pixel with demand at most one is saturated by its first visit |
| Greedy.SaturateAdd | string_art_generator.py:97-99 | a passes followed by b passes equal a + b passes, so commits compose |
| Greedy.StringArtGenerator.CoveredByThen | string_art_generator.py:97-99 | commits compose: coverage that accounts for a second pixel sequence from an intermediate grid, itself the start grid after a first sequence, accounts for both sequences from the start grid |
| Greedy.StringArtGenerator.CommitChord | string_art_generator.py:97-99 | committing a chord extends the pixel sequence that the coverage accounts for |
| Greedy.StringArtGenerator.ChainedSnoc | string_art_generator.py:100-101 | appending a chord that leaves the current node keeps the path chained |
| Greedy.StringArtGenerator.Generate | string_art_generator.py:86-101 | at most max_lines chords, chained from nodes[0], each to a different node; stopping early means no acceptable chord improves anything; coverage is the capped count over all committed pixels; 0 <= coverage <= orig is preserved and coverage never decreases |
| Multiplicative.Mask | line_mask.py:14-18 | every mask cell is inside the grid, and cells already inside are unchanged |
| Multiplicative.StringArtGenerator.constructor | art_generator.py:17-23 | the canvas is all white (1.0) with the target's shape, and the sequence is empty |
| Multiplicative.StringArtGenerator.ChooseNext | art_generator.py:28-39 | no choice if and only if there are fewer than two pins; otherwise a pin other than the current one whose benefit is at least every other pin's and strictly above every lower index's |
| Multiplicative.StringArtGenerator.Darken | art_generator.py:42 | exactly the masked cells are multiplied by gamma, once each even when listed twice; every other cell is unchanged |
| Multiplicative.StringArtGenerator.Record | art_generator.py:41-43 | the move is appended to the sequence, and the canvas is its starting value darkened once per move whose mask holds the cell |
| Multiplicative.StringArtGenerator.Generate | art_generator.py:25-45 | fails (changing nothing) if and only if a move is due and either there are fewer than two pins or the start pin is past the last pin (IndexError); with no move due, any start pin returns the sequence unchanged; otherwise appends exactly max(iterations, 0) moves, chained from start_pin, each to a different pin, and leaves each cell darkened once per move whose mask holds it |
| Multiplicative.ChainSnoc | art_generator.py:43-44 | a move from the current pin to another pin keeps the moves chained and makes its target the current pin |
| Multiplicative.CellStep | art_generator.py:42 | darkening a cell once more corresponds to one more hit |
| Multiplicative.DarkenedBounds | art_generator.py:42 | a value in (0, 1] darkened by a factor in (0, 1] stays positive and does not grow |
| Multiplicative.StringArtGenerator.CanvasStaysInRange | art_generator.py:22-42 | with 0 < gamma <= 1, a canvas that started in (0, 1] stays in (0, 1] and no cell grows |
| StepDriver.Others | string_art_ui.py:204 | the fallback list holds exactly the nodes other than the current one |
| StepDriver.StringArtUI.constructor | string_art_ui.py:174-179 | a generator over the grey values with threshold 0 and the same line budget, the chosen start node, no line drawn |
| StepDriver.PickNext | string_art_ui.py:200-208 | the greedy best chord if one improves anything (the first node in order among those with the best score, as compute_best_line returns it), otherwise the pick-th other node; the line is that chord's rasterisation; nothing is chosen if and only if there is no other node |
| StepDriver.ChosenUnique | string_art_ui.py:200-204 | the step's choice is determined by the coverage and the random draw: two chosen nodes are the same node, even when chords tie for the best score |
| StepDriver.StringArtUI.StepGeneration | string_art_ui.py:198-221 | the chosen node (as PickNext chooses it) becomes current, one more line is counted, and coverage is its old value after the capped update along the chord; without another node it fails and changes nothing |
| StepDriver.StringArtUI.StepGenerationAsWritten | string_art_ui.py:198-210 | the step as written: after the choice, the call of the undefined update_coverage raises AttributeError (IndexError first when there is no other node), and no state changes |
| StepDriver.UpdateCoverageMissing | string_art_ui.py:210 | on two nodes of a 1 x 2 grid with a budget of one line, the step as written fails and draws no line, while the intended steps draw one |
| StepDriver.StringArtUI.StepAlong | string_art_ui.py:198-221 | one step extends the walk by the node it moves to, and coverage then accounts for the chords of the whole walk from the start grid |
| StepDriver.WalkSnoc | string_art_ui.py:220 | moving to a different node extends the walk |
| StepDriver.StringArtUI.Animate | string_art_ui.py:196-225 | max(max_lines, 1) steps, walking from the start node through nodes, each step to a different node, and coverage is its start value after the capped update along every chord of the walk; only the first step can fail, exactly when every node is the start node, and then nothing changes |
| StepDriver.StringArtUI.Run | string_art_ui.py:196-228 | the stepping, then the generator's own greedy loop with at most max_lines chords chained from nodes[0]; coverage ends as its start value after the capped update along the walk's chords and then the final loop's |

## Left out

- The logarithmic inversion `-log(clip(lum, 1e-3, 1))` (string_art_generator.py:28): logarithms of reals are not modelled. The model is the `use_log=False` path, which the driver uses.
- Rendering and saving the result and the timestamped file name (string_art_generator.py:103-129), and the `tqdm` progress bar (string_art_generator.py:2, 93): output only, with no effect on the chords.
- Cropping, pin placement on the circle (`NodeCircle`), image loading and the preview drawing in string_art_ui.py: pins and the grey grid are inputs here.
- `skimage.draw.line` is not part of this model. It is the parameter `draw` of the multiplicative generator, taken to be applied to the truncated pin coordinates; only the clamping of line_mask.py is modelled.
- Floating point: grey values, scores and the canvas are reals. Rounding, NaN and infinity are not modelled. The minus-infinity start of the best benefit is a missing choice.
- Randomness (`random.choice`) is an index argument: a fresh start pick and, per step, a pick reduced modulo the number of other nodes.
- Out-of-grid pins: the model requires every pin inside the grid. In NumPy a negative pixel coordinate wraps round to the far edge, and one at or past the width or height raises IndexError; neither is modelled.
- Multiplicative.StringArtGenerator.Generate: a negative `start_pin` with a move due and at least one pin is excluded. Python would index the list of pins from its end, and since `j == current` (art_generator.py:33) never holds for it, the start pin would be a candidate against itself.
- Greedy.StringArtGenerator.Generate: requires at least one node. With an empty node list the source raises IndexError at `self.nodes[0]` (string_art_generator.py:90), even when `max_lines` is zero or less; that error path is not modelled.
- StepDriver.StringArtUI.constructor: requires a start pick inside the node list. With no nodes at all, `random.choice` raises IndexError (string_art_ui.py:178); that error path is not modelled.
- Multiplicative.StringArtGenerator.Generate: requires a target of at least one row and one column. With an empty target, the mask is clipped to -1 (line_mask.py:16-17) and indexing the empty canvas raises IndexError as soon as a chord is scored; that error path is not modelled. ChooseNext and the canvas lemmas carry the same requirement.
- Greedy.StringArtGenerator.Generate: it does not restate each step's argmax; ComputeBestLine states it, and the loop commits exactly what ComputeBestLine returns.
- Multiplicative.StringArtGenerator.Generate: the same; ChooseNext states each step's argmax.
- Greedy.StringArtGenerator.BresenhamLine: no symmetry under swapping the end points is stated. The source does not promise it, and it does not hold: Greedy.ChordDirectional gives a pair of chords that differ.
- StepDriver.StringArtUI.Animate: it does not restate each step's choice against the coverage of that moment. StepGeneration states it (through PickNext's choice), and ChosenUnique shows that choice is determined; Animate states the walk and the cumulative coverage.
- StepDriver.StringArtUI.Run: the same for the steps; the final run's choices are stated by Greedy.StringArtGenerator.ComputeBestLine, as for Greedy.StringArtGenerator.Generate.
- The message box and the Tk event loop: user interface only.

## Findings

| source | as written | input that shows it | evidently intended | confidence | as-written member | corrected member |
|---|---|---|---|---|---|---|
| string_art_ui.py:210 | step_generation calls `self.generator.update_coverage(line)`, but StringArtGenerator defines no such method, so every step with another node to go to raises AttributeError: no chord is committed, `lines_drawn` stays 0 and nothing is rescheduled | two nodes (0, 0) and (1, 0) on a 1 x 2 grid, `max_lines` 1 | each step commits the chord with the capped update `coverage := min(coverage + 1, orig)` of string_art_generator.py:97-99, and exactly max(max_lines, 1) lines are drawn | not executed | StepDriver.StringArtUI.StepGenerationAsWritten, StepDriver.UpdateCoverageMissing | StepDriver.StringArtUI.StepGeneration |
