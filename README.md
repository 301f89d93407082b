# Sierpiński carpet animation — a Dafny model

This project models the computational core of the Sierpiński carpet animation generator:

- the **carpet rasteriser** `create_sierpinski_carpet`, which fills a `size × size` grid of 1s (filled) and 0s (empty) for a given recursion order;
- the **frame synthesiser**: the frame count, the carpet series precomputed for orders `0..max_order`, and the per-frame rule of `animate`, which dissolves the carpet of one order into the next under a random mask;
- the integer **progress percentages** reported while carpets and frames are produced;
- the GUI's **power-of-three size selector** `PowerOfThreeSpinBox`: its list of allowed sizes, its initial value, `stepBy`, `validate`, `valueFromText` and `textFromValue`.

Modules:

- `Arith` (`arith.dfy`): `Pow3` and facts about integer division.
- `Carpet` (`carpet.dfy`): the cell rule `Cell`, its characterisation by base-3 digits, monotonic nesting, worked cases, and the in-place generator `CreateSierpinskiCarpet` on an `array2<int>`.
- `Animation` (`animation.dfy`): `TotalFrames`, `CurrentOrder`, `NextOrder`, the frame specification `FrameCell` and its properties, the progress formulas, and the methods `PrecomputeCarpets`, `Animate` and `CreateFrames`.
- `Decimal` (`decimal.dfy`): Python's `str` on integers, and a parser for its canonical output.
- `SpinBox` (`spin_box.dfy`): the allowed sizes, the step rule, and the class `PowerOfThreeSpinBox`.
- `Wrappers` (`wrappers.dfy`): `Option`.

Modelling decisions:

- The random mask `np.random.random(...) < blend_factor` becomes a caller-supplied boolean grid. Its probability is not modelled.
- The test `blend_factor > 0` is exactly `f % frames_per_order != 0`, because `blend_factor = (f % P) / P` with `P ≥ 1`. The model uses that test, so no floating point is needed.
- `int(30 * (order + 1) / (max_order + 1))` and `int(60 * frame / total_frames)` take non-negative operands. Truncating the correctly rounded float quotient equals integer floor division while the numerator stays below 2^52. Every run from the GUI stays far below that: it caps the maximum order and the frames per order at 1000 (main_gui.py:94, 110), so `60 * frame` stays below about 6·10^7. The model uses `/` on `nat`.
- When the current order is `max_order`, the source uses `carpets[max_order]` itself as the frame, with no copy. `Animate` returns that same array. Every other frame is a fresh copy of the current carpet, changed in place by the masked assignment.
- Python's `int(text)` is a parameter `parse: string -> Option<int>`, where `None` stands for `ValueError`. The round-trip lemmas hold for any parser that inverts the decimal formatting. `Decimal.ParseDecimal` is one such parser.

The generator tests the least significant base-3 digit first (main_cli.py:30-39). Order k therefore removes the centres of the k finest levels, not the k coarsest as in the textbook construction:

- Order 1 empties every cell whose coordinates are both 1 mod 3.
- On a 9 × 9 grid, order 1 therefore empties nine single cells: (1,1), (1,4), …, (7,7). The textbook first iteration would instead empty the centre 3 × 3 block.
- `Carpet.SizeNineOrderOne` proves this. For example, cell (3, 3) stays filled at order 1.
- Once all digits are used, the carpet is the standard one. On a 9 × 9 grid, order 2 has the centre block plus eight sub-block centres, 17 holes in all (`Carpet.SizeNineOrderTwo`).
- `Carpet.OrdersBeyondResolutionAgree` proves that on a `3^n` grid every order from `n` on draws the same carpet.

## Model

| member | source | states |
|---|---|---|
| `Carpet.Cell` | main_cli.py:27-39 | every cell is 0 or 1; cell (i, j) is 0 exactly when some level k < order has base-3 digit k of both i and j equal to 1 |
| `Carpet.InHole` | main_cli.py:30-39 | the per-cell loop as recursion: zero rounds never find a hole, and a cell with both coordinates 1 mod 3 is a hole at every positive order; `InHoleIffCentreDigit` gives the full rule |
| `Carpet.InHoleIffCentreDigit` | main_cli.py:30-39 | the loop's test (both coordinates 1 mod 3 within `order` rounds of dividing by 3) is equivalent to the base-3 digit rule |
| `Carpet.CreateSierpinskiCarpet` | main_cli.py:9-41 | the returned grid is `size × size` and each cell equals `Cell(order, i, j)`; order 0 returns the all-ones grid before any loop |
| `Carpet.OrderZeroFilled` | main_cli.py:20-25 | at order 0 every cell is 1 |
| `Carpet.InHoleMonotone` | main_cli.py:31-35 | a hole found within n rounds is found within any m ≥ n rounds |
| `Carpet.NestedOrders` | main_cli.py:27-39 | monotonic nesting: for k ≤ m, a cell's value at order m is at most its value at order k, so holes are never filled again |
| `Carpet.ChangeIsRemoval` | main_cli.py:111 | a cell differs between orders k and k+1 exactly when it is 1 at k and 0 at k+1 |
| `Carpet.NoHoleBeyondResolution` | main_cli.py:31-39 | for coordinates below 3^n, testing more than n rounds finds a hole exactly when n rounds do |
| `Carpet.OrdersBeyondResolutionAgree` | main_cli.py:15-18 | on a grid of side 3^n, the carpet of any order ≥ n equals the carpet of order n |
| `Carpet.OrderOnePattern` | main_cli.py:31-35 | at order 1, a cell is empty exactly when both coordinates are 1 mod 3 |
| `Carpet.SizeThreeOrderOne` | main_cli.py:27-39 | on a 3 × 3 grid, order 1 empties only cell (1, 1) |
| `Carpet.SizeNineOrderOne` | main_cli.py:27-39 | on a 9 × 9 grid, order 1 has 9 holes; (4, 4) and (1, 7) are empty and (3, 3) is filled |
| `Carpet.SizeNineOrderTwo` | main_cli.py:27-39 | on a 9 × 9 grid, order 2 empties exactly the centre block and the cells with both coordinates 1 mod 3, 17 in all |
| `Animation.TotalFrames` | main_cli.py:61 | `max_order * P + P` frames is `(max_order + 1) * P` |
| `Animation.CurrentOrder` | main_cli.py:95 | the current order never exceeds `max_order` |
| `Animation.NextOrder` | main_cli.py:96 | the next order never exceeds `max_order` |
| `Animation.OrdersInRange` | main_cli.py:95-96 | current ≤ next ≤ max_order, next ≤ current + 1, and next = current exactly at max_order |
| `Animation.CurrentOrderWithinRun` | main_cli.py:61-95 | for every frame f < total_frames, the clamp is inactive: the current order is f / P |
| `Animation.TerminalWindow` | main_cli.py:95-99 | the current order is max_order exactly for frames f ≥ max_order * P |
| `Animation.FrameCell` | main_cli.py:93-117 | each frame cell is 0 or 1 and lies between the next carpet's and the current carpet's value |
| `Animation.FinalFramesHoldDeepestCarpet` | main_cli.py:99-101 | from frame max_order * P on, every frame equals carpet max_order, whatever the mask, so the last P frames are all equal |
| `Animation.WindowStartShowsCurrentCarpet` | main_cli.py:97-114 | when f % P == 0 (blend factor 0), the frame equals the current order's carpet |
| `Animation.FirstFrameSolid` | main_cli.py:93-114 | frame 0 is all 1s |
| `Animation.UnchangingCellsKeepCurrentValue` | main_cli.py:108-117 | cells outside the changing set keep the current carpet's value |
| `Animation.DissolvingCell` | main_cli.py:111-117 | a changing cell goes from 1 to 0; in a blending frame below max_order it is 0 exactly where the mask is set |
| `Animation.DissolveNotCumulative` | main_cli.py:113-117 | the dissolve is recomputed per frame: a changing cell emptied at frame f by a set mask is filled at frame f+1 of the same window when that mask is clear |
| `Animation.FlickerExample` | main_cli.py:113-117 | with max_order 1 and P 3, the centre cell is 0 in frame 1 and 1 again in frame 2 |
| `Animation.GenerationProgress` | main_cli.py:86 | for every order up to max_order the value is at most 30, and it is exactly 30 at max_order |
| `Animation.GenerationProgressBounds` | main_cli.py:86 | generation progress never decreases with the order, stays at most 30, and is 30 after the last order |
| `Animation.FrameProgress` | main_cli.py:124 | for every frame f < total_frames the value lies in 30..89 |
| `Animation.FrameProgressBounds` | main_cli.py:124 | for f < total_frames, frame progress lies in 30..89 and never decreases with f |
| `Animation.PrecomputeCarpets` | main_cli.py:79-88 | returns one carpet per order 0..max_order, carpet k of order k; the progress values are non-decreasing, at most 30, and end at 30 |
| `Animation.CopyGrid` | main_cli.py:108 | a fresh grid with the same dimensions and cells as the source grid |
| `Animation.ApplyDissolve` | main_cli.py:111-117 | a cell that differs between current and next with the mask set takes next's value; every other cell keeps its value |
| `Animation.Animate` | main_cli.py:93-117 | the frame is `FrameCell` at every cell; at max_order it is the deepest carpet array itself, below max_order a fresh array |
| `Animation.CreateFrames` | main_cli.py:79-134 | exactly (max_order+1)·P frames, frame f built by the per-frame rule with mask f; the progress values are the generation values, then values in 30..89 |
| `Decimal.NatTextRoundTrip` | main_gui.py:70-71 | reading back the decimal digits of n gives n |
| `Decimal.IntText` | main_gui.py:71 | `str` of an int is non-empty, starts with '-' exactly for negatives, and is digits after the sign; `IntTextRoundTrip` gives its inverse |
| `Decimal.IntTextRoundTrip` | main_gui.py:70-71 | `ParseDecimal` inverts Python's `str` on every integer |
| `SpinBox.AllowedSizesListed` | main_gui.py:33 | the allowed sizes are exactly 3, 9, …, 59049 (3^n, n in 1..10), strictly increasing |
| `SpinBox.AllowedSizes` | main_gui.py:33-34 | ten entries from 3 to 59049, the bounds `setRange` takes; `AllowedSizesListed` gives every entry |
| `SpinBox.InitialValueAsWritten` | main_gui.py:35 | entry 7 of the list, which the source uses as the default, is 6561, not 3^7 |
| `SpinBox.PowerOfThreeSpinBox.constructor` | main_gui.py:31-35 | a new widget holds an allowed size, 3^7 = 2187 (corrected: see Findings) |
| `SpinBox.IndexOf` | main_gui.py:44-46 | None exactly when the value is not in the list; otherwise the first index holding it |
| `SpinBox.Clamp` | main_gui.py:47 | the result lies in [lo, hi]: it is lo when x < lo, hi when x > hi, and x otherwise |
| `SpinBox.Stepped` | main_gui.py:41-48 | the value after stepBy is always an allowed size |
| `SpinBox.SteppedFromListed` | main_gui.py:43-47 | from entry idx, stepBy lands on entry max(0, min(idx + steps, 9)) |
| `SpinBox.SteppedFromUnlisted` | main_gui.py:45-47 | an unlisted value counts as index 0, so the result is entry max(0, min(steps, 9)) |
| `SpinBox.SteppingUpFromTopStays` | main_gui.py:47 | stepping up from 59049 keeps 59049 |
| `SpinBox.SteppingDownFromBottomStays` | main_gui.py:47 | stepping down from 3 keeps 3 |
| `SpinBox.StepUpThenDown` | main_gui.py:41-48 | below the largest size, one step up then one step down returns to the start |
| `SpinBox.PowerOfThreeSpinBox.StepBy` | main_gui.py:41-48 | the new value is `Stepped(old value, steps)` and is an allowed size, whatever the old value was |
| `SpinBox.PowerOfThreeSpinBox.Validate` | main_gui.py:50-58 | Invalid exactly when the text does not parse; Acceptable exactly when it parses to an allowed size; otherwise Intermediate; text and position are returned unchanged |
| `SpinBox.PowerOfThreeSpinBox.ValueFromText` | main_gui.py:60-68 | the result is the parsed size whenever the text parses to an allowed size, otherwise the current value; so it is allowed whenever the widget's value is |
| `SpinBox.PowerOfThreeSpinBox.TextFromValue` | main_gui.py:70-71 | the text parses back to the value |
| `SpinBox.PowerOfThreeSpinBox.ValueFromTextAgreesWithValidate` | main_gui.py:50-68 | the parsed integer is taken exactly when validation says Acceptable; otherwise the current value is kept |
| `SpinBox.PowerOfThreeSpinBox.TextRoundTrip` | main_gui.py:60-71 | for an allowed v and a parser that inverts the formatting, valueFromText(textFromValue(v)) = v and the text validates as Acceptable |
| `SpinBox.PowerOfThreeSpinBox.DecimalTextRoundTrip` | main_gui.py:60-71 | the round trip holds with the decimal parser |

## Findings

| source | as written | input that shows it | evidently intended | confidence | as-written member | corrected member |
|---|---|---|---|---|---|---|
| main_gui.py:35 | `setValue(allowed_sizes[7])`; entry 7 of `[3**n for n in range(1, 11)]` is 3^8 = 6561 | constructing the widget: its initial value is 6561 | the default 2187 = 3^7 that the line's comment names, which is also the command-line size, i.e. entry 6 | high (not executed) | `SpinBox.InitialValueAsWritten` | `SpinBox.PowerOfThreeSpinBox.constructor` |

## Left out

- Rendering is not modelled: the figure and axes, `imshow`, `img.set_data`, and `FuncAnimation`'s timing and blitting. They are calls into a plotting library.
- `CreateFrames` takes one `animate` call per frame, in order 0..total_frames−1. Any extra calls the plotting library makes are not modelled.
- Saving is not modelled: MP4 through ffmpeg, the fallback to GIF through Pillow, `save_error`, `plt.close`, and the final progress value of 100 that follows saving. This is file I/O through foreign libraries.
- All `print` output is left out. It is console I/O.
- Callbacks are not modelled as effects. The phase labels and previews are omitted. The progress values are returned as sequences instead of being passed to `progress_callback`.
- The probability of the random mask (`np.random.random` compared with `blend_factor`) is not modelled. It is randomness and floating point. The mask is an input.
- `Animate`: its requires `framesPerOrder ≥ 1` reflects that the source raises `ZeroDivisionError` for P = 0. The run never calls `animate` then, because it has zero frames, and `CreateFrames` accepts P = 0.
- The default arguments `size=243` (main_cli.py:9) and `max_order=6, frames_per_order=15, size=729` (main_cli.py:45-47) are not modelled: every call site passes these values explicitly (main_cli.py:82, 189-197; main_gui.py:247-257, which receives them from main_gui.py:188-194).
- Float rounding of the two progress quotients for numerators of 2^52 or more is not modelled. There `int(a / b)` can exceed `a // b`, for example `int((10**17 - 1) / 10**17)` is 1.
- Sizes and orders are `nat`. Python's behaviour on negative values, such as `np.ones` failing for a negative size, is not modelled.
- The `__main__` blocks with hard-coded parameters are not modelled. They are program entry points.
- The rest of the GUI is not modelled: `SierpinskiGUI`, `AnimationWorker` and its thread and signals, and `keyPressEvent` and `setKeyboardTracking`. They are UI and threading glue.
- The Qt base class is reduced to the one `value` field. `setRange` is not modelled separately, because every value the widget sets lies in the list and hence in the range.
- Python `int(text)` details are not modelled: whitespace, a `+` sign, underscores, and the other forms `int` accepts. `parse` is a parameter. `Decimal.ParseDecimal` covers only an optional minus sign followed by digits.
