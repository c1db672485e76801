# Setonova hra — a verified model of the game-session engine

Setonova hra ("Seton's game") is a memory game written with Bevy and egui. The player sets
a board size, a number of black and of white stones, and a time. The program then shows a
random board for that long. The player rebuilds it on an empty board: the left button
places black stones and the right button white ones. The program then scores the rebuilt
board against the original.

This project models the engine behind that game in Dafny and proves its properties. It is
split into six modules:

- `Grids` (`grids.dfy`): boards as `seq<seq<int>>` over {-1, 0, 1}. Here 1 is black, -1 is
  white and 0 is empty. A cell (i, j) is array row i and array column j. On screen, array
  row i is the i-th column from the left and array column j the j-th row from the bottom.
  - `Cells` views an `array2<int>` as such a board, `Write` replaces one cell and `Product`
    multiplies two boards cell by cell.
  - `BlackCount`, `WhiteCount` and `StoneCount` count stones.
  - The lemmas say how these sums change under a write and how they compare cell by cell.
- `Generator` (`generator.dfy`): `sample_stone_coords`.
  - The random draw is an input. `picks` gives, for each square `choose_multiple` returned,
    its position in the enumeration of the squares.
  - `Placed` is the specification of the writing loop.
  - `SampleStoneCoords` is the imperative loop over an `array2`, proved equal to `Drawn`.
- `Placement` (`placement.dfy`): what one click does to one cell.
  - `Cycle` is the proposed next value and `Resolve` is the fall-back enforced by the two caps.
  - `Toggle` is the board after the click.
- `Scoring` (`scoring.dfy`): the "Hotovo" (done) evaluation.
  - The two counts come from the element-wise product.
  - The wrong-position count is a subtraction of natural numbers.
  - The percentage is a `real`.
- `HitMapper` (`hitmapper.dfy`): from the screen cursor to the board cell under it.
  - Cursor positions start at the window's top-left corner with y running down. Bevy's world
    coordinates, in which the boards are drawn, start at the window's centre with y running up.
  - `HitTestAsWritten` is the source's formula and `HitTest` the corrected one that the game
    model uses (see "## Findings"). The two agree in the landscape layout
    (`HitMapper.LandscapeAgrees`).
- `Seton` (`seton.dfy`): the `SetonGame` class, a field for every field of the Rust
  `SetonGame` plus the Bevy `AppState`.
  - Its boards are `array2<int>`.
  - Its methods are the user actions: Start, one frame of memorising including "Už vím"
    ("I know it"), a mouse event, "Hotovo" and the four sliders.
  - `Valid()` is the session invariant. The configuration always lies in the slider ranges.
    During a round (outside Results), the boards have the configured size, the truth board
    holds exactly the requested stones and the solution stays within both caps. While
    memorising, the solution is empty.

States: Results (initial) --Start--> Memorizing --time up or "Už vím"--> Solving
--"Hotovo"--> Results.

Behaviour of the code worth knowing:

- A click on a stone of the button's own colour flips it to the other colour
  (src/main.rs:298-299). One button therefore cycles a cell 0 → s → −s → 0.
- The second array index is flipped: `j = size - floor(j) - 1` (src/main.rs:289). Array column
  j is drawn j screen rows from the bottom, while the cursor's y runs down.
- When the board is too small for all the stones, black stones take priority. The split is
  deterministic (src/main.rs:65).
- The board-size slider ranges over 5..=10 (src/main.rs:200).
- There is no separate settings state. The sliders belong to Results (src/main.rs:198-209).
- Five black and five white stones fill ten of the 25 cells of a 5 by 5 board
  (`Generator.GeneratedBoard`).
- When both caps are full, a click on a black stone clears it. The proposed white is
  redirected to black and then to empty (src/main.rs:305-313; `Placement.ResolveFacts`).

## Model

| member | source | states |
|---|---|---|
| Grids.NewZeros | src/main.rs:56 | the array returned is fresh, n by n, and holds 0 in every cell, so it has no black and no white stone |
| Grids.Store | src/main.rs:65 | the array's contents become the old board with exactly cell (i, j) replaced by v |
| Grids.StonesAreBlackOrWhite | src/main.rs:303-304 | on a board over {-1, 0, 1}, the stones are exactly the black ones plus the white ones |
| Grids.BlackCount | src/main.rs:303 | definition, no contract: the number of cells holding 1; its change under a write is `Grids.GridSumWrite` |
| Grids.WhiteCount | src/main.rs:304 | definition, no contract: the number of cells holding -1; its change under a write is `Grids.GridSumWrite` |
| Grids.GridSumWrite | src/main.rs:303-304 | after one write, a count equals the old count minus the old cell's term plus the new value's term |
| Generator.EnumerateSquares | src/main.rs:50-55 | the nested loops build exactly `Squares(n)`, all n·n squares row by row |
| Generator.SquaresUpToOrdered | src/main.rs:50-55 | the enumeration is strictly increasing in row-major order |
| Generator.SquaresComplete | src/main.rs:50-55 | the enumeration has no repeats and contains every square of the board |
| Generator.StonesToPlace | src/main.rs:61 | the number drawn is `Generator.Min(nb+nw, n·n)`: at most both and equal to one of them |
| Generator.ChosenFacts | src/main.rs:58-62 | distinct positions in the enumeration name distinct squares |
| Generator.Colour | src/main.rs:65 | definition, no contract: 1 for the first nb squares returned and -1 after them; see `Generator.PlacedAt` |
| Generator.ChosenDistinct | src/main.rs:58-62 | distinct positions in a list without repeats name distinct squares, so `choose_multiple` returns no square twice |
| Generator.Placed | src/main.rs:56-66 | the board after writing the given squares in order is n by n; its contents are given by `Generator.PlacedAt`, `Generator.PlacedOutside` and `Generator.PlacedCounts` |
| Generator.Drawn | src/main.rs:45-68 | definition, no contract: the board `Placed` builds from `Chosen`, the squares at the drawn positions of the enumeration; its contents are `Generator.DrawnSquares` |
| Generator.PlacedOutside | src/main.rs:56-67 | a square never chosen stays 0 |
| Generator.PlacedAt | src/main.rs:63-65 | the k-th chosen square holds 1 when k < nb and -1 otherwise |
| Generator.PlacedCounts | src/main.rs:63-65 | m distinct squares give min(nb, m) black stones, m - min(nb, m) white stones, m stones in all, and every cell in range |
| Generator.GeneratedBoard | src/main.rs:45-68 | a valid draw gives k = min(nb+nw, n·n) stones, min(nb, k) of them black and the rest white; black takes priority when the board is too small |
| Generator.DrawnSquares | src/main.rs:56-67 | square by square: the k-th returned square holds its colour and every square not returned is empty |
| Generator.Min | src/main.rs:61 | `usize::min`: the result is at most both arguments and equal to one of them |
| Generator.NoShortfallExactCounts | src/main.rs:61-65 | when nb+nw ≤ n·n, each colour gets exactly the requested number of stones |
| Generator.SampleStoneCoords | src/main.rs:45-68 | the array returned is n by n and equals `Drawn(n, nb, picks)`, with the counts of `GeneratedBoard` |
| Placement.Cycle | src/main.rs:296-302 | on a cell value and a button sign, the proposed value is again a cell value and differs from the old one |
| Placement.Resolve | src/main.rs:305-313 | the value after the cap fix-ups is the proposed value, its opposite, or 0 |
| Placement.WriteAllowed | src/main.rs:314-316 | definition, no contract: the guard of the write; `Placement.GuardAlwaysHolds` shows it always holds |
| Placement.Toggle | src/main.rs:290-317 | definition, no contract: the board with the clicked cell set to `Resolve` of `Cycle`; its properties are `Placement.ToggleRespectsCaps`, `Placement.ClickWithRoom` and `Placement.ThreeClicksRestore` |
| Placement.CycleOrbit | src/main.rs:296-302 | one button maps 0 → s → −s → 0, so three proposals restore any cell value |
| Placement.ResolveFacts | src/main.rs:305-313 | the value written is in {-1, 0, 1}; 1 only if black < nb; -1 only if white < nw; the proposed colour is kept whenever it has room; 0 only if 0 was proposed or both caps are full |
| Placement.GuardAlwaysHolds | src/main.rs:314-316 | after the cap fix-ups the guard is always true, so the write always happens |
| Placement.ToggleRespectsCaps | src/main.rs:303-317 | from a board within both caps, a click keeps the shape, the cell range and both caps, and changes no cell but (i, j) |
| Placement.ClickWithRoom | src/main.rs:290-317 | with room for either colour outside the cell, a click writes exactly the proposed value and keeps the counts outside the cell |
| Placement.ThreeClicksRestore | src/main.rs:291-302 | with room for either colour outside the cell, three clicks of one button restore the board |
| Scoring.Correct | src/main.rs:181 | definition, no contract: `correct_2`, the sum of the positive parts of `Grids.Product`, the element-wise product at src/main.rs:181; what it counts is `Scoring.TallyCounts` |
| Scoring.WrongColour | src/main.rs:182 | definition, no contract: `correct_1`, the sum of the negative parts of `Grids.Product`; what it counts is `Scoring.TallyCounts` |
| Scoring.Evaluate | src/main.rs:185-193 | the score holds the two counts; the three counts sum to nb+nw; the percentage lies in [0, 1], is 1 exactly when all stones are correct, and is 0 exactly when nothing is correct or of the wrong colour |
| Scoring.TallyCounts | src/main.rs:177-184 | a product of +1 is a stone of the right colour, -1 a stone of the wrong colour; `correct` counts the +1 cells and `wrong_color` the -1 cells |
| Scoring.TallyBound | src/main.rs:181-182 | correct + wrong colour never exceeds the number of truth stones |
| Scoring.NoUnderflow | src/main.rs:187-189 | when the truth holds at most nb+nw stones, the `usize` subtraction for the wrong-position count cannot underflow |
| Scoring.TallyFitsInI8 | src/main.rs:181-182 | on a board of at most 10 by 10, both `i8` sums stay at most 127 |
| Scoring.IdenticalSolution | src/main.rs:177-186 | rebuilding the truth exactly gives correct = number of truth stones and wrong colour = 0 |
| Scoring.IdenticalScoresFull | src/main.rs:177-193 | a truth holding all nb+nw stones, rebuilt exactly, scores (nb+nw, 0, 0, 1.0) |
| Scoring.EmptySolution | src/main.rs:177-193 | an empty solution scores (0, 0, nb+nw, 0.0) |
| Scoring.SwappedSolution | src/main.rs:177-186 | swapping every colour of the truth gives correct = 0 and wrong colour = number of truth stones |
| HitMapper.Fractional | src/main.rs:283-286 | definition, no contract: the fractional cell coordinate along one axis |
| HitMapper.CellIndex | src/main.rs:287-289 | a cell is hit exactly when both fractional coordinates lie in [0, size), and its indices are then below size |
| HitMapper.HitTestAsWritten | src/main.rs:283-289 | definition, no contract: the source's hit test, which subtracts the world offset `origin.y` from a cursor y that runs downward; see `HitMapper.PortraitHitsTruthBoard` |
| HitMapper.HitTest | src/main.rs:283-289 | definition, no contract: the hit test with `origin.y` converted to cursor coordinates; its properties are the lemmas below |
| HitMapper.ScreenPoint | src/main.rs:377-378 | definition, no contract: where a world point appears in cursor coordinates |
| HitMapper.BoardCentre | src/main.rs:363 | definition, no contract: the centre of the solution board in cursor coordinates |
| HitMapper.DrawnCellCentre | src/main.rs:343-378 | definition, no contract: where `spawn_board` draws the centre of cell (i, j), in cursor coordinates |
| HitMapper.RealMin | src/main.rs:430 | `f32::min`: the result is at most both arguments and equal to one of them |
| HitMapper.SolutionView | src/main.rs:425-440 | definition, no contract: the `Board` resource `spawn_source` leaves during a round, with the solution board below the centre in portrait and right of it in landscape |
| HitMapper.HitIndicesInRange | src/main.rs:283-290 | a hit names array row floor(fi), from the cursor's x, and array column size - 1 - floor(fj), from its y, both in [0, size), so the array access is in bounds |
| HitMapper.AxisCovered | src/main.rs:283-287 | along one axis, a hit occurs exactly on the half-open interval of width `board_side` centred on 0.5·window + offset in cursor coordinates |
| HitMapper.HitIffOnBoard | src/main.rs:283-287 | a click hits a cell exactly when the cursor lies in the square of side `board_side` centred on the solution board's centre in cursor coordinates |
| HitMapper.CentreHitsCentreCell | src/main.rs:283-289 | on an odd-sized board the cursor at the solution board's centre in cursor coordinates hits the centre cell |
| HitMapper.CellCentreFraction | src/main.rs:343-344 | the drawn centre of the k-th cell along an axis lies strictly inside the k-th hit interval, and strictly inside the (size - 1 - k)-th one when mirrored |
| HitMapper.CellCentreHitsCell | src/main.rs:283-289 | with the corrected hit test, the cursor at the drawn centre of any cell (i, j) hits exactly (i, j), in either layout |
| HitMapper.LandscapeAgrees | src/main.rs:427-440 | in the landscape layout the source's hit test and the corrected one give the same result for every cursor |
| HitMapper.PortraitHitsTruthBoard | src/main.rs:285-289 | in a 400 by 1000 window the source's hit test misses the centre of the drawn solution board and maps the centre of the truth board above it to cell (2, 2) |
| Seton.Clamp | src/main.rs:200-208 | a slider value lies in its range, equals the requested value inside the range and the nearer end outside it |
| Seton.ProgressLeft | src/main.rs:162-163 | definition, no contract: `progress_left`; when it reaches 0 is `Seton.TimeUpIff` |
| Seton.TimeUpIff | src/main.rs:162-170 | `progress_left <= 0` exactly when `time_seconds` have passed since the start |
| Seton.SlidersNeverOversupply | src/main.rs:61 | within the slider ranges the board always has room for every stone, so the generator never clamps |
| Seton.AfterMouse | src/main.rs:281-317 | definition, no contract: the solution board after one mouse event, toggled at the hit cell on a button press and unchanged otherwise |
| Seton.PlaceStone | src/main.rs:290-317 | the imperative if-chain and guarded write leave the solution array equal to `Toggle` of its old contents |
| Seton.Click | src/main.rs:281-322 | on a button press the cell under the cursor is toggled, otherwise nothing changes; the caps and the cell range survive |
| Seton.SetonGame.Valid | src/main.rs:19-30 | definition, no contract: the session invariant, kept by every method of the class |
| Seton.SetonGame.constructor | src/main.rs:69-90 | `SetonGame::default()`: state Results, board 5, 5 + 5 stones, 30 s, score (0, 0, 10, 0.0), two empty 5 by 5 boards, and the invariant holds |
| Seton.SetonGame.Start | src/main.rs:149-159 | only in Results: a fresh truth board equal to the generator's board for the draw, a fresh empty solution, the start time, state Memorizing; in any other state nothing changes |
| Seton.SetonGame.Memorize | src/main.rs:160-170 | in Memorizing the state becomes Solving exactly when "Už vím" was pressed or the time is up; otherwise it is kept |
| Seton.SetonGame.MouseMove | src/main.rs:115 | only in Solving: the cursor follows the last motion and the solution becomes `AfterMouse` of the old one; the truth never changes, and outside Solving nothing changes |
| Seton.SetonGame.Done | src/main.rs:176-196 | only in Solving: the score is `Evaluate` of the two boards (its subtraction cannot underflow), `games_played` grows by exactly one, state Results; otherwise nothing changes |
| Seton.SetonGame.Slide | src/main.rs:198-209 | only in Results a slider sets its field to the value clamped to its range; every other field keeps its value |
| Seton.EmptyRound | src/main.rs:149-196 | Start, "Už vím" and "Hotovo" with no stone placed leave the session valid in Results, with the score (0, 0, nb+nw, 0.0) |
| Seton.PerfectRound | src/main.rs:177-193 | rebuilding a truth board with nb black and nw white stones scores (nb+nw, 0, 0, 1.0) |

## Findings

| source | as written | input that shows it | evidently intended | confidence | as-written member | corrected member |
|---|---|---|---|---|---|---|
| src/main.rs:285-286 | the coordinate `j`, taken from the cursor's y, subtracts `view.origin.y`, a world offset with y running up, from a cursor y that runs down | a 400 by 1000 window (portrait) with a 5 by 5 board: the cursor at the centre of the drawn solution board, (200, 699.5), hits nothing, and the cursor at (200, 300.5), the centre of the hidden truth board, hits cell (2, 2) | add `origin.y` instead, so the cursor over the drawn centre of a cell hits that cell | medium, not executed | HitMapper.HitTestAsWritten, HitMapper.PortraitHitsTruthBoard | HitMapper.HitTest, HitMapper.CellCentreHitsCell |

## Left out

- Rendering and the egui plumbing are not modelled: `main`, `setup`, the panel drawing,
  the fullscreen toggle, the score labels and their rounding (src/main.rs:92-147, 212-229),
  `redraw_system`, `resized_redraw_system`, `spawn_board` and `spawn_source`
  (src/main.rs:232-266, 326-472). They draw the session and do not change it.
- The random number generator inside `choose_multiple` is not modelled. The draw is the
  parameter `picks`. `Generator.ValidPicks` states what `choose_multiple` guarantees:
  the right number of distinct positions within the enumeration.
- The clock and the input events are parameters: `now` for `time.elapsed_secs_f64()`,
  `motion` for the last `CursorMoved` event, and the two button flags. The screen geometry
  of the `Board` resource is the parameter `view`.
- The `view` a mouse event receives is taken as given. It is compared with `spawn_source`'s
  layout only in the hit-test lemmas (`HitMapper.SolutionView`).
- Seton.Click and Seton.SetonGame.MouseMove use the corrected `HitMapper.HitTest`. In the
  portrait layout the source's click lands elsewhere (see "## Findings"); in the landscape
  layout the two agree (`HitMapper.LandscapeAgrees`).
- Only cell centres are related to the drawing (`HitMapper.CellCentreHitsCell`). The hit
  cells are `board_side / size` wide, but the drawn squares are `board_side / (size + 0.05)`
  apart, so near the edges of a cell the two differ slightly. This is not modelled.
- `f32`/`f64` arithmetic is modelled as `real`. Rounding in the percentage, the countdown
  and the cursor maths is not modelled.
  - With a board side of 0 the `f32` quotient is infinite or NaN, so both bounds checks
    fail. `HitMapper.HitTest` returns no hit in that case.
- Bevy applies a `NextState` change one frame later, and the order of systems within a frame
  is not modelled. In the model, each state change takes effect at once.
  - In the frame where Start is clicked the sliders are still drawn. A slider moved in that
    same frame would change the configuration after the board was drawn. The model does not
    allow this.
- Seton.SetonGame.Start: requires a draw of exactly nb + nw squares. That is
  `usize::min(nb + nw, n·n)` within the slider ranges (`Seton.SlidersNeverOversupply`).
  The generator itself also covers the clamped case (`Generator.SampleStoneCoords`).
- Scoring.Evaluate: requires correct + wrong colour ≤ nb + nw and nb + nw > 0. Outside these
  cases the source's `usize` subtraction panics or wraps and its `f32` division gives NaN.
  The session invariant excludes both: see `Scoring.NoUnderflow` and `Seton.SetonGame.Done`.
- Slider drags are modelled one value at a time by `Seton.SetonGame.Slide`. egui's
  dragging and keyboard handling are not modelled.
- The redraw that follows a write in `mouse_move` (src/main.rs:318) is rendering and is
  not modelled.
