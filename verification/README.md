# Breakout chamber core in Dafny

A Dafny model of the game core of `breakout.c`, a WebAssembly "chamber" in which balls
knock bricks out of a 9 x 12 grid. The model covers the following:

- **Grid** (`grid.dfy`): the packed brick store. Each cell has two flags (`destroyed`
  and `needs_erasing`). They are packed two bits per cell, four cells per byte, into the
  `brick_save` array of the `SaveState` record. The module also covers `get_brick`,
  `set_brick`, `reset_bricks` and the state part of `init`.
- **Codec** (`codec.dfy`): `saveSize`, `save` and `load`. They copy the whole
  `SaveState` between the simulation and the renderer. On the wasm32 target this is
  three little-endian 32-bit counters, then the bytes, then padding up to a multiple of
  four bytes.
- **Collision** (`collision.dfy`): `apply_brick_collision`. It is an edge-crossing test
  between a ball's box, inflated by its radius, and one brick, and it negates a velocity
  component for each crossed edge.
- **Colors** (`colors.dfy`): the five brick colouring patterns and `get_color_for_brick`.
- **Step** (`step.dfy`): `step`. Each ball's predicted cell is clamped into the grid's
  interior. The ball then scans the 3 x 3 neighbourhood in source order and destroys the
  first live brick it strikes. After all balls, an empty grid is cleared once and the
  next colour pattern is selected.
- **Render** (`render.dfy`): `render_brick` and `render`. `render` decides between two
  paths:
  - a full repaint, when the flag is set or the game counter has moved;
  - otherwise, blanking the cells flagged for erasing.

The central invariant is `Grid.Consistent`:

- `bricks_count` equals the number of live cells;
- the colour index is a valid table index;
- only destroyed cells are flagged for erasing.

`init` establishes this invariant. `step`, `save`/`load` and the corrected `render`
preserve it.

Target assumptions:

- The target is wasm32, where `size_t` is 32 bits wide. `size_t` arithmetic (counter
  increments and decrements, the subtraction in `sphere_colors`) wraps modulo 2^32, and
  the model writes that wrap-around out.
- Bytes are `bv8` and pixels are `bv32`.
- Ball coordinates are reals.

## Model

| member | source | states |
|---|---|---|
| Grid.CellIndex | breakout.c:132 | the row-major index of an on-grid cell is below 108, and its column and row are recovered from it by `% 9` and `/ 9` |
| Grid.ByteIndex | breakout.c:133 | every cell's byte lies within 27 bytes; the byte is inside the declared 26-byte array exactly for cells below 104 |
| Grid.BitIndex | breakout.c:134 | a cell's bit pair starts at an even position below 7, so both bits fit in the byte |
| Grid.UnpackPack | breakout.c:130-138 | get_brick reads back, cell by cell, every grid written by an independent reference packing (cell 4i + m in bits 2m and 2m + 1 of byte i, `destroyed` in the low bit) |
| Grid.PackUnpack | breakout.c:130-138 | the reference packing of the cells get_brick reads is the byte array itself: every bit of the 27 bytes belongs to exactly one cell flag |
| Grid.SetBrick | breakout.c:139-149 | set_brick at column x, row y makes that cell read as its old flags OR the new ones and leaves every other (column, row) reading as before |
| Grid.SetCell | breakout.c:140-149 | set_brick keeps the three counters and the packed length |
| Grid.SetGet | breakout.c:130-149 | after set_brick the cell reads as its old flags OR the new ones, and every other cell reads as before |
| Grid.SetGetOther | breakout.c:140-149 | set_brick on one cell leaves any other cell's flags unchanged, including the other cells sharing its byte |
| Grid.SetNeverClears | breakout.c:139-149 | set_brick never clears a flag of any cell |
| Grid.SetFreshIsNoop | breakout.c:140-149 | setting {false, false} leaves the whole state unchanged |
| Grid.ClearGet | breakout.c:425-428 | writing back a cleared erase flag keeps the cell's `destroyed`, drops its flag, and leaves every other cell as it was |
| Grid.LiveBelowDestroy | breakout.c:344-347 | destroying one live cell, with no other `destroyed` flag changing, lowers the live count by exactly one |
| Grid.NoLiveAllDestroyed | breakout.c:355 | a zero live count means every cell is destroyed |
| Grid.ResetLoop | breakout.c:154-160 | the per-cell loop of reset_bricks leaves a state exactly as it found it |
| Grid.ResetBricks | breakout.c:151-161 | after reset_bricks every cell reads {false, false} and all 108 are live; the counters are untouched |
| Grid.Init | breakout.c:176-181 | init yields a consistent state with a full counter, colour 0, game 0 and every cell fresh, whatever the allocated bytes held; the padding byte keeps whatever malloc left there |
| Grid.DeclaredArrayTooShort | breakout.c:71 | reset_bricks zeroes 27 bytes of a 26-byte array; the last four cells of the bottom row address byte 26, while the cell before them does not |
| Codec.Load | breakout.c:125-128 | load yields a well-formed state whose packed bytes are the buffer's 27 bytes after the 12-byte header and whose padding is the buffer's last byte |
| Codec.Save | breakout.c:121-124 | save yields a buffer of saveSize bytes that holds the packed bytes after the 12-byte header and the struct's padding byte last |
| Codec.LoadSave | breakout.c:121-128 | load after save restores the state exactly |
| Codec.SaveLoad | breakout.c:121-128 | save after load reproduces any buffer of saveSize bytes exactly, padding included, as the whole-struct memcpy does |
| Codec.SaveLoadKeepsConsistent | breakout.c:121-128 | the renderer loads a state as consistent as the one the simulation saved |
| Codec.PaddingHoldsLastByte | breakout.c:65-72 | with the 26-byte declaration the struct still has the saveSize of the 27-byte layout, and byte 26 falls in padding |
| Codec.LittleEndianRoundTrip | breakout.c:121-128 | a counter below 2^32 survives the trip through its four little-endian bytes |
| Codec.FromLittleEndianRoundTrip | breakout.c:121-128 | any four bytes survive the trip through the counter they encode |
| Collision.ApplyBrickCollision | breakout.c:186-223 | a hit is reported iff the inflated box meets the brick at the final position and did not at the current one; a miss changes nothing; on a hit, each velocity component is negated iff the box was outside the brick's span on that axis; position and radius are never changed |
| Collision.ElseIfGuardsRedundant | breakout.c:201-220 | with a non-negative radius the `else if` chaining of the bottom and right tests changes nothing: applying all four edge tests independently, one after the other, gives the same outcome |
| Collision.NoBounceFromInside | breakout.c:186-223 | a ball already overlapping a brick never bounces off it |
| Collision.TopEdgeCrossing | breakout.c:201-205 | crossing only the top edge negates the vertical velocity and nothing else |
| Collision.CornerCrossing | breakout.c:200-222 | crossing a horizontal and a vertical edge in one step negates both components |
| Colors.ColorFor | breakout.c:289-296 | get_color_for_brick with index 0 to 4 draws from the palette of rainbow_colors, alternating_colors, zebra_colors, sphere_colors and france_colors respectively; the rainbow uses only the first twelve table entries |
| Colors.ColorsAreOpaque | breakout.c:225-297 | every pattern yields a colour whose alpha byte is 0xff |
| Colors.RainbowRowsDistinct | breakout.c:225-244 | on the grid two rainbow cells share a colour iff they share a row |
| Colors.AlternatingIsCheckerboard | breakout.c:246-249 | horizontal and vertical neighbours differ; diagonal neighbours agree |
| Colors.ZebraIsRowStripes | breakout.c:251-254 | a zebra colour is constant along a row and alternates between rows |
| Colors.FranceIsThreeBands | breakout.c:273-287 | on the grid two cells share a colour iff they lie in the same band of three columns |
| Colors.SphereWrapCancels | breakout.c:258 | on the grid the wrapped size_t sum equals the true squared distance from cell (4, 6) |
| Colors.SquareWrap | breakout.c:258 | squaring a small difference that wrapped modulo 2^32 gives its true square |
| Colors.SphereIsSymmetric | breakout.c:256-271 | the sphere pattern mirrors about the centre column, and a cell is red iff its squared distance from (4, 6) is below 16 |
| Step.Clamp | breakout.c:321-327 | the clamped coordinate lies in [1, dim - 2]: interior values are kept, smaller ones become 1, larger ones become dim - 2 |
| Step.ClampedCentre | breakout.c:321-333 | for any truncated cell, the clamped neighbourhood lies on the grid |
| Step.Candidate | breakout.c:330-333 | each scan position names an on-grid cell within one step of the centre on each axis |
| Step.CandidatesDistinct | breakout.c:330-333 | the nine scan positions visit nine different cells |
| Step.Scan | breakout.c:329-353 | a hit names the first scan position whose live brick the ball strikes; a miss means no position strikes |
| Step.StepBall | breakout.c:314-353 | a ball destroys a brick iff some scan position strikes a live brick; the destroyed cell is the one at the first striking position, it read as live and now reads {true, true}, the counter drops by one and the ball leaves with that brick's bounce; no other cell changes; the state stays consistent; without a strike neither the state nor the ball changes |
| Step.DestroyLiveCell | breakout.c:344-347 | destroying a live cell and decrementing the counter keeps the state consistent, without the counter wrapping |
| Step.ProcessBalls | breakout.c:314-354 | the ball loop is the chain of per-ball steps, each ball on the state the previous one left, and ends in the last one's state; it keeps the state consistent; destroyed cells stay as they were; changed cells are {true, true}; the counter drops by at most one per ball |
| Step.ChainedCons | breakout.c:314-354 | a chain of per-ball steps is its first step followed by a chain from the state that step leaves |
| Step.FullClear | breakout.c:355-361 | the clear leaves every cell fresh and the counter full, and advances the colour mod 5 and the game counter mod 2^32 |
| Step.ClearIfEmpty | breakout.c:355-361 | the game counter moves iff no brick was left; otherwise nothing changes |
| Step.Step | breakout.c:311-362 | step runs the chain of per-ball steps; the game counter moves, by one, iff the chain left no live brick; then the grid is fresh and full and the colour advances; otherwise the result is the chain's final state, the colour is kept, a brick is still live and destroyed bricks stay as they were; the state stays consistent |
| Step.EmptyGridIsInert | breakout.c:329-353 | on an emptied grid the remaining balls change no brick, so one step clears at most once |
| Render.RenderBrick | breakout.c:369-378 | render_brick writes the colour to every pixel `(y + i) * canvas_width + x + j` of the rectangle and changes no other pixel |
| Render.FillRow | breakout.c:373-376 | the inner loop colours the first `width` pixels of one row and changes no other pixel |
| Render.PaintPlan | breakout.c:404-436 | a pass of render_brick calls yields the reference frame: each pixel holds the colour of the last paint whose rectangle covers it and keeps its old value when none does; so a pixel changes only inside a painted rectangle, to that paint's colour |
| Render.PixelAfterChanged | breakout.c:404-436 | a pixel that a pass changes lies in one of the painted rectangles and holds that paint's colour |
| Render.PixelAfterLast | breakout.c:404-436 | a pixel covered by a paint and by no later paint ends in that paint's colour |
| Render.PixelAfterUniform | breakout.c:419-436 | when every paint of a pass has one colour, every pixel any of them covers ends in it |
| Render.FullPlan | breakout.c:404-417 | the full branch paints every cell exactly once, row by row and column by column within a row, the cell at column x and row y with get_color_for_brick(x, y) |
| Render.ErasePlan | breakout.c:419-436 | the incremental branch paints only colour 0, only on cells of the grid, in strictly increasing cell order |
| Render.ErasePlanCells | breakout.c:419-436 | the incremental branch blanks exactly the cells whose erase flag is set |
| Render.Schedule | breakout.c:395-437 | afterwards the flag is clear and the cache holds the state's counter; a moved counter or a set flag repaints every cell, in row-major order, with its pattern colour; otherwise the cache is kept and exactly the flagged cells are blanked, in row-major order |
| Render.FlaggedCellsRepaintedEveryFrame | breakout.c:419-436 | as written, a flagged cell is blanked again on every later frame of the same state |
| Render.Acknowledge | breakout.c:421-435 | the intended write-back (which `breakout nolimit.c` performs through a `Brick *`) clears the erase flag of exactly the painted cells, keeps their `destroyed`, and changes nothing else |
| Render.AcknowledgeKeepsConsistent | breakout.c:421-435 | the write-back keeps the state invariant |
| Render.AcknowledgedCellsNotRepainted | breakout.c:419-436 | with the write-back, the next incremental frame on the same grid blanks nothing |
| Render.SingleDestroyRepaintsOneCell | breakout.c:419-436 | when only one cell is flagged, the incremental frame blanks that cell alone |
| Render.Render | breakout.c:395-437 | the corrected render: the cache ends up clear and current and the canvas is the reference frame of the scheduled pass; a full repaint keeps the state, gives each pixel of a cell's rectangle that no later cell repaints that cell's pattern colour, and changes no pixel outside the rectangles; an incremental frame keeps the cache, blanks every pixel of every flagged cell's rectangle, changes no other pixel, and clears every erase flag while keeping `destroyed`; a consistent state stays consistent |
| Render.FullRepaintPixels | breakout.c:404-417 | after the full pass each pixel of a cell's rectangle that no later cell repaints holds the cell's pattern colour, and a changed pixel lies in some cell's rectangle with that cell's colour |
| Render.EraseFramePixels | breakout.c:419-436 | after the incremental pass every pixel of a flagged cell's rectangle is 0, and a changed pixel is 0 and lies in a flagged cell's rectangle |
| Render.MisalignedEraseKeepsColour | breakout.c:404-436 | as written, with separate paint and erase rectangles, a painted pixel that no erase rectangle covers keeps its brick's opaque colour through the frame meant to blank the brick |
| Render.EraseOneRowLowMissesTopRow | breakout.c:429-432 | an erase rectangle placed one pixel row below the paint rectangle misses every pixel of the painted rectangle's top row, whatever the heights |
| Render.FirstFrameRepaints | breakout.c:395-417 | since `needs_full_render` starts true, the first frame repaints every cell with its pattern colour and leaves the flag clear with the state's game counter cached |
| Render.EraseBlanksPaintedBrick | breakout.c:404-436 | with one rectangle per cell for both branches, a full repaint followed by an incremental frame in which the cell is flagged leaves every pixel of its rectangle at 0 |

## Left out

- Physics helpers: `apply_gravity`, `vec2_mul` and `pos2_add` are declared in `physics.h`, and `physics.h` is not part of this model. A ball enters `step` as its post-gravity velocity plus its predicted final position (`Step.BallInput`).
- Float geometry: `MARGIN_X`, `MARGIN_Y` and the gap constants are float expressions, as are the float-to-int cell mapping of breakout.c:321 and 325 and the brick-position formula of breakout.c:340. The truncated cells are `int` inputs, and brick positions come from a `Step.Layout` function parameter.
- Pixel rectangles: the float-to-`size_t` conversions of breakout.c:410-413 and 429-432 are left out. Each cell's rectangle is an input (`Render.Rect`). `canvas_height` enters only through these rectangles.
- Render.Render: takes one rectangle per cell for both branches. The source computes the erase rectangles' y and height in single precision and the paint rectangles' y and height in double precision, which can disagree (see Findings); x and width are the same expression in both branches. The as-written two-layout behaviour is stated only by `Render.MisalignedEraseKeepsColour`.
- Float rounding: collision coordinates are reals, so `Collision.ApplyBrickCollision` is exact where the source rounds to `float`.
- Colors.SphereColors: the model does not use a floating-point square root. The source truncates `sqrt` of the squared distance and compares the result with 4 and 5. Because the square root is correctly rounded and 16 and 25 are perfect squares, this is the same as comparing the squared distance with 16 and 25.
- Allocation and host wiring: `malloc` (from `walloc.c`, which is not part of this model) and the memory handed to the host are left out. So are `ballsMemory`, `canvasMemory` and `saveMemory`, and the `max_num_balls` default of 100. `Grid.Init` takes the allocated bytes as a parameter.
- Logging and unused helpers: `logWasm`, `print`, `strlen` and `int_to_string` are logging plumbing. `rand` is never called. `fminf`, `mymemcpy` and `mymemset` are builtin wrappers, and the model states their effect directly.
- `generate_colors.py` produced the rainbow table offline. Only the table itself is modelled, in `Colors.RainbowTable`.
- Step.StepBall: the source mutates the ball in place while scanning. The model computes the bounce once, for the brick that was hit. Checks that miss leave the ball unchanged, so the result is the same.
- Render.Render: this models render with the intended write-back of the erase flags. The as-written behaviour, which never stores the clear, is stated by `Render.Schedule` and `Render.FlaggedCellsRepaintedEveryFrame`.

## Findings

| source | as written | input that shows it | evidently intended | confidence | as-written member | corrected member |
|---|---|---|---|---|---|---|
| breakout.c:71 | `brick_save` is declared with 108 / 8 * 2 = 26 bytes, but cell index / 4 reaches byte 26, and reset_bricks zeroes 108 / 4 = 27 bytes | cell (5, 11), index 104, addresses byte 26, one past the array; the wasm32 struct padding happens to absorb it | 27 bytes, one per four cells rounded up | not executed | Grid.DeclaredArrayTooShort | Grid.ResetBricks |
| breakout.c:428 | the incremental branch clears `needs_erasing` on a local copy of the brick and never writes it back | destroy one brick, then render twice on the same state: both frames blank that cell again | clear the flag in the state, as the grid-array variant does through a `Brick *`. Re-blanking is idempotent, so on the canvas the cost is repeated painting, not a wrong picture. When the renderer loads the simulation's state before every frame, the flag comes back with each load anyway | not executed | Render.FlaggedCellsRepaintedEveryFrame | Render.Acknowledge |
| breakout.c:430 | the erase branch places a brick with `canvas_height / 0.7f` (single precision, lines 430 and 432), while the paint branch uses `/ 0.7` (double precision, lines 411 and 413) | with IEEE 754 single- and double-precision rounding, on a 140-pixel-high canvas, row 6 is painted from pixel row 70 and erased from pixel row 71, both 5 rows high, so pixel row 70 of a destroyed brick keeps its colour; on a 100-pixel-high canvas, row 9 is painted at rows 66-68 and erased at rows 67-70 | the same rectangle in both branches | not executed; the numbers assume `FLT_EVAL_METHOD` 0 and no fused multiply-add | Render.MisalignedEraseKeepsColour | Render.EraseBlanksPaintedBrick |
