# Pixel scheduling and point picking in the cpptrash examples

This project models the integer logic inside the example programs of the
cpptrash repository (bitrate16) and proves properties of it in Dafny 4.11:

- **Multithreaded renderer** (`example/raytrace_temp_multithread.cpp`). Each
  worker claims pixels from a shared cursor `(x, y)`. The claim step runs while
  the worker holds the `index_access` mutex. The model has three parts:
  - `Cursor` models that locked block as a pure step function, `Advance`.
  - `Dispatch` models the workers around it. A worker claims a pixel under the
    lock and later stores its opaque fragment at `x + y * WIDTH`. The stop that
    ends the run hands the frame to the encoder. A run is any interleaving of
    these events.
  - `Checker` models the checkerboard rule of the UV-mapped sphere's `uv_map`
    callback, starting from the integer cell coordinates `iu` and `iv`.
- **Serial renderer** (`example/raytrace_render.cpp`). `SerialRender.Render` is
  the nested loop of `tracer::render`. Columns are the outer loop and rows the
  inner loop. Each pixel's fragment is stored at `x + y * WIDTH` before the
  frame goes to the encoder.
- **Delaunay point editor** (`example/delaunay_manual.cpp`). `Editor.GetTriangle`
  is `scene::get_triangle`. `Editor.PressLeft` is the left-button branch of
  `scene::loop`: it picks the first stored point within 10 pixels of the
  pointer, or else appends the pointer as a new point.

Module layout:

- `arith.dfy`: `Arith`, facts about multiplication and division.
- `frame.dfy`: `Frame`, the colours, pixels, row-major cells and the frame
  buffer.
- `cursor.dfy`, `dispatch.dfy`, `texture.dfy`: the multithreaded renderer.
- `serial.dfy`: the serial renderer.
- `editor.dfy`: the Delaunay editor.

A cell is `None` until it is written. Both renderers allocate the buffer with
`malloc`, so an unwritten cell holds no colour.

The grid width `w` stands for both `rt.get_width()` and the `WIDTH` macro. The
camera is built as `Camera(WIDTH, HEIGHT)`, so the two are equal.

`Advance` is written once, with the wrap column as a parameter, `rowLen`:

- As written, the block wraps when `x == rt.get_width() - 1`, so
  `rowLen = w - 1` (`SourceRun`).
- The evidently intended block wraps at `w` (`FixedRun`).

The central fact is about the cursor's row-major position
`Rank = y * rowLen + x`:

- A wrap leaves the position unchanged.
- A claim takes the pixel at the current position and adds one to it.
- The block stops a worker exactly when the position reaches
  `Total = h * rowLen`.

So the `k`-th pass of any run is fully determined (`Cursor.RunShape`). While
`k < Total` it claims pixel `(k % rowLen, k / rowLen)`. From then on it stops a
worker, and only the first of those stops encodes.

The dispatcher was designed so that every pixel is claimed exactly once and
one encode follows once all pixels are done. The code does not fully do
that. The model follows the code, and the gaps are listed under Findings.
The code also implies some behaviour that a reader might not expect. The
model follows the code in each case:

- As written, column `w - 1` is never claimed.
- With `w == 1` and `h >= 2` the run does not stop. It claims `(0, 1)`,
  `(1, 1)`, `(2, 1)` and so on. With `w == 1` and `h == 1` the first pass
  wraps to row 1 and stops, so no pixel is claimed.
- Because the wrap test runs before the stop test, the first stop pass moves
  the cursor from `(w - 1, h - 1)`, where the last claim left it, to
  `(0, h)`. Only the passes after that one leave `x` and `y` unchanged
  (`Cursor.StopsOnceExhausted`). Every stop pass leaves the position `Rank`
  unchanged (`Cursor.AdvanceFromValid`).

## Model

| member | source | states |
|---|---|---|
| Frame.IndexInBounds | example/raytrace_render.cpp:134 | for a pixel inside the `w` by `h` grid, `x + y * WIDTH` lies in `[0, w*h)`, and dividing by `w` recovers the pixel (column as remainder, row as quotient) |
| Frame.PixelAtInGrid | example/raytrace_render.cpp:127-134 | every cell of the `w*h` buffer is the cell of a grid pixel, so a loop over the grid reaches every cell |
| Frame.IndexInjective | example/raytrace_render.cpp:134 | distinct grid pixels have distinct cells, so no write lands on another pixel's cell |
| Frame.Blank | example/raytrace_render.cpp:127 | the freshly allocated buffer has the requested number of cells and none of them holds a colour yet |
| Frame.Opaque | example/raytrace_render.cpp:133 | `frag.a = 255`: the stored colour has alpha 255 and the shaded red, green and blue unchanged |
| Frame.Store | example/raytrace_render.cpp:134 | `frame[x + y * WIDTH] = …`: the buffer keeps its length, the pixel's cell holds its opaque fragment, and every other cell is unchanged |
| Cursor.Advance | example/raytrace_temp_multithread.cpp:221-262 | one pass through the locked block: a claim leaves `written` and `finshed_threads` alone; a stop sets `written`, counts one more finished worker, and encodes exactly when `written` was not yet set |
| Cursor.Run | example/raytrace_temp_multithread.cpp:218-264 | `n` passes through the block take exactly `n` actions, one per pass |
| Cursor.WrittenAfterFirstStop | example/raytrace_temp_multithread.cpp:229-240 | for any wrap column and grid, `written` is set exactly when some worker has stopped, and a stop encodes exactly when no stop came before it, so at most one worker encodes |
| Cursor.AdvanceFromValid | example/raytrace_temp_multithread.cpp:221-262 | from a reachable cursor, a pass before the end of the grid claims the pixel at the cursor's row-major position and moves one position on; at the end it stops the worker without moving, leaving the row past the last one; the next cursor is reachable |
| Cursor.RunState | example/raytrace_temp_multithread.cpp:218-264 | after `n` passes the cursor is at position `min(n, total)`, `written` is set exactly when `n > total`, and `finshed_threads` is `n - total` past the end, else 0 |
| Cursor.RunShape | example/raytrace_temp_multithread.cpp:218-264 | the `k`-th pass claims the `k`-th pixel in row-major order while `k < total`, and stops a worker afterwards, encoding only at `k == total` |
| Cursor.ClaimAt | example/raytrace_temp_multithread.cpp:222-261 | the pixel claimed at pass `k` lies in the `h` rows of `rowLen` pixels, at position `k < total` |
| Cursor.ClaimsInGrid | example/raytrace_temp_multithread.cpp:222-261 | every claimed pixel satisfies `0 <= x < rowLen` and `0 <= y < h`, and is the pixel at the pass's position |
| Cursor.ClaimsStrictlyIncrease | example/raytrace_temp_multithread.cpp:222-261 | of two claims, the later one is strictly after the earlier in row-major `(y, x)` order, so no pixel is claimed twice |
| Cursor.ClaimsCoverGrid | example/raytrace_temp_multithread.cpp:222-261 | once the grid is exhausted, a pixel has been claimed if and only if it lies in the `h` rows of `rowLen` pixels |
| Cursor.EncodesOnceAfterClaims | example/raytrace_temp_multithread.cpp:229-240 | a pass stops a worker if and only if it comes after the last claim; exactly one pass encodes, the first stop, and every claim precedes every stop |
| Cursor.StopsOnceExhausted | example/raytrace_temp_multithread.cpp:222-257 | from a reachable cursor whose row is past the last one, a pass stops the worker and leaves `x` and `y` unchanged, so the row never decreases and every later pass stops too |
| Cursor.ClaimsLeftDecreases | example/raytrace_temp_multithread.cpp:218-264 | the pixels left, `total - rank`, never go negative; a claim lowers them by exactly one; and a pass stops exactly when none are left, so the claim loop ends |
| Cursor.SourceSkipsLastColumn | example/raytrace_temp_multithread.cpp:222-270 | as written, with `w >= 2`, every claim is inside the `w` by `h` grid and its cell `x + y * WIDTH` is in `[0, w*h)`; column `w - 1` is never claimed; once exhausted, the claims are exactly the pixels of columns `0 .. w-2` |
| Cursor.SourceThreeByOneExample | example/raytrace_temp_multithread.cpp:222-261 | as written, a 3 by 1 image claims `(0,0)` and `(1,0)` and then encodes, leaving `(2,0)` unrendered |
| Cursor.SourceSingleColumnRunsAway | example/raytrace_temp_multithread.cpp:222-261 | as written, with `w == 1` and `h >= 2`, pass `k` claims `(k, 1)` for every `k`; the run never stops and leaves the grid from its second claim on |
| Cursor.FixedCoversGrid | example/raytrace_temp_multithread.cpp:222-261 | corrected wrap at `w` and `w >= 1`: claim `k` is the pixel of cell `k`, the claims are exactly the `w` by `h` grid, and the single encode comes after them all |
| Checker.CRem | example/raytrace_temp_multithread.cpp:171 | the C++ `%`: the remainder is smaller than the divisor in magnitude, has the sign of the dividend, and differs from it by a multiple of the divisor |
| Checker.CRemZeroIffEven | example/raytrace_temp_multithread.cpp:171 | the C++ remainder by 2 is zero exactly for even numbers, negative ones included |
| Checker.UvMap | example/raytrace_temp_multithread.cpp:171-173 | the callback returns `Color(255, 0, 255)` exactly when one of `iu`, `iv` is odd and the other even (their sum is odd), and the default `Color()` otherwise |
| Checker.UvMapCheckerboard | example/raytrace_temp_multithread.cpp:168-173 | stepping one cell in `iu` or in `iv` swaps the colour, stepping two keeps it, and swapping `iu` and `iv` keeps it |
| SerialRender.RenderColumn | example/raytrace_render.cpp:131-135 | one pass of the inner loop over column `x` writes exactly that column's cells with their fragments, touches no other cell, and appends that column's pixels top to bottom to the visit order |
| SerialRender.Render | example/raytrace_render.cpp:124-144 | the buffer given to the encoder has `w*h` cells; every pixel's cell holds its fragment, so every cell is written and opaque; the `k`-th write goes to pixel `(k / h, k % h)`; every pixel is visited once, at position `x*h + y`, and no pixel twice |
| SerialRender.ColumnMajorCoversGrid | example/raytrace_render.cpp:129-131 | a column-major visit order of length `w*h` reaches every grid pixel at position `x*h + y` and repeats none |
| SerialRender.PaintedAll | example/raytrace_render.cpp:129-136 | once the loop has passed the last column, every cell of the buffer holds a fragment with alpha 255 |
| Editor.Len2 | example/delaunay_manual.cpp:137 | the squared distance is never negative and is zero exactly for equal points |
| Editor.GetTriangle | example/delaunay_manual.cpp:79-88 | the result is -1 whenever fewer than 3 points exist; otherwise it is -1 or a valid triangle index; a returned index contains the point and no earlier triangle does; -1 with at least 3 points means no triangle contains it |
| Editor.PressLeft | example/delaunay_manual.cpp:130-148 | if a stored point is within squared distance 100 of the pointer, the first such index becomes `drag1_id`, drag mode is set and nothing else changes; otherwise the pointer is appended after the unchanged points, the triangulation is recomputed from them, the press is consumed and a redraw is requested |
| Dispatch.Init | example/raytrace_temp_multithread.cpp:191-203 | when `render` releases the workers, the cursor is at the origin with nothing written or finished, there is one ready worker per thread, the buffer has `w*h` unwritten cells, and nothing has been encoded |
| Dispatch.Fire | example/raytrace_temp_multithread.cpp:218-270 | one event under either policy: nothing happens after the encode; only a ready worker takes the lock, and it leaves the buffer alone; only a worker holding a pixel stores it, in that pixel's cell with its opaque fragment, leaving the cursor and the output alone; an encode hands over the current buffer and happens only on a pass through the lock |
| Dispatch.Execute | example/raytrace_temp_multithread.cpp:218-270 | a schedule keeps the number of workers and the size of the buffer, and no event can follow the encode |
| Dispatch.InitConsistent | example/raytrace_temp_multithread.cpp:191-203 | corrected: the state at release (fresh buffer, cursor at the origin, every worker ready) satisfies the dispatcher invariant |
| Dispatch.ClaimConsistent | example/raytrace_temp_multithread.cpp:259-263 | corrected: a claim under the wrap at `w` keeps the invariant: the claimed pixel is new and its cell is unwritten; each claimed but unstored cell is held by a worker |
| Dispatch.StopConsistent | example/raytrace_temp_multithread.cpp:229-256 | corrected: a stop that encodes only when `finshed_threads` reaches the number of workers (lines 244-253) keeps the invariant: the finished count stays the number of returned workers, and stops only happen once the grid is exhausted |
| Dispatch.WriteConsistent | example/raytrace_temp_multithread.cpp:268-270 | corrected: storing a held pixel keeps the invariant: its cell gets its opaque fragment and no other held pixel's cell is touched |
| Dispatch.LockConsistent | example/raytrace_temp_multithread.cpp:218-264 | corrected: any pass through the locked block keeps the dispatcher invariant |
| Dispatch.FixedScheduleConsistent | example/raytrace_temp_multithread.cpp:218-270 | with the corrected wrap and encode, every interleaving of claims, stops and stores reaches only states satisfying the invariant |
| Dispatch.FixedEncodesCompleteFrame | example/raytrace_temp_multithread.cpp:229-253 | corrected: whatever the interleaving, the frame the encoder receives has all `w*h` cells written, each with its pixel's opaque fragment |
| Dispatch.SourceEncodesBeforeWrite | example/raytrace_temp_multithread.cpp:229-270 | as written, one possible interleaving: with two workers on a 2 by 1 image, worker 0 claims `(0,0)` and worker 1 then encodes the frame while cell 0 is still unwritten |
| Dispatch.Round | example/raytrace_temp_multithread.cpp:218-270 | corrected: a single worker between rounds can claim the next pixel and store it, ending one position further on |
| Dispatch.RoundsProceed | example/raytrace_temp_multithread.cpp:218-270 | corrected: a single worker can claim and store every pixel in turn without the run ending early |
| Dispatch.FixedSingleWorkerFinishes | example/raytrace_temp_multithread.cpp:218-253 | corrected, liveness: a single worker that claims and stores every pixel and then passes the lock once more hands the frame to the encoder |

## Findings

| source | as written | input that shows it | evidently intended | confidence | as-written member | corrected member |
|---|---|---|---|---|---|---|
| example/raytrace_temp_multithread.cpp:222 | the row wraps when `x == rt.get_width() - 1`, before the claim, so column `w - 1` is never claimed and its cells are never written | `w = 3, h = 1`: claims `(0,0)`, `(1,0)`, then encode; `(2,0)` is never rendered and its cell holds whatever `malloc` left | wrap when `x == rt.get_width()`, so every pixel is claimed once | high (the program's 10000-wide frame loses its last column); not executed | Cursor.SourceThreeByOneExample | Cursor.FixedCoversGrid |
| example/raytrace_temp_multithread.cpp:222 | with width 1 the wrap column is 0: after one wrap, `x` grows past it and the row never wraps again | `w = 1, h = 2`: claims `(0,1)`, `(1,1)`, `(2,1)`, and so on; the write for `(1,1)` lands on cell 2 of a 2-cell buffer, and the run never stops | the same corrected wrap, under which a one-pixel-wide image claims `(0,0) .. (0,h-1)` and stops | medium (the program fixes the width at 10000); not executed | Cursor.SourceSingleColumnRunsAway | Cursor.FixedCoversGrid |
| example/raytrace_temp_multithread.cpp:229-240 | the first worker to find the grid exhausted encodes and exits while other workers may still hold claimed pixels they have not stored | two workers, `w = 2, h = 1`: worker 0 claims `(0,0)`; worker 1 takes the lock, stops and encodes with cell 0 unwritten | encode once every worker has returned (`finshed_threads == THREAD_COUNT`, the commented-out block at lines 244-253), which also uses the corrected wrap | high (a pixel still being shaded at exhaustion may be missing from the file: its store races with the encoder's read); not executed | Dispatch.SourceEncodesBeforeWrite | Dispatch.FixedEncodesCompleteFrame |

## Left out

- Threads, the `condition_variable` start handshake, `join` and the `exit(0)`
  call (example/raytrace_temp_multithread.cpp:191-215, 240). The mutex makes
  each pass through the locked block atomic with respect to other passes.
  Storing a pixel is a separate event, and it takes no lock. A run is any interleaving of the two, and it ends once the frame is
  encoded.
- Shading (`hitColorAt`): RayTrace.h is not part of this model, and the
  shading is floating point. The shading function is a parameter, `Shader`.
- The `Color::abgr` packing: RayTrace.h is not part of this model. A cell
  holds the unpacked opaque colour.
- src/include/vec3.h, the rest of the vector library and the `Color` class:
  their bodies are not part of this model.
- The floating-point part of `uv_map`: the `u += 1` shift and the truncation
  of `u / pi * 2` and `v / pi * 2` to `int`. `Checker.UvMap` starts from the
  integers `iu` and `iv`. The two colours it returns are named (`Magenta`,
  `Plain`) because the defaults of `Color()` are not visible.
- PNG encoding (`lodepng_encode32_file`), the `output` directory check
  (`stat`/`mkdir`) and console printing. The model returns the buffer that is
  handed to the encoder.
- `delaunay::triangulate` and `math::in_triangle` are not visible. They are
  parameters, `Triangulator` and `Containment`. `Triangulation` keeps only
  the triangle list, not the edges.
- The rest of `scene::loop` (example/delaunay_manual.cpp:90-128, 149-225):
  key and mouse event handling, the drag branch that moves the selected point,
  and all drawing. `Editor.PressLeft` assumes the guard of its branch: the
  button is down and no drag is active.
- All of example/raytrace.cpp (the interactive viewer), and the scene set-up
  constants (sphere and plane placement) in both renderers.
- Integer width: cursor coordinates and cell indices are unbounded integers.
  With the program's 10000 by 10000 frame, the largest cell index is
  99,999,999 and `WIDTH * HEIGHT * 4` is 400,000,000. Both fit in a 32-bit
  `int`. The runaway run with width 1 would eventually overflow `x`, and the
  model does not show that overflow.
- Editor.PressLeft: the pointer coordinates become `vec2` doubles, and
  `len2` is computed in floating point. The model computes it exactly over
  the integers. The two agree while the squares stay below 2^53.
- Dispatch.Fire: the encode is modelled as one read of the whole buffer,
  taken at the stop that triggers it. In the source, `encodeOneStep` runs
  under the lock (example/raytrace_temp_multithread.cpp:236), but the stores
  at line 270 take no lock, so a store can land while the encoder is
  reading. The model cannot show a store landing during the encode. For
  the corrected policy this makes no difference, because no worker holds a
  pixel when the frame is encoded.
- Dispatch.Fire: a store whose cell lies outside the buffer is an event that
  cannot happen in this model. With the source's cursor such a store occurs
  only for a degenerate width: width 1, which the second finding covers, and
  width 0, where the wrap column -1 is never reached and every claim
  `(k, 0)` falls outside the empty buffer.
