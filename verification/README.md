# DigitalRain — a verified model of the grid animation step

DigitalRain draws a "falling characters" effect in a Windows console. A
`DigitalRain` object holds a `height × width` grid of characters. It starts
with every cell blank. Each animation step (`update()`) moves every row down
by one and drops the bottom row. It then fills row 0 afresh with random
cells: a blank, or one of the 94 printable ASCII characters `'!'`..`'~'`.

This project models that object and its step in Dafny:

- `draws.dfy` (module `Draws`): how one new top row comes out of the random
  numbers. Each `std::rand()` call becomes the next element of an explicit
  `seq<nat>` called `draws`. `Cell` models the conditional expression that
  fills one cell. `Row` is the left-to-right fold of `Cell` over a row. The
  lemmas say what the fold produces and exactly which draws it reads.
- `grid.dfy` (module `Grid`): the grid as a value. It defines the blank
  starting grid and `Shift`, the one-row downward move with a new top row.
  `Steps` runs a series of shifts. Its lemmas cover ageing: where each
  written row is after later updates, and when the starting grid is gone.
- `rain.dfy` (module `Rain`): the `DigitalRain` class itself. `width` and
  `height` are constants. `grid` is a `seq<seq<char>>` field that the methods
  reassign. The constructor builds the blank grid. `Update` does one step
  in place and returns how many draws it consumed. The source's two loops
  are the methods `ShiftDown` (bottom-up row copy) and `RedrawTop` (cell by
  cell, left to right), and `Update` calls them in that order. `Run` repeats
  `Update` and ties the object's grid to `Steps`.

The grid is a sequence of sequences, not an array of arrays. In C++,
`grid[i] = grid[i - 1]` copies the inner `std::vector`, so the rows never
share storage. Sequence assignment has exactly that value meaning.

`Update` requires `height >= 1 || width == 0`. With no rows and a positive
width, the source writes `grid[0][j]` outside the grid. `Update` also
requires `2 * width` draws, the most one row can consume. `rand()` never runs
out, so any long enough prefix of its stream is available. The result
`used` says how many of these draws were actually read.

## Model

| member | source | states |
|---|---|---|
| `Draws.Cell` | DigitalRain_Proj/DigitalRain_Proj/DigitalRain.cpp:27 | The first draw alone decides the cell. If it is even, the cell is a blank and one draw is used. If it is odd, the cell is the symbol whose code minus 33 is the second draw mod 94, and two draws are used. Either way the cell is a blank or a printable symbol. |
| `Draws.Row` | DigitalRain_Proj/DigitalRain_Proj/DigitalRain.cpp:26-28 | A row of `width` cells uses between `width` and `2 * width` draws. |
| `Draws.RowCells` | DigitalRain_Proj/DigitalRain_Proj/DigitalRain.cpp:26-28 | Every cell of a generated row is a blank or a character with code 33..126. The row uses exactly one draw per cell plus one per non-blank cell. |
| `Draws.RowExtend` | DigitalRain_Proj/DigitalRain_Proj/DigitalRain.cpp:26-28 | Adding cell j appends the cell drawn at the position where cells 0..j-1 stopped, and adds its draws to the count. |
| `Draws.RowPrefix` | DigitalRain_Proj/DigitalRain_Proj/DigitalRain.cpp:26-28 | Cells are filled left to right: the first j cells of a longer row are the row of j cells, and they use no more draws. |
| `Draws.RowCellAt` | DigitalRain_Proj/DigitalRain_Proj/DigitalRain.cpp:26-28 | Cell j of a row is the `Cell` drawn at the position where cells 0..j-1 stopped. |
| `Draws.RowLocal` | DigitalRain_Proj/DigitalRain_Proj/DigitalRain.cpp:26-28 | A row reads only the draws it reports as used. Two draw sequences that agree on those give the same row and the same count. |
| `Grid.Blanks` | DigitalRain_Proj/DigitalRain_Proj/DigitalRain.cpp:10 | The starting grid has `height` rows of exactly `width` cells, and every cell is `' '`. |
| `Grid.Shift` | DigitalRain_Proj/DigitalRain_Proj/DigitalRain.cpp:22-29 | One step keeps the row count. The new row becomes row 0, and for every 1 ≤ i < height, new row i is old row i-1. The old bottom row is dropped. An empty grid stays empty. |
| `Grid.Steps` | DigitalRain_Proj/DigitalRain_Proj/DigitalRain.cpp:22-29 | Any number of steps keeps the row count. |
| `Grid.StepsAt` | DigitalRain_Proj/DigitalRain_Proj/DigitalRain.cpp:22-29 | After the steps `tops`, row i holds the row written i steps ago. If fewer than i+1 steps have run, it holds starting row i - \|tops\|. |
| `Grid.StepsSnoc` | DigitalRain_Proj/DigitalRain_Proj/DigitalRain.cpp:22-29 | Running the steps `tops` and then one more step `top` is the same as running `tops + [top]`: `Steps` is the fold of single steps. |
| `Grid.Ageing` | DigitalRain_Proj/DigitalRain_Proj/DigitalRain.cpp:22-29 | A row written into row 0 by one step is in row i after i further steps. |
| `Grid.Flushed` | DigitalRain_Proj/DigitalRain_Proj/DigitalRain.cpp:22-29 | After at least `height` steps nothing of the starting grid is left: any two starting grids of that height give the same grid. |
| `Rain.DigitalRain.constructor` | DigitalRain_Proj/DigitalRain_Proj/DigitalRain.cpp:8-12 | The object keeps `width` and `height`. Its grid is the all-blank `height × width` grid, and the class invariant holds. |
| `Rain.DigitalRain.Update` | DigitalRain_Proj/DigitalRain_Proj/DigitalRain.cpp:22-29 | The new grid is the old grid shifted down one row under a fresh row 0. That row is generated from the draws, and `used` is its exact draw count: width plus the number of non-blank cells. The shape and the blank-or-printable invariant hold afterwards. With height 1 only row 0 changes. |
| `Rain.DigitalRain.Run` | DigitalRain_Proj/DigitalRain_Proj/DigitalRain.cpp:14-20 | Running one update per element of `streams` writes, in order, the row generated from each element, and leaves the grid equal to `Steps` of the old grid over those rows, with the invariant kept. Once at least `height` updates have run, the grid is the same as if the object had started blank, so nothing of the earlier grid is left. |
| `Rain.DigitalRain.ShiftDown` | DigitalRain_Proj/DigitalRain_Proj/DigitalRain.cpp:23-25 | Copying rows bottom-up leaves row 0 unchanged. For every i ≥ 1, new row i is old row i-1, which is exactly the old grid minus its bottom row. The invariant holds afterwards. |
| `Rain.DigitalRain.RedrawTop` | DigitalRain_Proj/DigitalRain_Proj/DigitalRain.cpp:26-28 | Row 0 becomes the row generated from the draws and every other row is unchanged. `used` is the exact number of draws consumed. The invariant holds afterwards. |

## Left out

- `render()` and `setCursorPosition()` (DigitalRain.cpp:31-43) are left out. They write cells to the console through `std::cout` and the Win32 cursor call, with a `SHORT` cast on coordinates. This is console I/O with no state change to the object.
- Rain.DigitalRain.Run: `run()` (DigitalRain.cpp:14-20) loops forever and also calls `render()` and sleeps 100 ms per turn. The model runs a finite number of updates, one per element of `streams`; rendering and timing are not modelled.
- `std::srand(std::time(0))` and `std::rand()` (DigitalRain.cpp:9, 27) are foreign calls. The model replaces the random stream with the `draws` parameter, so it is deterministic. Seeding and the library generator's distribution are not modelled.
- `GetStdHandle` and the `consoleHandle` field (DigitalRain.cpp:11, DigitalRain.h:19) are OS handle plumbing used only by rendering.
- `main.cpp` (console code page, window size and the entry point) is not part of this model.
- Rain.DigitalRain.constructor: takes `nat` dimensions. In the source, a negative width or height makes line 10 throw `std::length_error`. That failure is not modelled.
- Rain.DigitalRain.Update: requires `2 * width` draws up front rather than drawing from an endless stream. Only the first `used` draws are read (`Draws.RowLocal`), so the extra ones make no difference.
- The model covers only what `update()` does: the whole grid shifts down one row per call. Per-column heads, speeds and trail lengths, double-buffered output and fixed-timestep pacing are not part of the program.
