# Game of Life board kernel, in Dafny

This project models the discrete Game of Life board of the CellularAutomata
repository: Conway's rule (a Dead cell with exactly 3 Alive neighbours is
born, an Alive cell with 2 or 3 survives) on a toroidal grid of `Dead`/`Alive`
cells, together with the board operations the front-ends call: `new` (sizes
clamped into [10, 125]), `next_gen`, `count_n`, `clear`, `randomize`,
`toggle_cur_cell`, the cursor moves of the terminal front-end, and the two
modulo helpers (`emod` and a hand-written `rem_euclid`) the wrap-around is
built on.

The kernel exists three times in the source, almost word for word:
`src/gol_term.rs` (terminal), `src/gol_gui.rs` (SDL window) and `src/gol.rs`
(library used by the other SDL binary). The model follows that structure:

- `Life` (life.dfy) is the reference semantics: `Cell`, `Toggle`, grid shape,
  `Wrap`, the 8 Moore neighbours, `NeighbourCount`, the B3/S23 `Rule` and one
  generation `Step`, computed entirely from the previous grid.
- `Modulo` (modulo.dfy) models Rust's truncating `%` on `i32` (`Rem`), `emod`
  and the hand-written `rem_euclid`, and proves both helpers equal to the
  floored modulo, hence to the mathematical modulo for a positive divisor.
- `Kernel` (kernel.dfy) is `count_n` and `next_gen` written as the source
  writes them (a 3 by 3 scan with wrapped indices; a copy of the board filled
  cell by cell) and proved equal to `Life.NeighbourCount` and `Life.Step`.
  `WrapHelper` picks the modulo helper, the only difference between the files.
- `Boards` (board.dfy) is the board (cells plus a `(col, row)` cursor) with
  `New`, `Clear`, `ToggleCurCell` and `Randomize`. The three files contain the
  same code for these: `new` is gol_term.rs:78-87, gol_gui.rs:64-72 and
  gol.rs:43-51; `toggle_cur_cell` is gol_term.rs:135-138, gol_gui.rs:96-99
  and gol.rs:75-78; `clear` is gol_term.rs:157-159, gol_gui.rs:101-103 and
  gol.rs:80-82; `randomize` is gol_term.rs:161-171, gol_gui.rs:121-131 and
  gol.rs:100-110; `Cell::toggle` is gol_term.rs:63-68, gol_gui.rs:50-55 and
  gol.rs:29-34; the size bounds are gol_term.rs:25-28, gol_gui.rs:28-31 and
  gol.rs:7-10. Each is modelled once and the table cites the terminal copy.
- `GolTerm`, `GolGui` and `Gol` (gol_term.dfy, gol_gui.dfy, gol.dfy) hold
  what is specific to each file: its `count_n`/`next_gen` with its helper,
  the terminal cursor moves, the Run/Edit mode switch and the effect of its
  key commands, and the fact that the other two files never move the cursor.

Modelling choices:

- The random source of `randomize` is a parameter `coin: (nat, nat) -> bool`,
  one draw per cell; as in the source, a `true` draw gives a Dead cell.
- Integer widths: `usize` values are `nat`. The `i32` arithmetic of the
  neighbour scan is modelled exactly (`Modulo.Rem`); `Kernel.MaxSide`
  (2^30) is the board side below which no cast or sum can overflow, far above
  the clamp bound 125. Arithmetic overflow is treated as the panic of a debug
  build, i.e. as a precondition.
- A panic of the source (indexing off the grid, reading the first row of an
  empty board) is a precondition; the board invariant every constructed board
  keeps (`Boards.Valid`: rectangular, sides in [10, 125], cursor on the grid)
  appears as `Valid(b) ==> Valid(b')` in the contracts.
- The hand-written `rem_euclid` of gol.rs is not the standard
  `i32::rem_euclid`: for a negative divisor it returns a value in `(b, 0]`
  (`RemEuclid(1, -3) == -2`) where the standard one is never negative. It is
  only ever called with a board length, which is positive, so the model just
  records this (`Modulo.RemEuclidNegativeDivisor`).

## Model

| member | source | states |
|---|---|---|
| `Life.Toggle` | src/gol_term.rs:63-68 | toggling gives the other state of the two |
| `Life.ToggleInvolutive` | src/gol_term.rs:63-68 | toggling a cell twice gives it back |
| `Life.Wrap` | src/gol_term.rs:204-205 | the wrapped index lies in `[0, len)` and is congruent to the raw index modulo `len` |
| `Life.WrapEdges` | src/gol_term.rs:204-205 | index -1 wraps to `len - 1`, index `len` wraps to 0, in-range indices are unchanged |
| `Life.MoorePositionsDistinct` | src/gol_term.rs:201-210 | on a torus at least 3 by 3 the 8 wrapped neighbour positions are pairwise distinct and none is the cell itself |
| `Life.MoorePositionsFoldOnTwoRows` | src/gol_term.rs:201-210 | on any board with 2 rows, for every cell, the neighbours one row up and one row down coincide, which is why distinctness needs sides of at least 3 |
| `Life.NeighbourCount` | src/gol_term.rs:198-214 | the number of Alive cells among the 8 wrapped neighbours is at most 8 |
| `Life.CountAliveNone` | src/gol_term.rs:206-208 | a sequence with no Alive cell counts 0 |
| `Life.Rule` | src/gol_term.rs:95-104 | a Dead cell becomes Alive exactly on 3 neighbours; an Alive cell stays Alive exactly on 2 or 3 |
| `Life.RuleIsB3S23` | src/gol_term.rs:95-104 | the next state is Alive iff the count is 3, or it is 2 and the cell is Alive |
| `Life.Step` | src/gol_term.rs:89-109 | a generation keeps the grid's dimensions and rectangularity |
| `Life.StepBirthSurvival` | src/gol_term.rs:89-109 | every cell of the next generation is Alive iff its count on the previous grid is 3, or is 2 and it was Alive |
| `Life.StepIsLocal` | src/gol_term.rs:89-109 | a cell's next state depends only on itself and its 8 wrapped neighbours in the previous grid |
| `Life.StepAllDead` | src/gol_term.rs:89-109 | an all-Dead grid is a fixed point of a generation |
| `Modulo.Rem` | src/gol_term.rs:218 | Rust's `%` on i32 is congruent to the dividend, smaller than the divisor in size and has the dividend's sign |
| `Modulo.FloorMod` | src/gol_term.rs:217-219 | the floored modulo is congruent to `a` and lies in `[0, b)` for `b > 0`, in `(b, 0]` for `b < 0` |
| `Modulo.Emod` | src/gol_term.rs:217-219 | `emod` is the floored modulo; for `b > 0` it lies in `[0, b)` and equals `a` mod `b` |
| `Modulo.RemEuclid` | src/gol.rs:131-138 | the hand-written `rem_euclid` is the floored modulo; for `b > 0` it lies in `[0, b)` and equals `a` mod `b` |
| `Modulo.EmodAgreesWithRemEuclid` | src/gol.rs:131-138 | `rem_euclid` and `emod` agree on every input where `emod` does not overflow |
| `Modulo.EmodWrapsEdges` | src/gol_term.rs:217-219 | both helpers map -1 to `len - 1` and `len` to 0 |
| `Modulo.RemEuclidNegativeDivisor` | src/gol.rs:131-138 | for a negative divisor the hand-written helper can return a negative value |
| `Kernel.WrapWith` | src/gol_term.rs:204-205 | the scan's wrapped index, with either helper, is the reference `Wrap` |
| `Kernel.CountN` | src/gol_term.rs:198-214 | the 3 by 3 scan skipping the centre counts exactly the Alive wrapped Moore neighbours, at most 8 |
| `Kernel.NextGen` | src/gol_term.rs:89-109 | filling a copy cell by cell from counts on the original yields exactly one reference generation; a board without cells comes back unchanged |
| `Boards.Clamp` | src/gol_term.rs:79-80 | the clamped size lies in `[lo, hi]` and an in-range size is kept |
| `Boards.ClampIsNearest` | src/gol_term.rs:79-80 | the clamped size is the nearest point of the range to the request |
| `Boards.New` | src/gol_term.rs:78-87 | a new board has the clamped dimensions, is rectangular and all Dead, and its cursor is (0, 0) |
| `Boards.NewClamps` | src/gol_term.rs:78-87 | in-range sizes are kept, out-of-range ones become the nearest bound; a 1 by 1 request gives 10 by 10 |
| `Boards.ToggleCurCell` | src/gol_term.rs:135-138 | exactly the cell under the cursor flips; every other cell, the shape and the cursor are unchanged |
| `Boards.ToggleCurCellTwice` | src/gol_term.rs:135-138 | toggling the cursor cell twice restores the board |
| `Boards.Clear` | src/gol_term.rs:157-159 | clearing makes every cell Dead, keeps the cursor, and keeps the dimensions of a valid board |
| `Boards.ClearIsNewOfSameSize` | src/gol_term.rs:157-159 | on a valid board the re-clamp is inert: clearing yields a Dead grid of exactly the board's size; clearing twice is clearing once |
| `Boards.Advance` | src/gol_term.rs:89-109 | a generation of the board, which each file's `NextGen` computes: the cursor and the dimensions are kept and a valid board stays valid |
| `Boards.ClearedBoardIsStill` | src/gol_term.rs:157-159 | a cleared board is unchanged by a generation |
| `Boards.Randomize` | src/gol_term.rs:161-171 | randomizing keeps shape and cursor and sets each cell from its own draw, Dead on `true` |
| `Boards.RandomizeReachesEveryGrid` | src/gol_term.rs:161-171 | every grid of the board's shape is a possible outcome of randomizing |
| `Boards.Replay` | src/gol_gui.rs:74-131 | any sequence of `next_gen`, `toggle_cur_cell`, `clear` and `randomize` keeps a valid board valid, its dimensions and its cursor |
| `Boards.CursorStaysAtOrigin` | src/gol_gui.rs:96-99 | with no cursor moves, the cursor stays (0, 0), so toggling flips the top-left cell and nothing else |
| `GolTerm.ToggleMode` | src/gol_term.rs:227-234 | the mode switch gives the other mode |
| `GolTerm.ToggleModeTwice` | src/gol_term.rs:227-234 | switching mode twice gives the original mode |
| `GolTerm.CountN` | src/gol_term.rs:198-214 | this file's scan, with `emod`, counts the Alive wrapped neighbours, at most 8 |
| `GolTerm.NextGen` | src/gol_term.rs:89-109 | this file's step is `Boards.Advance` on every rectangular board: the cells become one generation, the cursor and validity are kept; a board without cells stays as it is |
| `GolTerm.MoveCursorLeft` | src/gol_term.rs:119-121 | the column decreases by one, stays at 0 at the left edge; cells and row are unchanged |
| `GolTerm.MoveCursorRight` | src/gol_term.rs:123-125 | the column increases by one up to the last column and always ends on the board; cells and row are unchanged |
| `GolTerm.MoveCursorUp` | src/gol_term.rs:127-129 | the row decreases by one, stays at 0 at the top edge; cells and column are unchanged |
| `GolTerm.MoveCursorDown` | src/gol_term.rs:131-133 | the row increases by one up to the last row and always ends on the board; cells and column are unchanged |
| `GolTerm.CursorMovesUndo` | src/gol_term.rs:119-133 | opposite moves undo each other away from the edge; a move into the edge it sits on changes nothing |
| `GolTerm.Perform` | src/gol_term.rs:259-290 | every key command of the main loop, and a generation, keeps the board valid and its dimensions |
| `GolTerm.PerformAll` | src/gol_term.rs:258-292 | any sequence of commands keeps the board valid and its dimensions |
| `GolTerm.CursorStaysOnBoard` | src/gol_term.rs:256-292 | from a new board, any command sequence keeps the clamped size and the cursor on the board |
| `GolGui.CountN` | src/gol_gui.rs:133-149 | this file's scan, with `emod`, counts the Alive wrapped neighbours, at most 8 |
| `GolGui.NextGen` | src/gol_gui.rs:74-94 | this file's step is `Boards.Advance` on every rectangular board: the cells become one generation, the cursor and validity are kept; a board without cells stays as it is |
| `GolGui.WindowBoardKeepsSize` | src/gol_gui.rs:196-239 | the 100 by 100 window board keeps its size through randomize, clear and generations, and a new one is still |
| `Gol.CountN` | src/gol.rs:112-128 | this file's scan, with `rem_euclid`, counts the Alive wrapped neighbours, at most 8 |
| `Gol.NextGen` | src/gol.rs:53-73 | this file's step is `Boards.Advance` on every rectangular board: the cells become one generation, the cursor and validity are kept; a board without cells stays as it is |
| `Gol.BoardOpsKeepShapeAndCursor` | src/gol.rs:43-110 | after `new` and any of this file's operations the size is the clamped one, the cursor is (0, 0), and a cleared board is still |

## Left out

- Rendering: `render`, `highlight_cursor`, `Cell::as_str`, the render mode and `to_ascii_mode`/`to_unicode_mode` of gol_term.rs, `draw`, `as_color_hex` and `RGBA_HEX!` of gol_gui.rs, gol.rs and main.rs. They only produce terminal or SDL output.
- Event loops and I/O: the stdin reader thread and its channel, timeouts, the SDL event pump and window handling, clap argument parsing (`get_args`). `GolTerm.Perform` models only what a key does to the board, not how keys arrive.
- Frame pacing in gol_gui.rs and main.rs: floating-point timers.
- Boards.Randomize: states no probability distribution; the random source is an arbitrary draw per cell.
- SmoothLife (smoothlife_term.rs, smoothlife_gui.rs): floating-point numerics and a GPU shader, outside the discrete kernel.
- cautomata/board.rs: a trait without logic; its `new`, `next_gen`, `randomize` and `clear` are the operations modelled above.
- main.rs: it drives a `GoL` type whose definition is not part of this model.
- Concrete patterns (block still life, glider translation): not stated; the model proves the general rule, locality and the empty fixed point instead.
- Kernel.NextGen: requires (`Kernel.Steppable`) a rectangular board, since on a jagged one the scan wraps columns by the first row's length and can index past the end of a shorter row, and sides of at most 2^30, where the source's `usize` to `i32` casts are exact and `emod` cannot overflow; neither the out-of-range panic on jagged boards nor the wrap-around of the casts on larger boards is modelled. Every board `new`, `clear` and `randomize` build is rectangular with sides clamped to 125.
