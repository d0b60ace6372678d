# Snake simulation engine in Dafny

This project models the simulation engine of a Snake game (`src/model.rs`):
a snake moving on a toroidal `width` x `height` grid, eating food, growing,
and losing when its next head cell is already part of its body.

- `model.dfy`, module `Model`:
  - the values: `Direction`, `Position`, `Tile`, `Board` and `GameStep`;
  - the direction algebra: `Opposite`, and `Resolve`, the reversal override at the top of `Game::step`;
  - toroidal movement: `NextHead`, proved equal to a modular reference move `Shifted`. It takes the head and the dimensions as parameters, where `Game::next_head` reads them from the game;
  - food placement: `Cells` enumerates the grid in row-major order, `Free`/`Candidates` filter out the body, and the method `NextFood` picks some candidate with a `:|` choice that stands for the random draw;
  - board derivation: `NewBoard` allocates an all-`Empty` array and overwrites it with the food, every body cell and then the head. It is proved equal to `BoardOf`, the painting order written as a function. `Rows` is `Board::iter`;
  - the `Game` class, with the fields `width`, `height`, `snake` (a `seq<Position>` for the `VecDeque`, head first), `food` and `lastDirection`, its invariant `Valid()`, the constructor (`Game::new`), `Head`, `CurrentBoard` (`Game::board`) and `Step`.
- `scenarios.dfy`, module `Scenarios`: a client session on the 12 x 12 grid that the program's entry point uses.

The invariant `Valid()` (`WellFormed`) says four things:
- the body is non-empty;
- every body cell is inside the grid;
- the body cells are pairwise distinct;
- the food is an in-grid cell off the body, or it is absent and the body covers every cell.

The constructor establishes it and `Step` preserves it. `CoversIffFull` shows that "covers every cell" is the same as "the body has `width * height` cells".

The fixed start cells (7,5), (7,6), (7,7), (6,7) and (5,7) lie inside the grid only when both dimensions are at least 8, so the constructor requires `width >= 8 && height >= 8`; `Game::new` does not check this. The model's constructor cannot build a game on a smaller grid. In the source, `Game::new` still returns one: on a 3 x 3 grid the first `Board::new` then panics on tile index 22 of 9, and on a grid such as 7 x 100 the out-of-grid cells land on other cells of the flat tile vector.

Moving into the current tail cell loses even when the tail would have moved away on that tick. The source does this, and `Step` states it as written.

## Model

| member | source | states |
|---|---|---|
| `Model.Opposite` | src/model.rs:16-23 | the opposite direction is never the direction itself, and it stays on the same axis (vertical maps to vertical) |
| `Model.OppositeInvolutive` | src/model.rs:16-23 | taking the opposite twice gives back the original direction |
| `Model.Resolve` | src/model.rs:123-127 | the resolved direction is never the reverse of the last one; it equals the request exactly when the request is not that reverse, and otherwise it is the last direction |
| `Model.NextHead` | src/model.rs:145-181 | from an in-grid head the next head is in the grid and equals the modular one-cell shift in the given direction, each coordinate wrapped independently |
| `Model.NextHeadReversible` | src/model.rs:145-181 | moving in a direction and then in its opposite returns to the starting cell |
| `Model.NextHeadWraps` | src/model.rs:145-181 | Up from row 0 goes to row `height - 1`, Down from the last row to row 0, Left from column 0 to column `width - 1`, Right from the last column to column 0, and the other coordinate is kept |
| `Model.Cells` | src/model.rs:188-190 | the row-major enumeration has `width * height` cells, holds no repeats, and holds exactly the in-grid cells |
| `Model.Free` | src/model.rs:191 | the filter keeps exactly the cells that are not on the body |
| `Model.Candidates` | src/model.rs:188-191 | the food candidates are exactly the in-grid cells that are not on the body |
| `Model.NextFood` | src/model.rs:183-197 | the result is an in-grid cell off the body, or `None` exactly when the body covers the grid; for a distinct in-grid body, `None` exactly when the body has `width * height` cells |
| `Model.CoversIffFull` | src/model.rs:188-196 | a body of distinct in-grid cells covers every cell exactly when its length is `width * height` |
| `Model.IndexInGrid` | src/model.rs:71-78 | the flat index `y * width + x` of an in-grid cell is below `width * height`, and different in-grid cells get different indices |
| `Model.BoardOf` | src/model.rs:60-70 | the derived board keeps the dimensions and has `width * height` tiles |
| `Model.NewBoard` | src/model.rs:60-80 | the array filled in place, food first, then every body cell, then the head, equals `BoardOf`: the head's index shows `Head`, other body indices show `Snake`, the food's index shows `Food`, and all other indices show `Empty`. So two derivations from the same state give the same board |
| `Model.BoardCell` | src/model.rs:60-80 | for an in-grid state, a cell shows `Head` exactly at the head, `Snake` exactly on the other body cells, `Food` exactly at food off the body, and `Empty` exactly where there is neither |
| `Model.Rows` | src/model.rs:82-84 | the rows of a board concatenate back to its tiles in order, and each row holds between 1 and `width` tiles; `RowsOfBoard` gives the exact `height` x `width` shape |
| `Model.Chunks` | src/model.rs:82-84 | splitting into pieces of `width` loses and reorders nothing (the pieces concatenate back to the tiles), and every piece has between 1 and `width` tiles |
| `Model.ChunkAt` | src/model.rs:82-84 | a sequence of `k` times `n` tiles splits into exactly `k` pieces, and piece `i` holds the tiles from `i * n` up to `i * n + n` |
| `Model.RowsOfBoard` | src/model.rs:82-84 | iterating a derived board gives `height` rows of `width` tiles, and tile `x` of row `y` is the tile of cell `(x, y)` |
| `Model.GrowBody` | src/model.rs:133-136 | pushing a free in-grid head keeps the body distinct and in the grid, one cell longer, with every old cell kept |
| `Model.SlideBody` | src/model.rs:133-138 | pushing a free in-grid head and popping the tail keeps the body distinct and in the grid at the same length; the old tail cell is vacated and every other cell kept |
| `Model.Game.constructor` | src/model.rs:103-120 | a new game holds the fixed five-cell body, heads Up, has food, and satisfies the invariant |
| `Model.Game.Head` | src/model.rs:199-201 | the head is the front cell of the body and, in a valid game, lies in the grid |
| `Model.Game.CurrentBoard` | src/model.rs:203-205 | the snapshot is the board derived from the current dimensions, food and body |
| `Model.Game.Step` | src/model.rs:122-143 | the step keeps the invariant. If the next head is any current cell, tail included, it returns `Lose` and body, food and last direction are unchanged. Otherwise the last direction becomes the resolved one. On eating, the body is the new head before the old body and food is `None` exactly when the body fills the grid. Otherwise the body is the new head before the old body without its tail, and food is unchanged. The result is `Continue` with the derived board |
| `Scenarios.UpAcrossTheTopEdge` | src/model.rs:103-181 | on a 12 x 12 grid, six Up steps from the start all return `Continue`, whatever food is placed; the head climbs to row 0 and then wraps to row 11 |

## Left out

- `src/controller.rs` is not part of this model. It holds the driving loop: a thread, two channels, wall-clock ticks with drift correction and 1 ms sleeps. Its logic is concurrency and timing: it waits for `Start` and keeps the last `Move` received before each tick.
- `src/view.rs` and `src/main.rs` are not part of this model. They hold SDL window setup, keyboard polling, colours and drawing, and the wiring between them.
- Random directions (`impl rand::Rand for Direction`) and the text rendering (`impl fmt::Display` for `Game` and `GameView`) are presentation and randomness, not game rules.
- NextFood: does not state that the draw is uniform over the candidates. The random number generator is replaced by a nondeterministic choice of one candidate, so the model proves only that some free cell is chosen.
- Machine integers: `usize` is modelled as unbounded `nat`. Overflow of `width * height` or `y * width + x` is not modelled; it cannot occur for grids that fit in memory.
- Panics: an index outside the tile vector in `Board::new`, `height - 1` or `width - 1` underflowing on an empty grid in `Game::next_head`, and `chunks(0)` in `Board::iter` are all panics in the source. The model turns each into a `requires`: indices below `width * height`, positive dimensions, and a positive width.
- The `VecDeque` body is a sequence value reassigned by `Step`. The deque's ring-buffer layout is not modelled.
