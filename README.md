# GluttonSweeper board core in Dafny

This project models the core of GluttonSweeper, a Minesweeper game. It has three parts.

- **The tile codec** (`tile.dfy`, module `Tile`). Every cell is one unsigned byte whose value packs the whole cell state:
  - 0..9 are revealed tiles (0 is empty, 1..8 count adjacent mines, 9 is a mine);
  - 10..19 are unrevealed tiles;
  - 20..29 are flagged tiles;
  - 30..39 are unrevealed tiles marked by a chord preview.

  The value modulo 10 is always the tile's base value. The transitions are `Reveal`, `Flag`, `Unflag`, `PreChord` and `UnPreChord`.
- **The board** (`board.dfy`, class `GameBoard.Board`; grid-level definitions and lemmas in `board_grid.dfy`, module `BoardGrid`). The board holds:
  - a grid of tiles, `tiles[y][x]`;
  - the width, height and mine count;
  - the flag count;
  - the game-over and game-won flags;
  - the anchor of an active chord preview;
  - the "mines placed" flag and the "dirty" (redraw) flag.

  Its methods update these fields in place, as the C++ object does:
  - setup: `Initialize`, `PlaceMines`, `CalculateAdjacentMines`;
  - reveal: `RevealTile` with its breadth-first flood fill `RevealAdjacentTiles`, `RevealAll`;
  - flags and game end: `ToggleFlag`, `CheckWinCondition`;
  - the two-phase chord: `StartPreChord`, `CancelPreChord`, `ExecuteChord`.

  The class invariant `Valid` says:
  - every tile is encoded;
  - `flagCount` is the number of flagged tiles;
  - a won game is over;
  - chord marks sit only around the active anchor;
  - every tile that is not a mine holds the number of its neighbours that are mines.
- **The tile layout calculator** (`tile_layout.dfy`, module `TileLayout`). `Calculate` is pure integer arithmetic. It picks a tile size that lets a padded grid fit a viewport less its pixel margins, then derives the window size, the board origin and a font size. C++ `int` division, which truncates toward zero, is written out as `TruncDiv`.

Where the chosen model departs from the code:
- The random shuffle of mine placement is a permutation `perm` passed to `Initialize`.
- `std::optional` is `Option`.
- A `BoardPosition` is the datatype `Pos(x, y)`.
- `forEachNeighbour` is `BoardGrid.Neighbours`. Its definition is not part of this model. The model assumes it visits the in-bounds cells among the eight around a cell, row by row from above-left to below-right. The order matters only to the order in which a chord reveals neighbours.

`Board.hpp` in the repository is an older revision than `Board.cpp`. It lacks `BoardPosition`, `chordedTile`, `minesPlaced`, `markDirty`, `IsPreChordActive` and the boolean `ExecuteChord`. The model follows `Board.cpp`.

`Tile::PreChord`, `Tile::UnPreChord` and `Tile::IsPreChorded` are called from `Board.cpp:104` and `Board.cpp:118-119`, but `Tile.hpp` does not define them. The model encodes the preview mark as base value + 30. The mark is set only on unrevealed, unflagged tiles, keeps the base value, and `UnPreChord` undoes it.

## Model

| member | source | states |
|---|---|---|
| Tile.ToByte | GluttonSweeper/Tile.hpp:84-86 | the cast to `uint8_t` keeps an int modulo 256 and leaves a value already in 0..255 unchanged |
| Tile.GetAdjacentMines | GluttonSweeper/Tile.hpp:64-75 | the base value is at most 9; it is 9 exactly for a mine; an encoded tile is its base value plus 0, 10, 20 or 30 |
| Tile.Reveal | GluttonSweeper/Tile.hpp:77-82 | no-op on revealed or flagged tiles; an unrevealed (or marked) tile becomes a different, revealed tile; base value, mine-ness and flag state are kept |
| Tile.CreateUnrevealed | GluttonSweeper/Tile.hpp:84-86 | for a count n in 0..9 the tile is unrevealed, unflagged and unmarked, has base value n, and is a mine iff n = 9 |
| Tile.Flag | GluttonSweeper/Tile.hpp:88-97 | no-op on revealed or flagged tiles; an unrevealed tile becomes flagged with the same base value; mine-ness kept; the result carries no chord mark |
| Tile.Unflag | GluttonSweeper/Tile.hpp:99-105 | no-op on unflagged tiles; a flagged tile becomes unrevealed and unflagged with the same base value |
| Tile.PreChord | GluttonSweeper/Board.cpp:100-106 | a plain unrevealed tile becomes marked with the same base value; revealed, flagged or marked tiles are unchanged; revealed and flagged states kept |
| Tile.UnPreChord | GluttonSweeper/Board.cpp:115-122 | a marked tile becomes a different, plain unrevealed tile; others are unchanged; the result is never marked; base value kept |
| Tile.DispositionsExclusive | GluttonSweeper/Tile.hpp:60-71 | revealed iff below 10, flagged iff 20..29; no tile is both revealed and flagged, nor marked and revealed or flagged; every encoded tile is in one of the four ranges |
| Tile.RevealIdempotent | GluttonSweeper/Tile.hpp:77-82 | revealing twice is revealing once |
| Tile.UnflagFlag | GluttonSweeper/Tile.hpp:88-105 | flagging an unrevealed tile changes it, and unflagging then gives it back |
| Tile.FlagUnflag | GluttonSweeper/Tile.hpp:88-105 | unflagging a flagged tile and flagging it again gives it back |
| Tile.UnPreChordPreChord | GluttonSweeper/Board.cpp:100-122 | marking a plain unrevealed tile changes it, and unmarking then gives it back |
| Tile.DocumentedRangeClosed | GluttonSweeper/Tile.hpp:7-10 | Reveal, Flag and Unflag map the documented range 0..29 into itself |
| BoardGrid.Set | GluttonSweeper/Board.cpp:173-179 | writing a tile in place keeps the grid's shape and changes only that tile |
| BoardGrid.Neighbours | GluttonSweeper/Board.cpp:70-78 | the cells `forEachNeighbour` visits are exactly the in-bounds cells adjacent to the given one, at most 8 |
| BoardGrid.NeighboursDistinct | GluttonSweeper/Board.cpp:70-78 | `forEachNeighbour` visits each neighbour once |
| BoardGrid.ChordMark | GluttonSweeper/Board.cpp:101-106 | the preview's step on a neighbour marks plain unrevealed tiles and leaves revealed and flagged ones alone, keeping base values |
| BoardGrid.Queued | GluttonSweeper/Board.cpp:205-217 | a neighbour is queued by the flood fill iff it may be uncovered (unrevealed, unflagged, not a mine) and has no adjacent mines |
| BoardGrid.UncoverStep | GluttonSweeper/Board.cpp:205-217 | one step of the neighbour loop: the neighbour is still untouched, is uncovered iff it may be, is queued iff it is also a zero, and each uncovering lowers the unrevealed count by one |
| BoardGrid.UncoverAdvance | GluttonSweeper/Board.cpp:205-217 | the neighbour loop's state (tiles so far, queue so far, unrevealed count bound) is kept by one step |
| BoardGrid.FillRound | GluttonSweeper/Board.cpp:201-218 | one round from a zero seed uncovers only floodable tiles and settles the seed; it keeps every seed, settled tile and supported tile; its new seeds are exactly the queued neighbours |
| BoardGrid.RoundSeeds | GluttonSweeper/Board.cpp:201-218 | a round keeps seeds and settled tiles, and its new seeds are the queued ones |
| BoardGrid.FillStart | GluttonSweeper/Board.cpp:198-199 | the fill starts with the start tile queued and nothing processed, and its loop invariant holds |
| BoardGrid.FillAdvance | GluttonSweeper/Board.cpp:201-218 | processing the head of the queue keeps the fill's loop invariant |
| BoardGrid.FillDone | GluttonSweeper/Board.cpp:201-219 | with the queue empty, the fill only uncovered floodable tiles, no zero seed has a floodable neighbour left, and every uncovered tile touches a seed |
| BoardGrid.SeedsIgnoreStart | GluttonSweeper/Board.cpp:179-190 | the fill's closure and support are the same whether stated before or after the start tile was revealed |
| BoardGrid.ApplyAtDistinct | GluttonSweeper/Board.cpp:101-107 | a loop over distinct neighbours applies its update once to each listed tile and leaves every other tile alone |
| BoardGrid.NumberingKeeps | GluttonSweeper/Board.cpp:59-68 | at every point of the numbering sweep, mines stay mines and every tile stays unrevealed and unflagged |
| BoardGrid.NumberingSpec | GluttonSweeper/Board.cpp:59-68 | after the sweep every non-mine tile holds its number of adjacent mines; mines and the mine count are unchanged |
| BoardGrid.FreshBoard | GluttonSweeper/Board.cpp:15-32 | a board of plain unrevealed tiles is encoded, has no flags and no chord marks |
| BoardGrid.MinesKept | GluttonSweeper/Board.cpp:53-68 | numbering a board whose mines are exactly the placed ones leaves the mines exactly there |
| BoardGrid.UnPreChordAll | GluttonSweeper/Board.cpp:110-126 | cancelling a preview unmarks every tile and changes nothing else |
| BoardGrid.UnPreChordAllKeeps | GluttonSweeper/Board.cpp:110-126 | unmarking keeps encoding, the flag count and consistent counts, and leaves no mark |
| BoardGrid.CancelAround | GluttonSweeper/Board.cpp:115-122 | when marks sit only around the anchor, unmarking the anchor's neighbours removes every mark on the board |
| BoardGrid.MarkAround | GluttonSweeper/Board.cpp:97-107 | marking around an anchor on an unmarked board changes only the anchor's neighbours, places marks only around it, and keeps encoding, flag count and consistent counts |
| BoardGrid.PreviewSpec | GluttonSweeper/Board.cpp:80-108 | a preview removes every old mark and, when the anchor is a revealed number, marks exactly its unrevealed unflagged neighbours; the board invariants are kept |
| BoardGrid.UpdateKeeps | GluttonSweeper/Board.cpp:226-236 | changing one tile to an encoded value with the same base value keeps the invariants and moves the flag count by that tile's change |
| BoardGrid.SameFlagsAndBases | GluttonSweeper/Board.cpp:221-241 | changes that keep every flag and base value keep the flag count and consistent counts |
| BoardGrid.RevealsOnlyKeeps | GluttonSweeper/Board.cpp:179-190 | revealing tiles never un-reveals a tile nor changes a flag, and keeps the flag count, chord marks' placement and consistent counts |
| BoardGrid.RevealsOnlyTransitive | GluttonSweeper/Board.cpp:159-163 | revealing after revealing is revealing |
| BoardGrid.ChangedWithinStep | GluttonSweeper/Board.cpp:160-163 | a RevealTile call that changes only its own tile or tiles open to flooding, after earlier such calls on the neighbour list, leaves every change confined to that list or to tiles open to flooding at the start |
| BoardGrid.MineUncoveredAt | GluttonSweeper/Board.cpp:179-185 | a mine revealed by a call that found its tile covered was covered at the start of the reveals that preceded it |
| BoardGrid.NoMineUncoveredStep | GluttonSweeper/Board.cpp:179-194 | a RevealTile call that finds no mine on its own tile and changes only that tile or tiles open to flooding uncovers no mine: any mine uncovered since the start was uncovered before the call |
| BoardGrid.FloodRevealsIsRevealsOnly | GluttonSweeper/Board.cpp:205-217 | what the flood fill does is a case of revealing tiles |
| BoardGrid.RowCandidatesSpec | GluttonSweeper/Board.cpp:37-45 | one row of the candidate list holds each cell of the row except the safe one, once |
| BoardGrid.CandidatesSpec | GluttonSweeper/Board.cpp:35-46 | the candidate list holds every in-bounds cell except the safe one, each once: width·height of them, one fewer when the safe cell is on the board |
| BoardGrid.Shuffle | GluttonSweeper/Board.cpp:48-51 | the shuffled list has the same length, only candidates, and no repeats when the candidates have none |
| BoardGrid.MinesToPlace | GluttonSweeper/Board.cpp:53 | the placement loop places mineCount mines, but never more than there are candidates |
| BoardGrid.PlacedMinesSpec | GluttonSweeper/Board.cpp:34-57 | the placed mines are distinct cells of the board, never the safe cell; there are min(mineCount, width·height − (1 if the safe cell is on the board)) of them |
| BoardGrid.MineStep | GluttonSweeper/Board.cpp:53-56 | placing a mine on a cell not yet mined adds that cell and adds one to the mine count |
| GameBoard.Board.constructor | GluttonSweeper/Board.cpp:7-13 | a new board has the given dimensions, only unrevealed empty tiles, no flags, no chord, the game not over and not won; the invariant holds |
| GameBoard.Board.IsValidPosition | GluttonSweeper/Board.cpp:247-249 | a position passes the bounds check exactly when the tile grid has a tile there |
| GameBoard.Board.IsGameOver | GluttonSweeper/Board.hpp:51 | a game that is not over has not been won |
| GameBoard.Board.GetTile | GluttonSweeper/Board.cpp:243-245 | every tile read from a valid board is encoded and in one of the four dispositions |
| GameBoard.Board.GetFlagCount | GluttonSweeper/Board.hpp:48 | the flag count is the number of flagged tiles |
| GameBoard.Board.GetRemainingMines | GluttonSweeper/Board.hpp:49 | mines minus flagged tiles, without a clamp, so it may be negative |
| GameBoard.Board.IsGameWon | GluttonSweeper/Board.hpp:52 | a won game is over |
| GameBoard.Board.IsPreChordActive | GluttonSweeper/Board.cpp:110-113 | with no active chord no tile is marked |
| GameBoard.Board.CountAdjacentTiles | GluttonSweeper/Board.cpp:70-78 | the loop counts the neighbours whose tile satisfies the predicate |
| GameBoard.Board.Initialize | GluttonSweeper/Board.cpp:15-32 | the new game satisfies the invariant; the game is not over, no flags, no chord; mines placed and dirty; every tile unrevealed and unflagged; a tile is a mine iff it is one of the placed mines; the mine count is their number |
| GameBoard.Board.ClearTiles | GluttonSweeper/Board.cpp:16-21 | every tile becomes an unrevealed empty tile |
| GameBoard.Board.PlaceMines | GluttonSweeper/Board.cpp:34-57 | each placed mine's tile becomes an unrevealed mine and every other tile stays unrevealed empty; the grid holds exactly that many mines |
| GameBoard.Board.CandidatePositions | GluttonSweeper/Board.cpp:35-46 | the nested loop builds the candidate list: every cell but the safe one, row by row |
| GameBoard.Board.CalculateAdjacentMines | GluttonSweeper/Board.cpp:59-68 | after the sweep every non-mine tile holds its number of adjacent mines; mines and the mine count are kept; tiles stay unrevealed and unflagged |
| GameBoard.Board.RevealTile | GluttonSweeper/Board.cpp:168-194 | returns true iff the position is valid, the game not over and the tile unrevealed and unflagged, and changes nothing otherwise; a mine ends the game, lost, with only that tile changed; a number changes only that tile; a zero also floods (closed and supported); on a safe reveal the game is won, and over, exactly when the revealed safe tiles number width·height − mineCount; the invariant is kept |
| GameBoard.Board.RevealAdjacentTiles | GluttonSweeper/Board.cpp:196-219 | the flood fill terminates, uncovers only unrevealed, unflagged, non-mine tiles, leaves no floodable neighbour of a zero seed covered, and uncovers only tiles next to a seed |
| GameBoard.Board.UncoverNeighbours | GluttonSweeper/Board.cpp:205-217 | the neighbour loop uncovers each floodable neighbour, returns the zeros among them in order for the queue, and lowers the unrevealed count by at least their number |
| GameBoard.Board.CheckWinCondition | GluttonSweeper/Board.cpp:251-268 | the game is won and over when the revealed non-mine tiles number width·height − mineCount, and unchanged otherwise |
| GameBoard.Board.RevealAll | GluttonSweeper/Board.cpp:270-277 | every tile is revealed unless flagged; the invariant is kept and the board is dirty |
| GameBoard.Board.ToggleFlag | GluttonSweeper/Board.cpp:221-241 | returns true iff the position is valid, the game not over and the tile unrevealed; then that tile becomes Unflag of the old tile when it was flagged and Flag of it otherwise, so the flag toggles on that tile only, keeps its base value and moves flagCount by one, keeping it equal to the number of flags; otherwise it changes nothing |
| GameBoard.Board.StartPreChord | GluttonSweeper/Board.cpp:80-108 | with a bad position or a finished game nothing changes, including an existing chord; otherwise the grid becomes the whole-board preview reference: every old mark removed, and the anchor's unrevealed unflagged neighbours marked exactly when it is a revealed number, which is then the stored anchor |
| GameBoard.Board.AnchorChord | GluttonSweeper/Board.cpp:90-107 | with no preview left, a revealed number becomes the anchor and the neighbour loop marks around it; any other tile leaves the board unchanged; the invariant is kept |
| GameBoard.Board.MarkNeighbours | GluttonSweeper/Board.cpp:100-107 | the neighbour loop applies the preview's mark step to each neighbour |
| GameBoard.Board.CancelPreChord | GluttonSweeper/Board.cpp:110-126 | a no-op without an active chord, so calling it twice is calling it once; otherwise every mark is removed and the chord cleared; the invariant is kept |
| GameBoard.Board.UnmarkNeighbours | GluttonSweeper/Board.cpp:115-122 | the neighbour loop unmarks each marked neighbour |
| GameBoard.Board.ExecuteChord | GluttonSweeper/Board.cpp:128-166 | false with no change when no chord is active; otherwise the preview is always cancelled; returns true iff the game is not over and the anchor is still a revealed number; with a flag mismatch nothing but the cancel happens; with a match only reveals happen, every changed tile is a neighbour of the anchor or was open to flooding, every neighbour ends revealed or flagged unless the game ended; the game ends newly exactly as RevealTile decides: a game that ends is won or has a newly revealed mine, a newly revealed mine means the game is over and lost, a new win means the revealed safe tiles number width·height − mineCount, and a chord that changed tiles but left the game running stopped short of that number |
| GameBoard.Board.RevealNeighbours | GluttonSweeper/Board.cpp:159-163 | calling RevealTile on each neighbour only reveals tiles, changes only the neighbours and tiles open to flooding, keeps the invariant, and leaves every neighbour revealed or flagged unless the game ended; a game that ends here is won or has a newly revealed mine, and a newly revealed mine means the game is over and lost; a new win means the revealed safe tiles number width·height − mineCount, and when tiles changed but the game goes on the revealed safe tiles fall short of that number |
| TileLayout.TruncDiv | GluttonSweeper/TileLayout.cpp:3-6 | C++ division by a positive divisor: the quotient rounds toward zero |
| TileLayout.SnapDownToMultiple | GluttonSweeper/TileLayout.cpp:3-6 | unchanged for a multiple ≤ 1; otherwise a multiple of it, the largest one not above a non-negative value, rounding toward zero for a negative one |
| TileLayout.AvailableWidth | GluttonSweeper/TileLayout.cpp:22 | the viewport width less the side margins, never negative |
| TileLayout.AvailableHeight | GluttonSweeper/TileLayout.cpp:23 | the viewport height less the top and bottom margins, never negative |
| TileLayout.MaxTileFor | GluttonSweeper/TileLayout.cpp:33-38 | with tiles to fit, the largest size whose total fits the available pixels; the unit size when there are none |
| TileLayout.ChooseTileSize | GluttonSweeper/TileLayout.cpp:26-45 | the preferred size when it fits both extents; otherwise at least the unit size, a multiple of it when the unit exceeds 1, and the largest such size: one unit more overflows an extent, and a size above the unit fits both |
| TileLayout.SnappedIsLargest | GluttonSweeper/TileLayout.cpp:33-44 | the largest fitting size, snapped down and raised to the unit, is the largest multiple of the unit that fits, unless it had to be raised |
| TileLayout.Calculate | GluttonSweeper/TileLayout.cpp:8-62 | the total tiles include the padding; the tile size is the chosen one; the padded grid exactly fills the window from the origin at the left and top padding; the font is two thirds of the tile, rounded up |
| TileLayout.DefaultMargins | GluttonSweeper/TileLayout.cpp:64-68 | windowed mode reserves space at the top and bottom only |
| TileLayout.DefaultMarginsAvailable | GluttonSweeper/TileLayout.cpp:64-68 | the default margins take 72 pixels off the height and none off the width |
| TileLayout.TileSizeAtMostPreferred | GluttonSweeper/TileLayout.cpp:31-45 | the preferred size is also the maximum when it is non-negative and the unit does not exceed it; a size that did not fit gives a strictly smaller tile |
| TileLayout.NoLargerTileFits | GluttonSweeper/TileLayout.cpp:31-52 | when the preferred size does not fit, a tile one unit larger than the chosen one would overflow the available area |
| TileLayout.WindowFits | GluttonSweeper/TileLayout.cpp:31-52 | the window fits the available area unless the tile size was raised to the unit size |
| TileLayout.DefaultTileSizes | GluttonSweeper/TileLayout.hpp:29-32 | with the default constraints a tile is 128 pixels, or a multiple of 16 from 16 to 112 |

## Left out

- Rendering, screens, resource managers, the game timer and monitor queries are not part of this model. Only the `ViewportPx` record is carried over, as the layout's input.
- Mine placement's randomness (`std::random_device`, `std::mt19937`, `std::shuffle`) is the permutation parameter `perm`.
- The view clears the dirty flag after drawing; that clearing is not modelled. `markDirty` is the assignment `dirty := true`.
- C++ `int` overflow is not modelled. Layout products and board counters are unbounded integers. The tile byte's own wrap-around is written out in `Tile.ToByte`.
- Default arguments are not modelled. `Initialize`'s safe position is an explicit `Option`, and callers pass `None` for the default.
- `GetWidth`, `GetHeight` and `GetMineCount` are the board's `const` fields, read directly.
- The loop bodies that `Board.cpp` passes to `forEachNeighbour`, and two setup loops, are separate methods:
  - `ClearTiles` (`Initialize`'s reset loop);
  - `CandidatePositions` (`placeMines`' list loop);
  - `MarkNeighbours`, `UnmarkNeighbours`, `UncoverNeighbours`, `RevealNeighbours`;
  - `AnchorChord` (`StartPreChord` after its cancel).

  Their effect on the fields is the same.
- `UncoverNeighbours` returns the tiles to queue instead of pushing them onto the queue itself; `RevealAdjacentTiles` appends them.
- Early `return`s of `RevealTile`, `ToggleFlag` and `StartPreChord` are written as nested `if`s with one exit.
- Tile values 40..255 have no meaning in the codec. The board invariant keeps every tile below 40.
- Flag and Reveal on a pre-chord-marked tile are a choice of this model, because that revision of `Tile.hpp` has no marked states. Flag turns a marked tile into a flagged one, as it does a plain unrevealed tile. Reveal uncovers it.
- GameBoard.Board.RevealAdjacentTiles: the result is characterised by what it may uncover, closure and support, not pinned to the exact least region reachable from the start. A separate region of zeros not connected to the start is not excluded by the contract.
- GameBoard.Board.RevealTile: the flood part inherits the weaker characterisation of RevealAdjacentTiles.
- GameBoard.Board.ExecuteChord: a matched chord is stated by its outcome, not as the exact grid after the sequence of RevealTile calls. The outcome: only reveals; changes confined to the neighbours and to tiles open to flooding; a newly revealed mine ends the game lost, a game that ends is won or has such a mine, a new win is the win count, and a chord that changed tiles without ending the game is short of it. Which neighbour ended the game and the grid after the remaining unchanged calls are not stated.
- GameBoard.Board.RevealNeighbours: stated by its outcome, as for ExecuteChord.
- GameBoard.Board.StartPreChord: the dirty flag is stated one way. A call that leaves it clear left the tiles unchanged; a call that sets it is not promised to have changed a tile.
- GameBoard.Board.AnchorChord: the dirty flag is stated one way, as for StartPreChord.
- GameBoard.Board.CancelPreChord: the dirty flag is stated one way, as for StartPreChord.
- GameBoard.Board.MarkNeighbours: the dirty flag is stated one way, as for StartPreChord.
- GameBoard.Board.UnmarkNeighbours: the dirty flag is stated one way, as for StartPreChord.
- GameBoard.Board.UncoverNeighbours: the dirty flag is stated one way, as for StartPreChord.
- GameBoard.Board.RevealAdjacentTiles (dirty): the dirty flag is stated one way, as for StartPreChord.
- GameBoard.Board.CheckWinCondition: the win count is width·height − mineCount, as in the source. When placement capped the mines below mineCount, the revealed safe tiles never reach that count, so such a board cannot be won; the model keeps the comparison and does not promise a reachable win.
- TileLayout.DefaultMargins: its contract states the shape of the margins (top and bottom only). The exact 72-pixel total is in DefaultMarginsAvailable. The split into 32 and 40 is in the body only.
- TileLayout.WindowFits: nothing is promised when the tile size had to be raised to the unit size; the window may then exceed the viewport.
