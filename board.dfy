/**
 * The game board: a grid of encoded tiles plus the counters and flags of one
 * game. Every operation works on the grid in place, as the board object does.
 */
module GameBoard {
  import opened Tile
  import opened BoardGrid

  class Board {
    const width: nat
    const height: nat
    const mineCount: int
    var flagCount: int
    /** tiles[y][x] is the tile in column x of row y. */
    var tiles: Tiles
    var gameOver: bool
    var gameWon: bool
    /** The anchor of the active chord preview, if there is one. */
    var chordedTile: Option<Pos>
    var minesPlaced: bool
    /** Set by every change that needs the board to be drawn again. */
    var dirty: bool

    /** The board's invariant. */
    ghost predicate Valid()
      reads this
    {
      && Shaped(tiles, width, height)
      && AllEncoded(tiles)
      && flagCount == CountGrid(tiles, IsFlagged)
      && (gameWon ==> gameOver)
      && (chordedTile.Some? ==> InBounds(chordedTile.value, width, height))
      && PreChordsAround(tiles, width, height, chordedTile)
      && CountsConsistent(tiles, width, height)
    }

    /** A w by h board of unrevealed empty tiles, no mines placed yet. */
    constructor (w: int, h: int, mines: int)
      requires w >= 0 && h >= 0
      ensures Valid()
      ensures width == w && height == h && mineCount == mines
      ensures flagCount == 0 && !gameOver && !gameWon && chordedTile.None? && !minesPlaced && !dirty
      ensures forall p :: InBounds(p, w, h) ==> At(tiles, p) == UNREVEALED_EMPTY
    {
      width, height, mineCount := w, h, mines;
      flagCount := 0;
      tiles := seq(h, _ => seq(w, _ => UNREVEALED_EMPTY));
      gameOver, gameWon := false, false;
      chordedTile := None;
      minesPlaced := false;
      dirty := false;
      new;
      CountGridNone(tiles, IsFlagged);
      forall p | InBounds(p, w, h)
        ensures ConsistentAt(tiles, p, w, h)
      {
        CountAtNone(tiles, Neighbours(p, w, h), IsMine);
      }
    }

    // -------------------------------------------------------------------------
    // Queries

    /** A position is valid exactly when the grid has a tile there. */
    function IsValidPosition(pos: Pos): (r: bool)
      reads this
      requires Shaped(tiles, width, height)
      ensures r <==> InGrid(tiles, pos)
    {
      InBounds(pos, width, height)
    }

    function GetTile(pos: Pos): (t: TileValue)
      reads this
      requires Valid() && InBounds(pos, width, height)
      ensures IsEncoded(t)
      ensures IsRevealed(t) || IsFlagged(t) || IsPreChorded(t) || UNREVEALED_OFFSET <= t < FLAGGED_OFFSET
    {
      At(tiles, pos)
    }

    function GetFlagCount(): (n: int)
      reads this
      requires Valid()
      ensures n == CountGrid(tiles, IsFlagged)
      ensures 0 <= n
    {
      flagCount
    }

    /** Mines not yet accounted for by a flag; negative when there are more flags than mines. */
    function GetRemainingMines(): (r: int)
      reads this
      requires Valid()
      ensures r == mineCount - CountGrid(tiles, IsFlagged)
    {
      mineCount - flagCount
    }

    /** Whether the game has ended, lost or won; a game still going has not been won. */
    function IsGameOver(): (r: bool)
      reads this
      requires Valid()
      ensures !r ==> !gameWon
    {
      gameOver
    }

    function IsGameWon(): (r: bool)
      reads this
      requires Valid()
      ensures r ==> IsGameOver()
    {
      gameWon
    }

    function IsPreChordActive(): (r: bool)
      reads this
      requires Valid()
      ensures !r ==> forall p :: InBounds(p, width, height) ==> !IsPreChorded(At(tiles, p))
    {
      chordedTile.Some?
    }

    /** The number of neighbours of pos whose tile satisfies P. */
    method CountAdjacentTiles(pos: Pos, P: TileValue -> bool) returns (count: nat)
      requires Shaped(tiles, width, height)
      ensures count == CountAround(tiles, pos, width, height, P)
    {
      var ns := Neighbours(pos, width, height);
      count := 0;
      for i := 0 to |ns|
        invariant count == CountAt(tiles, ns[..i], P)
      {
        assert ns[..i + 1][..i] == ns[..i];
        if P(At(tiles, ns[i])) {
          count := count + 1;
        }
      }
      assert ns[..|ns|] == ns;
    }

    // -------------------------------------------------------------------------
    // Game setup

    /**
     * Starts a new game: clears the board, places the mines at the first
     * positions of the shuffled candidate list (every cell but the safe one,
     * row by row; perm is the shuffle) and numbers the other tiles.
     */
    method Initialize(safe: Option<Pos>, perm: seq<int>)
      requires Shaped(tiles, width, height)
      requires IsPermutation(perm, |Candidates(width, height, safe)|)
      modifies this
      ensures Valid()
      ensures !gameOver && !gameWon && flagCount == 0 && chordedTile.None? && minesPlaced && dirty
      ensures forall p :: InBounds(p, width, height) ==> UNREVEALED_OFFSET <= At(tiles, p) < FLAGGED_OFFSET
      ensures forall p :: InBounds(p, width, height) ==>
        (IsMine(At(tiles, p)) <==> p in PlacedMines(width, height, safe, perm, mineCount))
      ensures CountGrid(tiles, IsMine) == |PlacedMines(width, height, safe, perm, mineCount)|
    {
      ClearTiles();
      gameOver, gameWon, flagCount, chordedTile := false, false, 0, None;

      PlaceMines(safe, perm);
      ghost var mines := PlacedMines(width, height, safe, perm, mineCount);
      ghost var placed := tiles;
      CalculateAdjacentMines();
      minesPlaced, dirty := true, true;

      MinesKept(placed, tiles, width, height, mines);
      FreshBoard(tiles, width, height);
    }

    /** The reset loop of Initialize: every tile becomes an unrevealed empty tile, row by row. */
    method ClearTiles()
      requires Shaped(tiles, width, height)
      modifies this`tiles
      ensures Shaped(tiles, width, height)
      ensures forall p :: InBounds(p, width, height) ==> At(tiles, p) == UNREVEALED_EMPTY
    {
      ghost var g0 := tiles;
      for y := 0 to height
        invariant AppliedBefore(g0, tiles, width, height, ClearAt, Pos(0, y))
      {
        for x := 0 to width
          invariant AppliedBefore(g0, tiles, width, height, ClearAt, Pos(x, y))
        {
          AppliedStep(g0, tiles, width, height, ClearAt, x, y);
          tiles := Set(tiles, Pos(x, y), UNREVEALED_EMPTY);
        }
        AppliedRow(g0, tiles, width, height, ClearAt, y);
      }
    }

    /** Turns the first mineCount shuffled candidates into mines; the rest stay empty. */
    method PlaceMines(safe: Option<Pos>, perm: seq<int>)
      requires Shaped(tiles, width, height)
      requires forall p :: InBounds(p, width, height) ==> At(tiles, p) == UNREVEALED_EMPTY
      requires IsPermutation(perm, |Candidates(width, height, safe)|)
      modifies this`tiles
      ensures Shaped(tiles, width, height)
      ensures forall p :: InBounds(p, width, height) ==>
        At(tiles, p) == if p in PlacedMines(width, height, safe, perm, mineCount) then UNREVEALED_MINE else UNREVEALED_EMPTY
      ensures CountGrid(tiles, IsMine) == |PlacedMines(width, height, safe, perm, mineCount)|
    {
      var positions := CandidatePositions(safe);
      CandidatesSpec(width, height, safe);
      var shuffled := Shuffle(positions, perm);
      ghost var k := MinesToPlace(mineCount, |shuffled|);
      CountGridNone(tiles, IsMine);
      var i := 0;
      while i < mineCount && i < |shuffled|
        invariant 0 <= i <= k
        invariant MinesAt(tiles, width, height, shuffled[..i])
        invariant CountGrid(tiles, IsMine) == i
      {
        var pos := shuffled[i];
        assert pos in positions;
        assert pos !in shuffled[..i] by {
          assert forall j :: 0 <= j < i ==> shuffled[j] != pos;
        }
        assert shuffled[..i + 1] == shuffled[..i] + [pos];
        MineStep(tiles, width, height, shuffled[..i], pos);
        tiles := Set(tiles, pos, UNREVEALED_MINE);
        i := i + 1;
      }
      assert shuffled[..i] == PlacedMines(width, height, safe, perm, mineCount);
    }

    /** The list-building loop of placeMines: every cell but the safe one, row by row. */
    method CandidatePositions(safe: Option<Pos>) returns (positions: seq<Pos>)
      ensures positions == Candidates(width, height, safe)
    {
      positions := [];
      for y := 0 to height
        invariant positions == Candidates(width, y, safe)
      {
        for x := 0 to width
          invariant positions == Candidates(width, y, safe) + RowCandidates(y, x, safe)
        {
          if safe.Some? && safe.value.x == x && safe.value.y == y {
            continue;
          }
          positions := positions + [Pos(x, y)];
        }
      }
    }

    /** Gives every tile that is not a mine the number of its neighbours that are mines. */
    method CalculateAdjacentMines()
      requires Shaped(tiles, width, height)
      requires forall p :: InBounds(p, width, height) ==> UNREVEALED_OFFSET <= At(tiles, p) < FLAGGED_OFFSET
      modifies this`tiles
      ensures Shaped(tiles, width, height)
      ensures CountsConsistent(tiles, width, height)
      ensures forall p :: InBounds(p, width, height) ==>
        IsMine(At(tiles, p)) == old(IsMine(At(tiles, p))) && UNREVEALED_OFFSET <= At(tiles, p) < FLAGGED_OFFSET
      ensures CountGrid(tiles, IsMine) == old(CountGrid(tiles, IsMine))
    {
      ghost var g0 := tiles;
      ghost var number := NumberAt(g0, width, height);
      for y := 0 to height
        invariant AppliedBefore(g0, tiles, width, height, number, Pos(0, y))
      {
        for x := 0 to width
          invariant AppliedBefore(g0, tiles, width, height, number, Pos(x, y))
        {
          NumberingKeeps(g0, tiles, width, height, Pos(x, y));
          AppliedStep(g0, tiles, width, height, number, x, y);
          if !IsMine(At(tiles, Pos(x, y))) {
            var adjacent := CountAdjacentTiles(Pos(x, y), IsMine);
            CountAroundSame(tiles, g0, Pos(x, y), width, height, IsMine);
            tiles := Set(tiles, Pos(x, y), CreateUnrevealed(adjacent));
          } else {
            SetSame(tiles, Pos(x, y));
          }
        }
        AppliedRow(g0, tiles, width, height, number, y);
      }
      NumberingSpec(g0, tiles, width, height);
    }

    // -------------------------------------------------------------------------
    // Revealing

    /**
     * Uncovers the tile at pos. A mine ends the game; a tile with no
     * adjacent mines also uncovers the connected empty area around it; then
     * the win condition is checked. Returns whether the tile was uncovered.
     */
    method RevealTile(pos: Pos) returns (changed: bool)
      requires Valid()
      modifies this`tiles, this`dirty, this`gameOver, this`gameWon
      ensures Valid()
      ensures changed <==> old(InBounds(pos, width, height) && !gameOver && !IsRevealed(At(tiles, pos)) && !IsFlagged(At(tiles, pos)))
      ensures !changed ==> unchanged(this)
      ensures RevealsOnly(old(tiles), tiles, width, height)
      ensures old(gameOver) ==> gameOver && gameWon == old(gameWon)
      ensures InBounds(pos, width, height) && !gameOver ==> IsRevealed(At(tiles, pos)) || IsFlagged(At(tiles, pos))
      ensures changed ==> IsRevealed(At(tiles, pos))
      ensures changed && old(IsMine(At(tiles, pos))) ==>
        && gameOver && !gameWon
        && forall p :: InBounds(p, width, height) && p != pos ==> At(tiles, p) == old(At(tiles, p))
      ensures changed && !old(IsMine(At(tiles, pos))) ==>
        && (forall p :: InBounds(p, width, height) && p != pos ==> At(tiles, p) == old(At(tiles, p)) || CanFlood(old(At(tiles, p))))
        && gameWon == gameOver
        && (gameWon <==> CountGrid(tiles, IsRevealedSafe) == width * height - mineCount)
      ensures changed && !old(IsMine(At(tiles, pos))) && old(GetAdjacentMines(At(tiles, pos))) != 0 ==>
        forall p :: InBounds(p, width, height) && p != pos ==> At(tiles, p) == old(At(tiles, p))
      ensures changed && old(GetAdjacentMines(At(tiles, pos))) == 0 ==>
        FillClosed(old(tiles), tiles, width, height, pos) && FillSupported(old(tiles), tiles, width, height, pos)
      ensures dirty == (old(dirty) || changed)
    {
      changed := false;
      if IsValidPosition(pos) && !gameOver {
        var tile := At(tiles, pos);
        if !IsRevealed(tile) && !IsFlagged(tile) {
          ghost var g0 := tiles;
          tiles := Set(tiles, pos, Reveal(tile));
          dirty := true;
          changed := true;
          assert RevealsOnly(g0, tiles, width, height);
          if IsMine(At(tiles, pos)) {
            gameOver := true;
          } else {
            if GetAdjacentMines(At(tiles, pos)) == 0 {
              ghost var g1 := tiles;
              RevealsOnlyKeeps(g0, g1, width, height, chordedTile);
              RevealAdjacentTiles(pos);
              FloodRevealsIsRevealsOnly(g1, tiles, width, height);
              RevealsOnlyTransitive(g0, g1, tiles, width, height);
              SeedsIgnoreStart(g0, g1, tiles, width, height, pos);
            }
            CheckWinCondition();
          }
          RevealsOnlyKeeps(g0, tiles, width, height, chordedTile);
        }
      }
    }

    /**
     * Breadth-first flood fill from a revealed tile with no adjacent mines:
     * uncovers every unflagged non-mine neighbour and continues from those
     * that have no adjacent mines either.
     */
    method RevealAdjacentTiles(start: Pos)
      requires Shaped(tiles, width, height) && AllEncoded(tiles)
      requires InBounds(start, width, height) && IsRevealed(At(tiles, start)) && GetAdjacentMines(At(tiles, start)) == 0
      modifies this`tiles, this`dirty
      ensures FloodReveals(old(tiles), tiles, width, height)
      ensures FillClosed(old(tiles), tiles, width, height, start)
      ensures FillSupported(old(tiles), tiles, width, height, start)
      ensures old(dirty) ==> dirty
      ensures !dirty ==> tiles == old(tiles)
    {
      ghost var g0 := tiles;
      ghost var processed: set<Pos> := {};
      var toProcess: seq<Pos> := [start];
      FillStart(g0, width, height, start);
      while |toProcess| > 0
        invariant FillInvariant(g0, tiles, width, height, start, toProcess, processed)
        invariant old(dirty) ==> dirty
        invariant !dirty ==> tiles == g0
        decreases CountGrid(tiles, IsUnrevealed), |toProcess|
      {
        FillAdvance(g0, tiles, width, height, start, toProcess, processed);
        var current := toProcess[0];
        var found := UncoverNeighbours(current);
        processed := processed + {current};
        toProcess := toProcess[1..] + found;
      }
      FillDone(g0, tiles, width, height, start, processed);
    }

    /**
     * The neighbour loop of the flood fill: uncovers each neighbour of
     * current the fill may uncover. Returns, in order, those it queues: the
     * uncovered ones with no adjacent mines.
     */
    method UncoverNeighbours(current: Pos) returns (found: seq<Pos>)
      requires Shaped(tiles, width, height) && AllEncoded(tiles)
      modifies this`tiles, this`dirty
      ensures tiles == ApplyAt(old(tiles), Neighbours(current, width, height), UncoverAt)
      ensures found == Queued(old(tiles), Neighbours(current, width, height))
      ensures CountGrid(tiles, IsUnrevealed) + |found| <= CountGrid(old(tiles), IsUnrevealed)
      ensures old(dirty) ==> dirty
      ensures !dirty ==> tiles == old(tiles)
    {
      var ns := Neighbours(current, width, height);
      NeighboursDistinct(current, width, height);
      found := [];
      for i := 0 to |ns|
        invariant UncoverState(old(tiles), ns, i, tiles, found)
        invariant old(dirty) ==> dirty
        invariant !dirty ==> tiles == old(tiles)
      {
        UncoverNext(old(tiles), ns, i, tiles, found);
        ghost var g, f := tiles, found;
        var neighbor := ns[i];
        var neighborTile := At(tiles, neighbor);
        if !IsRevealed(neighborTile) && !IsFlagged(neighborTile) && !IsMine(neighborTile) {
          tiles := Set(tiles, neighbor, Reveal(neighborTile));
          dirty := true;
          if GetAdjacentMines(neighborTile) == 0 {
            found := found + [neighbor];
          }
        }
        UncoverAdvance(old(tiles), ns, i, g, f, tiles, found);
      }
      assert ns[..|ns|] == ns;
    }

    /** Ends the game as won once every tile that is not a mine is revealed. */
    method CheckWinCondition()
      requires Shaped(tiles, width, height)
      modifies this`gameWon, this`gameOver
      ensures CountGrid(tiles, IsRevealedSafe) == width * height - mineCount ==> gameWon && gameOver
      ensures CountGrid(tiles, IsRevealedSafe) != width * height - mineCount ==> gameWon == old(gameWon) && gameOver == old(gameOver)
    {
      var revealedCount := 0;
      var totalSafeTiles := width * height - mineCount;
      for y := 0 to |tiles|
        invariant revealedCount == CountGrid(tiles[..y], IsRevealedSafe)
      {
        var row := tiles[y];
        for x := 0 to |row|
          invariant revealedCount == CountGrid(tiles[..y], IsRevealedSafe) + CountRow(row[..x], IsRevealedSafe)
        {
          assert row[..x + 1][..x] == row[..x];
          if IsRevealed(row[x]) && !IsMine(row[x]) {
            revealedCount := revealedCount + 1;
          }
        }
        assert row[..|row|] == row;
        assert tiles[..y + 1][..y] == tiles[..y];
      }
      assert tiles[..|tiles|] == tiles;
      if revealedCount == totalSafeTiles {
        gameWon := true;
        gameOver := true;
      }
    }

    /** Uncovers every tile that is not flagged (shown when the game is lost). */
    method RevealAll()
      requires Valid()
      modifies this`tiles, this`dirty
      ensures Valid()
      ensures forall p :: InBounds(p, width, height) ==> At(tiles, p) == Reveal(old(At(tiles, p)))
      ensures forall p :: InBounds(p, width, height) ==> IsRevealed(At(tiles, p)) || IsFlagged(At(tiles, p))
      ensures RevealsOnly(old(tiles), tiles, width, height)
      ensures dirty
    {
      ghost var g0 := tiles;
      for y := 0 to height
        invariant AppliedBefore(g0, tiles, width, height, RevealAt, Pos(0, y))
      {
        for x := 0 to width
          invariant AppliedBefore(g0, tiles, width, height, RevealAt, Pos(x, y))
        {
          AppliedStep(g0, tiles, width, height, RevealAt, x, y);
          tiles := Set(tiles, Pos(x, y), Reveal(At(tiles, Pos(x, y))));
        }
        AppliedRow(g0, tiles, width, height, RevealAt, y);
      }
      dirty := true;
      assert forall p :: InBounds(p, width, height) ==> Before(p, Pos(0, height));
      RevealsOnlyKeeps(g0, tiles, width, height, chordedTile);
    }

    // -------------------------------------------------------------------------
    // Flags

    /** Flags an unrevealed tile or removes its flag. Returns whether the tile changed. */
    method ToggleFlag(pos: Pos) returns (changed: bool)
      requires Valid()
      modifies this`tiles, this`flagCount, this`dirty
      ensures Valid()
      ensures changed <==> old(InBounds(pos, width, height) && !gameOver && !IsRevealed(At(tiles, pos)))
      ensures !changed ==> unchanged(this)
      ensures changed ==>
        At(tiles, pos) == if old(IsFlagged(At(tiles, pos))) then Unflag(old(At(tiles, pos))) else Flag(old(At(tiles, pos)))
      ensures changed ==>
        && IsFlagged(At(tiles, pos)) == !old(IsFlagged(At(tiles, pos)))
        && !IsPreChorded(At(tiles, pos))
        && GetAdjacentMines(At(tiles, pos)) == old(GetAdjacentMines(At(tiles, pos)))
        && (forall p :: InBounds(p, width, height) && p != pos ==> At(tiles, p) == old(At(tiles, p)))
        && flagCount == old(flagCount) + (if IsFlagged(At(tiles, pos)) then 1 else -1)
      ensures dirty == (old(dirty) || changed)
    {
      changed := false;
      if IsValidPosition(pos) && !gameOver {
        var tile := At(tiles, pos);
        if !IsRevealed(tile) {
          var newTile;
          if IsFlagged(tile) {
            newTile := Unflag(tile);
            flagCount := flagCount - 1;
          } else {
            newTile := Flag(tile);
            flagCount := flagCount + 1;
          }
          UpdateKeeps(tiles, width, height, pos, newTile, chordedTile);
          tiles := Set(tiles, pos, newTile);
          dirty := true;
          changed := true;
        }
      }
    }

    // -------------------------------------------------------------------------
    // Chording

    /**
     * Previews a chord on pos: nothing happens on a bad position or a finished
     * game, not even to an existing preview; otherwise any previous preview is
     * cancelled, then, when pos is a revealed number, its unrevealed unflagged
     * neighbours are marked.
     */
    method StartPreChord(pos: Pos)
      requires Valid()
      modifies this`tiles, this`chordedTile, this`dirty
      ensures Valid()
      ensures !InBounds(pos, width, height) || old(gameOver) ==> unchanged(this)
      ensures InBounds(pos, width, height) && !old(gameOver) ==>
        && tiles == Preview(old(tiles), width, height, pos)
        && chordedTile == if CanChord(old(At(tiles, pos))) then Some(pos) else None
      ensures old(dirty) ==> dirty
      ensures !dirty ==> tiles == old(tiles)
    {
      if IsValidPosition(pos) && !gameOver {
        if IsPreChordActive() {
          CancelPreChord();
        } else {
          GridExtensional(tiles, UnPreChordAll(tiles), width, height);
        }
        AnchorChord(pos);
      }
    }

    /**
     * StartPreChord once no preview is left: when pos is a revealed number it
     * becomes the chord's anchor and its unrevealed unflagged neighbours are marked.
     */
    method AnchorChord(pos: Pos)
      requires Valid() && InBounds(pos, width, height) && chordedTile.None?
      modifies this`tiles, this`chordedTile, this`dirty
      ensures Valid()
      ensures CanChord(old(At(tiles, pos))) ==>
        tiles == ApplyAt(old(tiles), Neighbours(pos, width, height), MarkAt) && chordedTile == Some(pos)
      ensures !CanChord(old(At(tiles, pos))) ==> unchanged(this)
      ensures old(dirty) ==> dirty
      ensures !dirty ==> tiles == old(tiles)
    {
      var tile := At(tiles, pos);
      if IsRevealed(tile) && GetAdjacentMines(tile) != 0 {
        MarkAround(tiles, width, height, pos);
        chordedTile := Some(pos);
        MarkNeighbours(pos);
      }
    }

    /** The neighbour loop of StartPreChord: marks each unrevealed, unflagged neighbour of pos. */
    method MarkNeighbours(pos: Pos)
      requires Shaped(tiles, width, height)
      modifies this`tiles, this`dirty
      ensures tiles == ApplyAt(old(tiles), Neighbours(pos, width, height), MarkAt)
      ensures old(dirty) ==> dirty
      ensures !dirty ==> tiles == old(tiles)
    {
      var ns := Neighbours(pos, width, height);
      for i := 0 to |ns|
        invariant tiles == ApplyAt(old(tiles), ns[..i], MarkAt)
        invariant old(dirty) ==> dirty
        invariant !dirty ==> tiles == old(tiles)
      {
        var neighbor := ns[i];
        ghost var cur := tiles;
        var neighborTile := At(tiles, neighbor);
        if !IsRevealed(neighborTile) && !IsFlagged(neighborTile) {
          tiles := Set(tiles, neighbor, PreChord(neighborTile));
          dirty := true;
        } else {
          SetSame(tiles, neighbor);
        }
        ApplyAtAdvance(old(tiles), ns, i, MarkAt, cur, tiles);
      }
      assert ns[..|ns|] == ns;
    }

    /** Removes the marks of the active chord preview, if there is one. */
    method CancelPreChord()
      requires Valid()
      modifies this`tiles, this`chordedTile, this`dirty
      ensures Valid()
      ensures chordedTile.None?
      ensures old(chordedTile).None? ==> unchanged(this)
      ensures tiles == UnPreChordAll(old(tiles))
      ensures forall p :: InBounds(p, width, height) ==> !IsPreChorded(At(tiles, p))
      ensures old(dirty) ==> dirty
      ensures !dirty ==> tiles == old(tiles)
    {
      if chordedTile.None? {
        GridExtensional(tiles, UnPreChordAll(tiles), width, height);
        return;
      }
      var anchor := chordedTile.value;
      ghost var g0 := tiles;
      UnmarkNeighbours(anchor);
      chordedTile := None;
      CancelAround(g0, width, height, anchor);
      UnPreChordAllKeeps(g0, width, height);
    }

    /** The neighbour loop of CancelPreChord: removes the mark of each marked neighbour of anchor. */
    method UnmarkNeighbours(anchor: Pos)
      requires Shaped(tiles, width, height)
      modifies this`tiles, this`dirty
      ensures tiles == ApplyAt(old(tiles), Neighbours(anchor, width, height), UnmarkAt)
      ensures old(dirty) ==> dirty
      ensures !dirty ==> tiles == old(tiles)
    {
      var ns := Neighbours(anchor, width, height);
      for i := 0 to |ns|
        invariant tiles == ApplyAt(old(tiles), ns[..i], UnmarkAt)
        invariant old(dirty) ==> dirty
        invariant !dirty ==> tiles == old(tiles)
      {
        var neighbor := ns[i];
        ghost var cur := tiles;
        var tile := At(tiles, neighbor);
        if IsPreChorded(tile) {
          tiles := Set(tiles, neighbor, UnPreChord(tile));
          dirty := true;
        } else {
          SetSame(tiles, neighbor);
        }
        ApplyAtAdvance(old(tiles), ns, i, UnmarkAt, cur, tiles);
      }
      assert ns[..|ns|] == ns;
    }

    /**
     * Carries out the previewed chord. The preview is always cancelled. When
     * its anchor is still a revealed number and the number of flags around it
     * equals that number, every neighbour is revealed as by RevealTile.
     * Returns whether a chord was attempted, even one whose flags did not match.
     */
    method ExecuteChord() returns (executed: bool)
      requires Valid()
      modifies this`tiles, this`chordedTile, this`dirty, this`gameOver, this`gameWon
      ensures Valid()
      ensures old(chordedTile).None? ==> !executed && unchanged(this)
      ensures chordedTile.None?
      ensures forall p :: InBounds(p, width, height) ==> !IsPreChorded(At(tiles, p))
      ensures old(chordedTile).Some? ==>
        var pos := old(chordedTile).value;
        var cancelled := UnPreChordAll(old(tiles));
        var anchor := At(cancelled, pos);
        var valid := !old(gameOver) && IsRevealed(anchor) && GetAdjacentMines(anchor) > 0;
        var matched := valid && CountAround(cancelled, pos, width, height, IsFlagged) == GetAdjacentMines(anchor);
        && executed == valid
        && RevealsOnly(cancelled, tiles, width, height)
        && (!matched ==> tiles == cancelled && gameOver == old(gameOver) && gameWon == old(gameWon))
        && (matched ==> ChangedWithin(cancelled, tiles, width, height, Neighbours(pos, width, height)))
        && (matched && !gameOver ==>
              forall n :: n in Neighbours(pos, width, height) ==> IsRevealed(At(tiles, n)) || IsFlagged(At(tiles, n)))
        && (gameOver && !old(gameOver) ==> gameWon || MineUncovered(cancelled, tiles, width, height))
        && (MineUncovered(cancelled, tiles, width, height) ==> gameOver && !gameWon)
        && (!gameOver && tiles != cancelled ==> CountGrid(tiles, IsRevealedSafe) != width * height - mineCount)
      ensures old(gameOver) ==> gameOver && gameWon == old(gameWon)
      ensures gameWon && !old(gameWon) ==> CountGrid(tiles, IsRevealedSafe) == width * height - mineCount
      ensures old(dirty) ==> dirty
      ensures !dirty ==> tiles == old(tiles)
    {
      if chordedTile.None? {
        return false;
      }
      var pos := chordedTile.value;
      CancelPreChord();
      ghost var cancelled := tiles;
      assert AllEncoded(cancelled);
      assert RevealsOnly(cancelled, tiles, width, height);
      if !IsValidPosition(pos) || gameOver {
        return false;
      }
      var tile := At(tiles, pos);
      if !IsRevealed(tile) || GetAdjacentMines(tile) == 0 {
        return false;
      }
      var adjacentFlags := CountAdjacentTiles(pos, IsFlagged);
      var adjacentMines := GetAdjacentMines(tile);
      if adjacentFlags != adjacentMines {
        return true;
      }
      RevealNeighbours(pos);
      return true;
    }

    /** The neighbour loop of ExecuteChord: reveals each neighbour of pos with RevealTile. */
    method RevealNeighbours(pos: Pos)
      requires Valid()
      modifies this`tiles, this`dirty, this`gameOver, this`gameWon
      ensures Valid()
      ensures RevealsOnly(old(tiles), tiles, width, height)
      ensures ChangedWithin(old(tiles), tiles, width, height, Neighbours(pos, width, height))
      ensures !gameOver ==> forall n :: n in Neighbours(pos, width, height) ==> IsRevealed(At(tiles, n)) || IsFlagged(At(tiles, n))
      ensures old(gameOver) ==> gameOver && gameWon == old(gameWon)
      ensures gameOver && !old(gameOver) ==> gameWon || MineUncovered(old(tiles), tiles, width, height)
      ensures MineUncovered(old(tiles), tiles, width, height) ==> gameOver && !gameWon
      ensures gameWon && !old(gameWon) ==> CountGrid(tiles, IsRevealedSafe) == width * height - mineCount
      ensures !gameOver && tiles != old(tiles) ==> CountGrid(tiles, IsRevealedSafe) != width * height - mineCount
      ensures old(dirty) ==> dirty
      ensures !dirty ==> tiles == old(tiles)
    {
      var ns := Neighbours(pos, width, height);
      for i := 0 to |ns|
        invariant Valid()
        invariant RevealsOnly(old(tiles), tiles, width, height)
        invariant ChangedWithin(old(tiles), tiles, width, height, ns)
        invariant !gameOver ==> forall j :: 0 <= j < i ==> IsRevealed(At(tiles, ns[j])) || IsFlagged(At(tiles, ns[j]))
        invariant old(gameOver) ==> gameOver && gameWon == old(gameWon)
        invariant gameOver && !old(gameOver) ==> gameWon || MineUncovered(old(tiles), tiles, width, height)
        invariant MineUncovered(old(tiles), tiles, width, height) ==> gameOver && !gameWon
        invariant gameWon && !old(gameWon) ==> CountGrid(tiles, IsRevealedSafe) == width * height - mineCount
        invariant !gameOver && tiles != old(tiles) ==> CountGrid(tiles, IsRevealedSafe) != width * height - mineCount
        invariant flagCount == old(flagCount) && chordedTile == old(chordedTile) && minesPlaced == old(minesPlaced)
        invariant old(dirty) ==> dirty
        invariant !dirty ==> tiles == old(tiles)
      {
        ghost var before, over := tiles, gameOver;
        var revealed := RevealTile(ns[i]);
        RevealsOnlyTransitive(old(tiles), before, tiles, width, height);
        ChangedWithinStep(old(tiles), before, tiles, width, height, ns, ns[i]);
        if gameOver && !over && !gameWon {
          MineUncoveredAt(old(tiles), before, tiles, width, height, ns[i]);
        }
        if !revealed || !IsMine(At(before, ns[i])) {
          NoMineUncoveredStep(old(tiles), before, tiles, width, height, ns[i]);
        }
      }
      assert ns[..|ns|] == ns;
    }
  }
}
