/**
 * The tile codec: every cell of the board is one unsigned byte whose value
 * packs the cell's whole state.
 *
 *   0..9    revealed   (0 = empty, 1..8 = adjacent mines, 9 = mine)
 *   10..19  unrevealed (base value + 10)
 *   20..29  flagged    (base value + 20)
 *   30..39  pre-chorded: unrevealed and marked by a chord preview (base value + 30)
 *
 * The base value (adjacent-mine count, or 9 for a mine) is always the value
 * modulo 10. Illegal transitions leave the value as it is.
 */
module Tile {

  /** One unsigned byte. */
  type TileValue = t: int | 0 <= t < 256

  /** C++'s conversion of an int to an unsigned byte keeps the value modulo 256. */
  function ToByte(n: int): (b: TileValue)
    ensures 0 <= n < 256 ==> b == n
    ensures (b - n) % 256 == 0
  {
    n % 256
  }

  // Revealed states
  const EMPTY: TileValue := 0
  const MINE: TileValue := 9

  // Unrevealed states start here
  const UNREVEALED_OFFSET: TileValue := 10
  const UNREVEALED_EMPTY: TileValue := 10
  const UNREVEALED_MINE: TileValue := 19

  // Flagged states start here
  const FLAGGED_OFFSET: TileValue := 20
  const FLAGGED_EMPTY: TileValue := 20
  const FLAGGED_MINE: TileValue := 29

  // Pre-chorded states start here
  const PRECHORD_OFFSET: TileValue := 30

  predicate IsRevealed(t: TileValue) {
    t < UNREVEALED_OFFSET
  }

  predicate IsMine(t: TileValue) {
    t % UNREVEALED_OFFSET == MINE
  }

  predicate IsFlagged(t: TileValue) {
    FLAGGED_OFFSET <= t < FLAGGED_OFFSET + UNREVEALED_OFFSET
  }

  predicate IsPreChorded(t: TileValue) {
    PRECHORD_OFFSET <= t < PRECHORD_OFFSET + UNREVEALED_OFFSET
  }

  /** The values the codec gives a meaning to: the four ranges above. */
  predicate IsEncoded(t: TileValue) {
    t < PRECHORD_OFFSET + UNREVEALED_OFFSET
  }

  /** The adjacent-mine count; 9 for a mine. Recoverable in every state. */
  function GetAdjacentMines(t: TileValue): (n: TileValue)
    ensures n <= MINE
    ensures IsMine(t) <==> n == MINE
    ensures IsEncoded(t) ==> t == n || t == n + UNREVEALED_OFFSET || t == n + FLAGGED_OFFSET || t == n + PRECHORD_OFFSET
  {
    t % UNREVEALED_OFFSET
  }

  /**
   * Uncovers an unrevealed tile, plain or pre-chorded; a revealed or flagged
   * tile is returned unchanged.
   */
  function Reveal(t: TileValue): (r: TileValue)
    ensures IsRevealed(t) || IsFlagged(t) ==> r == t
    ensures IsEncoded(t) && !IsRevealed(t) && !IsFlagged(t) ==> IsRevealed(r) && r != t
    ensures GetAdjacentMines(r) == GetAdjacentMines(t)
    ensures IsMine(r) == IsMine(t)
    ensures IsFlagged(r) == IsFlagged(t)
    ensures IsEncoded(t) ==> IsEncoded(r) && !IsPreChorded(r)
  {
    if IsRevealed(t) || IsFlagged(t) then t
    else if IsPreChorded(t) then t - PRECHORD_OFFSET
    else t - UNREVEALED_OFFSET
  }

  /** An unrevealed tile with the given base value (0..8 adjacent mines, 9 a mine). */
  function CreateUnrevealed(adjacentMines: int): (r: TileValue)
    ensures 0 <= adjacentMines <= MINE ==>
      && !IsRevealed(r) && !IsFlagged(r) && !IsPreChorded(r) && IsEncoded(r)
      && GetAdjacentMines(r) == adjacentMines
      && (IsMine(r) <==> adjacentMines == MINE)
  {
    ToByte(adjacentMines + UNREVEALED_OFFSET)
  }

  /**
   * Puts a flag on an unrevealed tile (a pre-chord mark is dropped); a revealed
   * or already flagged tile is returned unchanged.
   */
  function Flag(t: TileValue): (r: TileValue)
    ensures IsRevealed(t) || IsFlagged(t) ==> r == t
    ensures IsEncoded(t) && !IsRevealed(t) && !IsFlagged(t) ==>
      IsFlagged(r) && GetAdjacentMines(r) == GetAdjacentMines(t)
    ensures IsEncoded(t) ==> IsEncoded(r) && !IsPreChorded(r) && IsMine(r) == IsMine(t)
  {
    if IsRevealed(t) then t
    else if IsFlagged(t) then t
    else if IsPreChorded(t) then t - PRECHORD_OFFSET + FLAGGED_OFFSET
    else ToByte(t - UNREVEALED_OFFSET + FLAGGED_OFFSET)
  }

  /** Removes the flag of a flagged tile; any other tile is returned unchanged. */
  function Unflag(t: TileValue): (r: TileValue)
    ensures !IsFlagged(t) ==> r == t
    ensures IsFlagged(t) ==>
      !IsRevealed(r) && !IsFlagged(r) && !IsPreChorded(r) && GetAdjacentMines(r) == GetAdjacentMines(t)
    ensures IsMine(r) == IsMine(t)
    ensures IsEncoded(t) ==> IsEncoded(r)
  {
    if !IsFlagged(t) then t
    else t - FLAGGED_OFFSET + UNREVEALED_OFFSET
  }

  /**
   * Marks a plain unrevealed tile as part of a chord preview; every other
   * tile is returned unchanged.
   */
  function PreChord(t: TileValue): (r: TileValue)
    ensures UNREVEALED_OFFSET <= t < FLAGGED_OFFSET ==> IsPreChorded(r) && GetAdjacentMines(r) == GetAdjacentMines(t)
    ensures IsRevealed(t) || IsFlagged(t) || IsPreChorded(t) ==> r == t
    ensures GetAdjacentMines(r) == GetAdjacentMines(t)
    ensures IsRevealed(r) == IsRevealed(t) && IsFlagged(r) == IsFlagged(t)
    ensures IsEncoded(t) ==> IsEncoded(r)
  {
    if UNREVEALED_OFFSET <= t < FLAGGED_OFFSET then t + (PRECHORD_OFFSET - UNREVEALED_OFFSET) else t
  }

  /** Removes a chord-preview mark; every other tile is returned unchanged. */
  function UnPreChord(t: TileValue): (r: TileValue)
    ensures !IsPreChorded(t) ==> r == t
    ensures IsPreChorded(t) ==> UNREVEALED_OFFSET <= r < FLAGGED_OFFSET && r != t
    ensures !IsPreChorded(r)
    ensures GetAdjacentMines(r) == GetAdjacentMines(t)
    ensures IsRevealed(r) == IsRevealed(t) && IsFlagged(r) == IsFlagged(t)
    ensures IsEncoded(t) ==> IsEncoded(r)
  {
    if IsPreChorded(t) then t - (PRECHORD_OFFSET - UNREVEALED_OFFSET) else t
  }

  // ---------------------------------------------------------------------------
  // Properties relating several operations

  /** Every encoded value is in exactly one disposition; in particular no tile is both revealed and flagged. */
  lemma DispositionsExclusive(t: TileValue)
    requires IsEncoded(t)
    ensures IsRevealed(t) <==> t < 10
    ensures IsFlagged(t) <==> 20 <= t < 30
    ensures !(IsRevealed(t) && IsFlagged(t))
    ensures !(IsPreChorded(t) && (IsRevealed(t) || IsFlagged(t)))
    ensures IsRevealed(t) || IsFlagged(t) || IsPreChorded(t) || UNREVEALED_OFFSET <= t < FLAGGED_OFFSET
  {
  }

  /** Reveal is idempotent on encoded values. */
  lemma RevealIdempotent(t: TileValue)
    requires IsEncoded(t)
    ensures Reveal(Reveal(t)) == Reveal(t)
  {
  }

  /** Flagging and then unflagging an unrevealed tile gives back the tile. */
  lemma UnflagFlag(t: TileValue)
    requires UNREVEALED_OFFSET <= t < FLAGGED_OFFSET
    ensures Flag(t) != t
    ensures Unflag(Flag(t)) == t
  {
  }

  /** Unflagging and then flagging a flagged tile gives back the tile. */
  lemma FlagUnflag(t: TileValue)
    requires IsFlagged(t)
    ensures Flag(Unflag(t)) == t
  {
  }

  /** Marking and unmarking a plain unrevealed tile gives back the tile. */
  lemma UnPreChordPreChord(t: TileValue)
    requires UNREVEALED_OFFSET <= t < FLAGGED_OFFSET
    ensures PreChord(t) != t
    ensures UnPreChord(PreChord(t)) == t
  {
  }

  /** Reveal, Flag and Unflag map the documented range 0..29 into itself. */
  lemma DocumentedRangeClosed(t: TileValue)
    requires t < 30
    ensures Reveal(t) < 30 && Flag(t) < 30 && Unflag(t) < 30
  {
  }
}
