/**
 * The board's grid as a value: positions, the in-bounds 8-neighbourhood,
 * counting tiles by a predicate, the row-major list of mine candidates, and
 * the relations between two grids that the board's operations keep.
 *
 * A grid is a sequence of rows; the tile at column x of row y is g[y][x].
 */
module BoardGrid {
  import opened Tile

  datatype Pos = Pos(x: int, y: int)

  datatype Option<T> = None | Some(value: T)

  type Tiles = seq<seq<TileValue>>

  predicate InBounds(p: Pos, w: int, h: int) {
    0 <= p.x < w && 0 <= p.y < h
  }

  /** g has h rows of w tiles each. */
  predicate Shaped(g: Tiles, w: int, h: int) {
    |g| == h && forall y :: 0 <= y < h ==> |g[y]| == w
  }

  predicate InGrid(g: Tiles, p: Pos) {
    0 <= p.y < |g| && 0 <= p.x < |g[p.y]|
  }

  function At(g: Tiles, p: Pos): TileValue
    requires InGrid(g, p)
  {
    g[p.y][p.x]
  }

  /** g with the tile at p replaced by v. */
  function Set(g: Tiles, p: Pos, v: TileValue): (r: Tiles)
    requires InGrid(g, p)
    ensures |r| == |g| && forall y :: 0 <= y < |g| ==> |r[y]| == |g[y]|
    ensures forall q {:trigger At(r, q)} :: InGrid(g, q) ==> At(r, q) == if q == p then v else At(g, q)
  {
    var row: seq<TileValue> := g[p.y][p.x := v];
    g[p.y := row]
  }

  /** Row-major order: p comes strictly before q. */
  predicate Before(p: Pos, q: Pos) {
    p.y < q.y || (p.y == q.y && p.x < q.x)
  }

  // ---------------------------------------------------------------------------
  // The 8-neighbourhood

  predicate Adjacent(p: Pos, q: Pos) {
    p != q && -1 <= q.x - p.x <= 1 && -1 <= q.y - p.y <= 1
  }

  /** The eight positions around p, row by row from above-left to below-right. */
  function Around(p: Pos): (r: seq<Pos>)
    ensures |r| == 8
    ensures forall q :: q in r <==> Adjacent(p, q)
  {
    [Pos(p.x - 1, p.y - 1), Pos(p.x, p.y - 1), Pos(p.x + 1, p.y - 1),
     Pos(p.x - 1, p.y),                         Pos(p.x + 1, p.y),
     Pos(p.x - 1, p.y + 1), Pos(p.x, p.y + 1), Pos(p.x + 1, p.y + 1)]
  }

  /** The positions of ps that lie on a w by h board, in their order. */
  function KeepInBounds(ps: seq<Pos>, w: int, h: int): (r: seq<Pos>)
    ensures |r| <= |ps|
    ensures forall q {:trigger q in r} :: q in r <==> q in ps && InBounds(q, w, h)
    ensures forall i :: 0 <= i < |r| ==> InBounds(r[i], w, h)
  {
    if |ps| == 0 then []
    else KeepInBounds(ps[..|ps| - 1], w, h) + (if InBounds(ps[|ps| - 1], w, h) then [ps[|ps| - 1]] else [])
  }

  /** The in-bounds neighbours of p: the positions forEachNeighbour visits, in its order. */
  function Neighbours(p: Pos, w: int, h: int): (ns: seq<Pos>)
    ensures |ns| <= 8
    ensures forall q {:trigger q in ns} :: q in ns <==> InBounds(q, w, h) && Adjacent(p, q)
    ensures forall i :: 0 <= i < |ns| ==> InBounds(ns[i], w, h)
  {
    KeepInBounds(Around(p), w, h)
  }

  lemma {:induction false} KeepInBoundsDistinct(ps: seq<Pos>, w: int, h: int)
    requires Distinct(ps)
    ensures Distinct(KeepInBounds(ps, w, h))
  {
    if |ps| > 0 {
      var init := ps[..|ps| - 1];
      var last := ps[|ps| - 1];
      KeepInBoundsDistinct(init, w, h);
      var k := KeepInBounds(init, w, h);
      assert last !in init by {
        assert forall i :: 0 <= i < |init| ==> init[i] == ps[i] && ps[i] != ps[|ps| - 1];
      }
      assert last !in k;
      var r := KeepInBounds(ps, w, h);
      forall i, j | 0 <= i < j < |r|
        ensures r[i] != r[j]
      {
        if j == |k| {
          assert r[i] in k;
        }
      }
    }
  }

  /** forEachNeighbour visits each neighbour once. */
  lemma NeighboursDistinct(p: Pos, w: int, h: int)
    ensures Distinct(Neighbours(p, w, h))
  {
    KeepInBoundsDistinct(Around(p), w, h);
  }

  // ---------------------------------------------------------------------------
  // Counting

  function BoolToNat(b: bool): nat {
    if b then 1 else 0
  }

  /** The number of tiles of a row that satisfy P. */
  function CountRow(row: seq<TileValue>, P: TileValue -> bool): (n: nat)
    ensures n <= |row|
  {
    if |row| == 0 then 0 else CountRow(row[..|row| - 1], P) + BoolToNat(P(row[|row| - 1]))
  }

  /** The number of tiles of a grid that satisfy P. */
  function CountGrid(g: Tiles, P: TileValue -> bool): nat {
    if |g| == 0 then 0 else CountGrid(g[..|g| - 1], P) + CountRow(g[|g| - 1], P)
  }

  /** The number of the listed positions whose tile satisfies P. */
  function CountAt(g: Tiles, ps: seq<Pos>, P: TileValue -> bool): (n: nat)
    requires forall i :: 0 <= i < |ps| ==> InGrid(g, ps[i])
    ensures n <= |ps|
  {
    if |ps| == 0 then 0 else CountAt(g, ps[..|ps| - 1], P) + BoolToNat(P(At(g, ps[|ps| - 1])))
  }

  /** The number of neighbours of p whose tile satisfies P. */
  function CountAround(g: Tiles, p: Pos, w: int, h: int, P: TileValue -> bool): (n: nat)
    requires Shaped(g, w, h)
    ensures n <= 8
  {
    var ns := Neighbours(p, w, h);
    assert forall i :: 0 <= i < |ns| ==> InGrid(g, ns[i]);
    CountAt(g, ns, P)
  }

  /** Changing one tile changes a row's count by at most the change at that tile. */
  lemma {:induction false} CountRowUpdate(row: seq<TileValue>, i: int, v: TileValue, P: TileValue -> bool)
    requires 0 <= i < |row|
    ensures CountRow(row[i := v], P) == CountRow(row, P) - BoolToNat(P(row[i])) + BoolToNat(P(v))
  {
    var n := |row| - 1;
    if i == n {
      assert row[i := v][..n] == row[..n];
    } else {
      assert row[i := v][..n] == row[..n][i := v];
      CountRowUpdate(row[..n], i, v, P);
    }
  }

  /** Changing one tile changes a grid's count by at most the change at that tile. */
  lemma {:induction false} CountGridUpdate(g: Tiles, p: Pos, v: TileValue, P: TileValue -> bool)
    requires InGrid(g, p)
    ensures CountGrid(Set(g, p, v), P) == CountGrid(g, P) - BoolToNat(P(At(g, p))) + BoolToNat(P(v))
  {
    var n := |g| - 1;
    var r := Set(g, p, v);
    if p.y == n {
      assert r[..n] == g[..n];
      CountRowUpdate(g[n], p.x, v, P);
    } else {
      assert r[..n] == Set(g[..n], p, v);
      CountGridUpdate(g[..n], p, v, P);
    }
  }

  lemma {:induction false} CountRowSame(r1: seq<TileValue>, r2: seq<TileValue>, P: TileValue -> bool)
    requires |r1| == |r2|
    requires forall i :: 0 <= i < |r1| ==> P(r1[i]) == P(r2[i])
    ensures CountRow(r1, P) == CountRow(r2, P)
  {
    if |r1| > 0 {
      CountRowSame(r1[..|r1| - 1], r2[..|r2| - 1], P);
    }
  }

  /** Two grids of one shape whose tiles agree on P have the same count. */
  lemma {:induction false} CountGridSame(g1: Tiles, g2: Tiles, P: TileValue -> bool)
    requires |g1| == |g2|
    requires forall y :: 0 <= y < |g1| ==> |g1[y]| == |g2[y]|
    requires forall p :: InGrid(g1, p) ==> P(At(g1, p)) == P(At(g2, p))
    ensures CountGrid(g1, P) == CountGrid(g2, P)
  {
    if |g1| > 0 {
      var n := |g1| - 1;
      forall p | InGrid(g1[..n], p)
        ensures P(At(g1[..n], p)) == P(At(g2[..n], p))
      {
        assert InGrid(g1, p);
      }
      CountGridSame(g1[..n], g2[..n], P);
      forall i | 0 <= i < |g1[n]|
        ensures P(g1[n][i]) == P(g2[n][i])
      {
        assert InGrid(g1, Pos(i, n));
      }
      CountRowSame(g1[n], g2[n], P);
    }
  }

  lemma {:induction false} CountRowNone(row: seq<TileValue>, P: TileValue -> bool)
    requires forall i :: 0 <= i < |row| ==> !P(row[i])
    ensures CountRow(row, P) == 0
  {
    if |row| > 0 {
      CountRowNone(row[..|row| - 1], P);
    }
  }

  /** A grid with no tile satisfying P counts zero. */
  lemma {:induction false} CountGridNone(g: Tiles, P: TileValue -> bool)
    requires forall p :: InGrid(g, p) ==> !P(At(g, p))
    ensures CountGrid(g, P) == 0
  {
    if |g| > 0 {
      var n := |g| - 1;
      forall p | InGrid(g[..n], p)
        ensures !P(At(g[..n], p))
      {
        assert InGrid(g, p);
      }
      CountGridNone(g[..n], P);
      forall i | 0 <= i < |g[n]|
        ensures !P(g[n][i])
      {
        assert InGrid(g, Pos(i, n));
      }
      CountRowNone(g[n], P);
    }
  }

  /** Counting listed positions in two grids that agree on P there gives the same number. */
  lemma {:induction false} CountAtSame(g1: Tiles, g2: Tiles, ps: seq<Pos>, P: TileValue -> bool)
    requires forall i :: 0 <= i < |ps| ==> InGrid(g1, ps[i]) && InGrid(g2, ps[i])
    requires forall i :: 0 <= i < |ps| ==> P(At(g1, ps[i])) == P(At(g2, ps[i]))
    ensures CountAt(g1, ps, P) == CountAt(g2, ps, P)
  {
    if |ps| > 0 {
      CountAtSame(g1, g2, ps[..|ps| - 1], P);
    }
  }

  lemma {:induction false} CountAtNone(g: Tiles, ps: seq<Pos>, P: TileValue -> bool)
    requires forall i :: 0 <= i < |ps| ==> InGrid(g, ps[i]) && !P(At(g, ps[i]))
    ensures CountAt(g, ps, P) == 0
  {
    if |ps| > 0 {
      CountAtNone(g, ps[..|ps| - 1], P);
    }
  }

  // ---------------------------------------------------------------------------
  // Tile classes used by the board

  /** A tile the flood fill may uncover: unrevealed, unflagged and not a mine. */
  predicate CanFlood(t: TileValue) {
    !IsRevealed(t) && !IsFlagged(t) && !IsMine(t)
  }

  /** What a chord preview does to each neighbour of its anchor: marks it when it is unrevealed and unflagged. */
  function ChordMark(t: TileValue): (r: TileValue)
    ensures IsRevealed(t) || IsFlagged(t) ==> r == t
    ensures UNREVEALED_OFFSET <= t < FLAGGED_OFFSET ==> IsPreChorded(r)
    ensures GetAdjacentMines(r) == GetAdjacentMines(t)
    ensures IsRevealed(r) == IsRevealed(t) && IsFlagged(r) == IsFlagged(t)
    ensures IsEncoded(t) ==> IsEncoded(r)
  {
    if !IsRevealed(t) && !IsFlagged(t) then PreChord(t) else t
  }

  /** A tile a chord can be anchored on: a revealed number (one or more adjacent mines). */
  predicate CanChord(t: TileValue) {
    IsRevealed(t) && GetAdjacentMines(t) > 0
  }

  predicate IsUnrevealed(t: TileValue) {
    !IsRevealed(t)
  }

  predicate IsRevealedSafe(t: TileValue) {
    IsRevealed(t) && !IsMine(t)
  }

  // ---------------------------------------------------------------------------
  // Grid invariants and relations

  ghost predicate AllEncoded(g: Tiles) {
    forall p {:trigger At(g, p)} :: InGrid(g, p) ==> IsEncoded(At(g, p))
  }

  /** The tile at p, unless it is a mine, holds the number of its neighbours that are mines. */
  ghost predicate ConsistentAt(g: Tiles, p: Pos, w: int, h: int)
    requires Shaped(g, w, h) && InBounds(p, w, h)
  {
    !IsMine(At(g, p)) ==> GetAdjacentMines(At(g, p)) == CountAround(g, p, w, h, IsMine)
  }

  /**
   * Every tile that is not a mine holds the number of its neighbours that are
   * mines. (The trigger keeps the count of one tile from instantiating the
   * property at its neighbours.)
   */
  ghost predicate CountsConsistent(g: Tiles, w: int, h: int)
    requires Shaped(g, w, h)
  {
    forall p {:trigger ConsistentAt(g, p, w, h)} :: InBounds(p, w, h) ==> ConsistentAt(g, p, w, h)
  }

  /** Pre-chord marks sit only on the neighbours of the active chord's anchor. */
  ghost predicate PreChordsAround(g: Tiles, w: int, h: int, anchor: Option<Pos>)
    requires Shaped(g, w, h)
  {
    forall p {:trigger At(g, p)} :: InBounds(p, w, h) && IsPreChorded(At(g, p)) ==> anchor.Some? && Adjacent(anchor.value, p)
  }

  ghost predicate SameBases(g1: Tiles, g2: Tiles, w: int, h: int) {
    && Shaped(g1, w, h) && Shaped(g2, w, h)
    && forall p {:trigger At(g1, p)} {:trigger At(g2, p)} :: InBounds(p, w, h) ==> GetAdjacentMines(At(g1, p)) == GetAdjacentMines(At(g2, p))
  }

  /** g1 comes from g0 by revealing some unrevealed, unflagged tiles (mines included). */
  ghost predicate RevealsOnly(g0: Tiles, g1: Tiles, w: int, h: int) {
    && Shaped(g0, w, h) && Shaped(g1, w, h)
    && forall p {:trigger At(g1, p)} {:trigger At(g0, p)} :: InBounds(p, w, h) ==>
         At(g1, p) == At(g0, p) || (!IsRevealed(At(g0, p)) && !IsFlagged(At(g0, p)) && At(g1, p) == Reveal(At(g0, p)))
  }

  /** g1 comes from g0 by revealing some unrevealed, unflagged tiles that are not mines. */
  ghost predicate FloodReveals(g0: Tiles, g1: Tiles, w: int, h: int) {
    && Shaped(g0, w, h) && Shaped(g1, w, h)
    && forall p {:trigger At(g1, p)} {:trigger At(g0, p)} :: InBounds(p, w, h) ==>
         At(g1, p) == At(g0, p) || (CanFlood(At(g0, p)) && At(g1, p) == Reveal(At(g0, p)))
  }

  /**
   * A tile the fill continues from: the start, or a tile uncovered between
   * g0 and g, that has no adjacent mines.
   */
  ghost predicate ZeroSeed(g0: Tiles, g: Tiles, w: int, h: int, start: Pos, q: Pos)
    requires Shaped(g0, w, h) && Shaped(g, w, h)
  {
    && InBounds(q, w, h)
    && (q == start || (!IsRevealed(At(g0, q)) && IsRevealed(At(g, q))))
    && GetAdjacentMines(At(g, q)) == 0
  }

  /** A tile uncovered between g0 and g other than the start. */
  ghost predicate Uncovered(g0: Tiles, g: Tiles, w: int, h: int, start: Pos, q: Pos)
    requires Shaped(g0, w, h) && Shaped(g, w, h)
  {
    InBounds(q, w, h) && q != start && !IsRevealed(At(g0, q)) && IsRevealed(At(g, q))
  }

  /** No neighbour of q is left for the fill to uncover. */
  ghost predicate Settled(g: Tiles, w: int, h: int, q: Pos)
    requires Shaped(g, w, h)
  {
    forall n {:trigger n in Neighbours(q, w, h)} :: n in Neighbours(q, w, h) ==> !CanFlood(At(g, n))
  }

  /** No zero-count seed has a neighbour the fill could still uncover. */
  ghost predicate FillClosed(g0: Tiles, g1: Tiles, w: int, h: int, start: Pos)
    requires Shaped(g0, w, h) && Shaped(g1, w, h)
  {
    forall q {:trigger ZeroSeed(g0, g1, w, h, start, q)} :: ZeroSeed(g0, g1, w, h, start, q) ==> Settled(g1, w, h, q)
  }

  /** Every tile the fill uncovered touches a zero-count seed. */
  ghost predicate FillSupported(g0: Tiles, g1: Tiles, w: int, h: int, start: Pos)
    requires Shaped(g0, w, h) && Shaped(g1, w, h)
  {
    forall q {:trigger Uncovered(g0, g1, w, h, start, q)} :: Uncovered(g0, g1, w, h, start, q) ==>
      exists r :: r in Neighbours(q, w, h) && ZeroSeed(g0, g1, w, h, start, r)
  }

  /**
   * The neighbours in ns the fill queues: those it may uncover that have no
   * adjacent mines, in the order of ns.
   */
  function Queued(g: Tiles, ns: seq<Pos>): (r: seq<Pos>)
    requires forall i :: 0 <= i < |ns| ==> InGrid(g, ns[i])
    ensures |r| <= |ns|
    ensures forall q {:trigger q in r} :: q in r <==> q in ns && CanFlood(At(g, q)) && GetAdjacentMines(At(g, q)) == 0
  {
    if ns == [] then []
    else
      var last := ns[|ns| - 1];
      assert forall q :: q in ns <==> q in ns[..|ns| - 1] || q == last by {
        assert ns == ns[..|ns| - 1] + [last];
      }
      Queued(g, ns[..|ns| - 1]) + (if CanFlood(At(g, last)) && GetAdjacentMines(At(g, last)) == 0 then [last] else [])
  }

  /**
   * One step of the fill's neighbour loop over a list without repeats: the
   * tile at ns[i] is still as in g, the step uncovers it when it may, queues
   * it when it also has no adjacent mines, and each uncovering lowers the
   * number of unrevealed tiles by one.
   */
  lemma UncoverStep(g: Tiles, ns: seq<Pos>, i: int, cur: Tiles)
    requires forall j :: 0 <= j < |ns| ==> InGrid(g, ns[j])
    requires Distinct(ns) && AllEncoded(g)
    requires 0 <= i < |ns|
    requires cur == ApplyAt(g, ns[..i], UncoverAt)
    ensures InGrid(cur, ns[i]) && At(cur, ns[i]) == At(g, ns[i])
    ensures CanFlood(At(cur, ns[i])) ==> ApplyAt(g, ns[..i + 1], UncoverAt) == Set(cur, ns[i], Reveal(At(cur, ns[i])))
    ensures !CanFlood(At(cur, ns[i])) ==> ApplyAt(g, ns[..i + 1], UncoverAt) == cur
    ensures Queued(g, ns[..i + 1]) == Queued(g, ns[..i]) + (if CanFlood(At(cur, ns[i])) && GetAdjacentMines(At(cur, ns[i])) == 0 then [ns[i]] else [])
    ensures CountGrid(ApplyAt(g, ns[..i + 1], UncoverAt), IsUnrevealed) == CountGrid(cur, IsUnrevealed) - BoolToNat(CanFlood(At(cur, ns[i])))
  {
    var p := ns[i];
    assert ns[..i + 1][..i] == ns[..i];
    assert Distinct(ns[..i]) && p !in ns[..i];
    ApplyAtDistinct(g, ns[..i], UncoverAt);
    assert InGrid(g, p);
    assert At(cur, p) == At(g, p);
    if CanFlood(At(g, p)) {
      assert IsEncoded(At(g, p));
      CountGridUpdate(cur, p, Reveal(At(g, p)), IsUnrevealed);
    } else {
      SetSame(cur, p);
    }
  }

  /** The state of uncovering the tiles of ns one by one, i of them done. */
  ghost predicate UncoverState(g0: Tiles, ns: seq<Pos>, i: int, g: Tiles, found: seq<Pos>)
  {
    && (forall j :: 0 <= j < |ns| ==> InGrid(g0, ns[j]))
    && Distinct(ns) && AllEncoded(g0)
    && 0 <= i <= |ns|
    && g == ApplyAt(g0, ns[..i], UncoverAt)
    && found == Queued(g0, ns[..i])
    && CountGrid(g, IsUnrevealed) + |found| <= CountGrid(g0, IsUnrevealed)
  }

  /** The next tile of ns is on the grid and not yet touched. */
  lemma UncoverNext(g0: Tiles, ns: seq<Pos>, i: int, g: Tiles, found: seq<Pos>)
    requires UncoverState(g0, ns, i, g, found) && i < |ns|
    ensures InGrid(g, ns[i]) && At(g, ns[i]) == At(g0, ns[i])
  {
    UncoverStep(g0, ns, i, g);
  }

  /** Uncovering the next tile of ns, if it floods, keeps UncoverState. */
  lemma UncoverAdvance(g0: Tiles, ns: seq<Pos>, i: int, g: Tiles, found: seq<Pos>, g': Tiles, found': seq<Pos>)
    requires UncoverState(g0, ns, i, g, found) && i < |ns|
    requires InGrid(g, ns[i])
    requires CanFlood(At(g, ns[i])) ==> g' == Set(g, ns[i], Reveal(At(g, ns[i])))
    requires !CanFlood(At(g, ns[i])) ==> g' == g
    requires CanFlood(At(g, ns[i])) && GetAdjacentMines(At(g, ns[i])) == 0 ==> found' == found + [ns[i]]
    requires !(CanFlood(At(g, ns[i])) && GetAdjacentMines(At(g, ns[i])) == 0) ==> found' == found
    ensures UncoverState(g0, ns, i + 1, g', found')
  {
    UncoverStep(g0, ns, i, g);
  }

  /**
   * g' comes from g by one round of the fill over ns: each tile keeps its
   * value, or is a tile of ns still as in g0 that the round uncovers.
   */
  ghost predicate RoundStep(g0: Tiles, g: Tiles, g': Tiles, w: int, h: int, ns: seq<Pos>)
    requires Shaped(g0, w, h) && Shaped(g, w, h) && Shaped(g', w, h)
  {
    forall q {:trigger At(g', q)} :: InBounds(q, w, h) ==>
      && GetAdjacentMines(At(g', q)) == GetAdjacentMines(At(g, q))
      && if q in ns && CanFlood(At(g, q)) then At(g, q) == At(g0, q) && IsRevealed(At(g', q)) else At(g', q) == At(g, q)
  }

  /**
   * One round of the flood fill, from the seed c: every neighbour of c that
   * may be uncovered is uncovered. Seeds, settled tiles and the support of
   * every uncovered tile are kept, c becomes settled, and the new seeds are
   * exactly the queued neighbours.
   */
  lemma FillRound(g0: Tiles, g: Tiles, w: int, h: int, start: Pos, c: Pos)
    requires FloodReveals(g0, g, w, h) && AllEncoded(g0) && AllEncoded(g)
    requires InBounds(start, w, h) && IsRevealed(At(g0, start))
    requires ZeroSeed(g0, g, w, h, start, c)
    ensures forall i :: 0 <= i < |Neighbours(c, w, h)| ==> InGrid(g, Neighbours(c, w, h)[i])
    ensures var ns := Neighbours(c, w, h);
      var g' := ApplyAt(g, ns, UncoverAt);
      var added := Queued(g, ns);
      && FloodReveals(g0, g', w, h) && AllEncoded(g')
      && Settled(g', w, h, c)
      && (forall q {:trigger ZeroSeed(g0, g, w, h, start, q)} :: ZeroSeed(g0, g, w, h, start, q) ==> ZeroSeed(g0, g', w, h, start, q))
      && (forall q {:trigger ZeroSeed(g0, g', w, h, start, q)} :: ZeroSeed(g0, g', w, h, start, q) ==> ZeroSeed(g0, g, w, h, start, q) || q in added)
      && (forall q {:trigger q in added} :: q in added ==> ZeroSeed(g0, g', w, h, start, q))
      && (forall q {:trigger Settled(g, w, h, q)} :: Settled(g, w, h, q) ==> Settled(g', w, h, q))
      && (FillSupported(g0, g, w, h, start) ==> FillSupported(g0, g', w, h, start))
  {
    var ns := Neighbours(c, w, h);
    var g' := ApplyAt(g, ns, UncoverAt);
    RoundTiles(g0, g, w, h, c);
    RoundSeeds(g0, g, g', w, h, start, ns);
    if FillSupported(g0, g, w, h, start) {
      RoundSupport(g0, g, g', w, h, start, c);
    }
  }

  /** What one round does tile by tile. */
  lemma RoundTiles(g0: Tiles, g: Tiles, w: int, h: int, c: Pos)
    requires FloodReveals(g0, g, w, h) && AllEncoded(g0) && AllEncoded(g)
    ensures forall i :: 0 <= i < |Neighbours(c, w, h)| ==> InGrid(g, Neighbours(c, w, h)[i])
    ensures var ns := Neighbours(c, w, h);
      var g' := ApplyAt(g, ns, UncoverAt);
      && Shaped(g', w, h)
      && RoundStep(g0, g, g', w, h, ns)
      && FloodReveals(g0, g', w, h) && AllEncoded(g')
      && Settled(g', w, h, c)
  {
    var ns := Neighbours(c, w, h);
    NeighboursDistinct(c, w, h);
    ApplyAtDistinct(g, ns, UncoverAt);
    var g' := ApplyAt(g, ns, UncoverAt);
    forall q | InBounds(q, w, h)
      ensures At(g', q) == At(g, q) || (q in ns && CanFlood(At(g, q)) && At(g, q) == At(g0, q) && At(g', q) == Reveal(At(g, q)) && IsRevealed(At(g', q)))
      ensures GetAdjacentMines(At(g', q)) == GetAdjacentMines(At(g, q))
      ensures IsEncoded(At(g', q))
    {
      assert InGrid(g, q) && IsEncoded(At(g, q)) && IsEncoded(At(g0, q));
    }
    forall n | n in ns
      ensures !CanFlood(At(g', n))
    {
      assert IsEncoded(At(g, n));
    }
  }

  /** A round keeps every seed and every settled tile, and its new seeds are the queued tiles. */
  lemma RoundSeeds(g0: Tiles, g: Tiles, g': Tiles, w: int, h: int, start: Pos, ns: seq<Pos>)
    requires Shaped(g0, w, h) && Shaped(g, w, h) && Shaped(g', w, h)
    requires forall i :: 0 <= i < |ns| ==> InGrid(g, ns[i])
    requires RoundStep(g0, g, g', w, h, ns)
    requires InBounds(start, w, h) && IsRevealed(At(g0, start))
    ensures forall q {:trigger ZeroSeed(g0, g, w, h, start, q)} :: ZeroSeed(g0, g, w, h, start, q) ==> ZeroSeed(g0, g', w, h, start, q)
    ensures forall q {:trigger ZeroSeed(g0, g', w, h, start, q)} :: ZeroSeed(g0, g', w, h, start, q) ==> ZeroSeed(g0, g, w, h, start, q) || q in Queued(g, ns)
    ensures forall q {:trigger q in Queued(g, ns)} :: q in Queued(g, ns) ==> ZeroSeed(g0, g', w, h, start, q)
    ensures forall q {:trigger Settled(g, w, h, q)} :: Settled(g, w, h, q) ==> Settled(g', w, h, q)
  {
    forall q | ZeroSeed(g0, g, w, h, start, q)
      ensures ZeroSeed(g0, g', w, h, start, q)
    {
      RoundAt(g0, g, g', w, h, ns, q);
    }
    forall q | ZeroSeed(g0, g', w, h, start, q)
      ensures ZeroSeed(g0, g, w, h, start, q) || q in Queued(g, ns)
    {
      RoundAt(g0, g, g', w, h, ns, q);
    }
    forall q | q in Queued(g, ns)
      ensures ZeroSeed(g0, g', w, h, start, q)
    {
      assert q in ns && CanFlood(At(g, q)) && GetAdjacentMines(At(g, q)) == 0;
      RoundAt(g0, g, g', w, h, ns, q);
    }
    forall q | Settled(g, w, h, q)
      ensures Settled(g', w, h, q)
    {
      forall n | n in Neighbours(q, w, h)
        ensures !CanFlood(At(g', n))
      {
        assert !CanFlood(At(g, n));
        RoundAt(g0, g, g', w, h, ns, n);
      }
    }
  }

  /** RoundStep at one tile. */
  lemma RoundAt(g0: Tiles, g: Tiles, g': Tiles, w: int, h: int, ns: seq<Pos>, q: Pos)
    requires Shaped(g0, w, h) && Shaped(g, w, h) && Shaped(g', w, h)
    requires RoundStep(g0, g, g', w, h, ns) && InBounds(q, w, h)
    ensures GetAdjacentMines(At(g', q)) == GetAdjacentMines(At(g, q))
    ensures if q in ns && CanFlood(At(g, q)) then At(g, q) == At(g0, q) && IsRevealed(At(g', q)) else At(g', q) == At(g, q)
  {
  }

  /** A round from a seed keeps every uncovered tile next to a seed. */
  lemma RoundSupport(g0: Tiles, g: Tiles, g': Tiles, w: int, h: int, start: Pos, c: Pos)
    requires Shaped(g0, w, h) && Shaped(g, w, h) && Shaped(g', w, h)
    requires RoundStep(g0, g, g', w, h, Neighbours(c, w, h))
    requires ZeroSeed(g0, g, w, h, start, c)
    requires forall q {:trigger ZeroSeed(g0, g, w, h, start, q)} :: ZeroSeed(g0, g, w, h, start, q) ==> ZeroSeed(g0, g', w, h, start, q)
    requires FillSupported(g0, g, w, h, start)
    ensures FillSupported(g0, g', w, h, start)
  {
    var ns := Neighbours(c, w, h);
    forall q | Uncovered(g0, g', w, h, start, q)
      ensures exists r :: r in Neighbours(q, w, h) && ZeroSeed(g0, g', w, h, start, r)
    {
      if Uncovered(g0, g, w, h, start, q) {
        var r :| r in Neighbours(q, w, h) && ZeroSeed(g0, g, w, h, start, r);
        assert ZeroSeed(g0, g', w, h, start, r);
      } else {
        assert q in ns && c in Neighbours(q, w, h);
        assert ZeroSeed(g0, g', w, h, start, c);
      }
    }
  }

  /** Writing a tile's own value back changes nothing. */
  lemma SetSame(g: Tiles, p: Pos)
    requires InGrid(g, p)
    ensures Set(g, p, At(g, p)) == g
  {
    assert g[p.y][p.x := g[p.y][p.x]] == g[p.y];
  }

  /** g after f has been applied, in order, to each position of ps and the tile there. */
  function ApplyAt(g: Tiles, ps: seq<Pos>, f: (Pos, TileValue) -> TileValue): (r: Tiles)
    requires forall i :: 0 <= i < |ps| ==> InGrid(g, ps[i])
    ensures |r| == |g| && forall y :: 0 <= y < |g| ==> |r[y]| == |g[y]|
  {
    if ps == [] then g
    else
      var prev := ApplyAt(g, ps[..|ps| - 1], f);
      var q := ps[|ps| - 1];
      assert InGrid(g, q) && |prev[q.y]| == |g[q.y]|;
      Set(prev, q, f(q, At(prev, q)))
  }

  /** One more step of ApplyAt. */
  lemma ApplyAtStep(g: Tiles, ps: seq<Pos>, i: int, f: (Pos, TileValue) -> TileValue)
    requires forall j :: 0 <= j < |ps| ==> InGrid(g, ps[j])
    requires 0 <= i < |ps|
    ensures ApplyAt(g, ps[..i + 1], f) == Set(ApplyAt(g, ps[..i], f), ps[i], f(ps[i], At(ApplyAt(g, ps[..i], f), ps[i])))
  {
    assert ps[..i + 1][..i] == ps[..i];
  }

  /** A grid one step of ApplyAt past cur is the grid ApplyAt gives for one more position. */
  lemma ApplyAtAdvance(g: Tiles, ps: seq<Pos>, i: int, f: (Pos, TileValue) -> TileValue, cur: Tiles, next: Tiles)
    requires forall j :: 0 <= j < |ps| ==> InGrid(g, ps[j])
    requires 0 <= i < |ps|
    requires cur == ApplyAt(g, ps[..i], f)
    requires InGrid(cur, ps[i]) && next == Set(cur, ps[i], f(ps[i], At(cur, ps[i])))
    ensures next == ApplyAt(g, ps[..i + 1], f)
  {
    ApplyAtStep(g, ps, i, f);
  }

  /** Over a list without repeats, ApplyAt applies f once to every tile listed and leaves the others alone. */
  lemma {:induction false} ApplyAtDistinct(g: Tiles, ps: seq<Pos>, f: (Pos, TileValue) -> TileValue)
    requires forall i :: 0 <= i < |ps| ==> InGrid(g, ps[i])
    requires Distinct(ps)
    ensures forall q {:trigger At(ApplyAt(g, ps, f), q)} :: InGrid(g, q) ==>
      At(ApplyAt(g, ps, f), q) == if q in ps then f(q, At(g, q)) else At(g, q)
  {
    if ps != [] {
      var init := ps[..|ps| - 1];
      var last := ps[|ps| - 1];
      ApplyAtDistinct(g, init, f);
      assert last !in init by {
        assert forall i :: 0 <= i < |init| ==> init[i] == ps[i] && ps[i] != ps[|ps| - 1];
      }
      var prev := ApplyAt(g, init, f);
      assert InGrid(g, last);
      assert At(prev, last) == At(g, last);
      assert ApplyAt(g, ps, f) == Set(prev, last, f(last, At(g, last)));
      assert forall q :: q in ps <==> q in init || q == last by {
        assert ps == init + [last];
      }
    }
  }

  /** A property of tiles that f never changes is the same before and after ApplyAt. */
  lemma {:induction false} ApplyAtKeeps(g: Tiles, ps: seq<Pos>, f: (Pos, TileValue) -> TileValue, P: TileValue -> bool)
    requires forall i :: 0 <= i < |ps| ==> InGrid(g, ps[i])
    requires forall q, t :: P(f(q, t)) == P(t)
    ensures forall q {:trigger At(ApplyAt(g, ps, f), q)} :: InGrid(g, q) ==> P(At(ApplyAt(g, ps, f), q)) == P(At(g, q))
  {
    if ps != [] {
      ApplyAtKeeps(g, ps[..|ps| - 1], f, P);
    }
  }

  /**
   * The state of a row-major sweep over the board: f has been applied to
   * every tile before the cursor c, and no other tile has changed.
   */
  ghost predicate AppliedBefore(g0: Tiles, g: Tiles, w: int, h: int, f: (Pos, TileValue) -> TileValue, c: Pos) {
    && Shaped(g0, w, h) && Shaped(g, w, h)
    && forall p {:trigger At(g, p)} :: InBounds(p, w, h) ==>
         At(g, p) == if Before(p, c) then f(p, At(g0, p)) else At(g0, p)
  }

  /** Updating the tile under the cursor moves the cursor one column on. */
  lemma AppliedStep(g0: Tiles, g: Tiles, w: int, h: int, f: (Pos, TileValue) -> TileValue, x: int, y: int)
    requires AppliedBefore(g0, g, w, h, f, Pos(x, y))
    requires 0 <= x < w && 0 <= y < h
    ensures At(g, Pos(x, y)) == At(g0, Pos(x, y))
    ensures AppliedBefore(g0, Set(g, Pos(x, y), f(Pos(x, y), At(g, Pos(x, y)))), w, h, f, Pos(x + 1, y))
  {
    var c := Pos(x, y);
    var g' := Set(g, c, f(c, At(g, c)));
    assert InBounds(c, w, h) && !Before(c, c);
    forall p | InBounds(p, w, h)
      ensures At(g', p) == if Before(p, Pos(x + 1, y)) then f(p, At(g0, p)) else At(g0, p)
    {
      assert Before(p, Pos(x + 1, y)) <==> Before(p, c) || p == c;
    }
  }

  /** A cursor past the end of a row is the cursor at the start of the next row. */
  lemma AppliedRow(g0: Tiles, g: Tiles, w: int, h: int, f: (Pos, TileValue) -> TileValue, y: int)
    requires AppliedBefore(g0, g, w, h, f, Pos(w, y))
    ensures AppliedBefore(g0, g, w, h, f, Pos(0, y + 1))
  {
    forall p | InBounds(p, w, h)
      ensures Before(p, Pos(w, y)) == Before(p, Pos(0, y + 1))
    {
    }
  }

  /** The per-position updates the board's loops apply. */
  function MarkAt(q: Pos, t: TileValue): TileValue { ChordMark(t) }

  function UnmarkAt(q: Pos, t: TileValue): TileValue { UnPreChord(t) }

  function RevealAt(q: Pos, t: TileValue): TileValue { Reveal(t) }

  function ClearAt(q: Pos, t: TileValue): TileValue { UNREVEALED_EMPTY }

  /** What the flood fill does to a neighbour: uncovers it when it may. */
  function UncoverAt(q: Pos, t: TileValue): TileValue {
    if CanFlood(t) then Reveal(t) else t
  }

  /** Numbering against g: a tile that is not a mine gets the number of mines around it in g. */
  function NumberAt(g: Tiles, w: int, h: int): (Pos, TileValue) -> TileValue
    requires Shaped(g, w, h)
  {
    (q: Pos, t: TileValue) => if IsMine(t) then t else CreateUnrevealed(CountAround(g, q, w, h, IsMine))
  }

  /** A numbering sweep, wherever its cursor is, keeps every mine and every tile unrevealed and unflagged. */
  lemma NumberingKeeps(g0: Tiles, g: Tiles, w: int, h: int, c: Pos)
    requires Shaped(g0, w, h)
    requires forall p :: InBounds(p, w, h) ==> UNREVEALED_OFFSET <= At(g0, p) < FLAGGED_OFFSET
    requires AppliedBefore(g0, g, w, h, NumberAt(g0, w, h), c)
    ensures forall p {:trigger At(g, p)} :: InBounds(p, w, h) ==>
      IsMine(At(g, p)) == IsMine(At(g0, p)) && UNREVEALED_OFFSET <= At(g, p) < FLAGGED_OFFSET
  {
  }

  /**
   * A finished numbering sweep: every tile that is not a mine holds the
   * number of its neighbours that are mines, and the mines are where they were.
   */
  lemma NumberingSpec(g0: Tiles, g: Tiles, w: int, h: int)
    requires Shaped(g0, w, h)
    requires forall p :: InBounds(p, w, h) ==> UNREVEALED_OFFSET <= At(g0, p) < FLAGGED_OFFSET
    requires AppliedBefore(g0, g, w, h, NumberAt(g0, w, h), Pos(0, h))
    ensures forall p :: InBounds(p, w, h) ==>
      IsMine(At(g, p)) == IsMine(At(g0, p)) && UNREVEALED_OFFSET <= At(g, p) < FLAGGED_OFFSET
    ensures CountsConsistent(g, w, h)
    ensures CountGrid(g, IsMine) == CountGrid(g0, IsMine)
  {
    NumberingKeeps(g0, g, w, h, Pos(0, h));
    forall p | InBounds(p, w, h)
      ensures ConsistentAt(g, p, w, h)
    {
      CountAroundSame(g, g0, p, w, h, IsMine);
      assert Before(p, Pos(0, h));
    }
    forall p | InGrid(g0, p)
      ensures IsMine(At(g0, p)) == IsMine(At(g, p))
    {
      assert InBounds(p, w, h);
    }
    CountGridSame(g0, g, IsMine);
  }

  /** A board of plain unrevealed tiles whose counts are consistent: encoded, unflagged, without chord marks. */
  lemma FreshBoard(g: Tiles, w: int, h: int)
    requires Shaped(g, w, h)
    requires forall p :: InBounds(p, w, h) ==> UNREVEALED_OFFSET <= At(g, p) < FLAGGED_OFFSET
    ensures AllEncoded(g) && PreChordsAround(g, w, h, None) && CountGrid(g, IsFlagged) == 0
  {
    forall p | InGrid(g, p)
      ensures IsEncoded(At(g, p)) && !IsFlagged(At(g, p))
    {
      assert InBounds(p, w, h);
    }
    CountGridNone(g, IsFlagged);
  }

  /** Renumbering a grid that holds mines exactly at mines keeps them exactly there. */
  lemma MinesKept(placed: Tiles, g: Tiles, w: int, h: int, mines: seq<Pos>)
    requires Shaped(placed, w, h) && Shaped(g, w, h)
    requires forall p :: InBounds(p, w, h) ==>
      At(placed, p) == if p in mines then UNREVEALED_MINE else UNREVEALED_EMPTY
    requires forall p :: InBounds(p, w, h) ==> IsMine(At(g, p)) == IsMine(At(placed, p))
    ensures forall p :: InBounds(p, w, h) ==> (IsMine(At(g, p)) <==> p in mines)
  {
  }

  /** Two grids of one shape that agree tile by tile are equal. */
  lemma GridExtensional(g1: Tiles, g2: Tiles, w: int, h: int)
    requires Shaped(g1, w, h) && Shaped(g2, w, h)
    requires forall p :: InBounds(p, w, h) ==> At(g1, p) == At(g2, p)
    ensures g1 == g2
  {
    forall y | 0 <= y < h
      ensures g1[y] == g2[y]
    {
      forall x | 0 <= x < w
        ensures g1[y][x] == g2[y][x]
      {
        assert InBounds(Pos(x, y), w, h);
      }
    }
  }

  /** g with every chord-preview mark removed. */
  function UnPreChordAll(g: Tiles): (r: Tiles)
    ensures |r| == |g| && forall y :: 0 <= y < |g| ==> |r[y]| == |g[y]|
    ensures forall p {:trigger At(r, p)} :: InGrid(g, p) ==> At(r, p) == UnPreChord(At(g, p))
  {
    seq(|g|, y requires 0 <= y < |g| =>
      var row: seq<TileValue> := seq(|g[y]|, x requires 0 <= x < |g[y]| => UnPreChord(g[y][x]));
      row)
  }

  /** Neighbour counts by P agree in grids that agree on P everywhere. */
  lemma CountAroundSame(g1: Tiles, g2: Tiles, p: Pos, w: int, h: int, P: TileValue -> bool)
    requires Shaped(g1, w, h) && Shaped(g2, w, h)
    requires forall q :: InBounds(q, w, h) ==> P(At(g1, q)) == P(At(g2, q))
    ensures CountAround(g1, p, w, h, P) == CountAround(g2, p, w, h, P)
  {
    var ns := Neighbours(p, w, h);
    CountAtSame(g1, g2, ns, P);
  }

  /** A change that keeps every tile's flag and base value keeps the flag count and the consistency of the counts. */
  lemma SameFlagsAndBases(g0: Tiles, g1: Tiles, w: int, h: int)
    requires Shaped(g0, w, h) && Shaped(g1, w, h)
    requires forall p :: InBounds(p, w, h) ==>
      IsFlagged(At(g1, p)) == IsFlagged(At(g0, p)) && GetAdjacentMines(At(g1, p)) == GetAdjacentMines(At(g0, p))
    ensures CountGrid(g1, IsFlagged) == CountGrid(g0, IsFlagged)
    ensures CountsConsistent(g0, w, h) ==> CountsConsistent(g1, w, h)
  {
    forall p | InGrid(g0, p)
      ensures IsFlagged(At(g0, p)) == IsFlagged(At(g1, p))
    {
      assert InBounds(p, w, h);
    }
    CountGridSame(g0, g1, IsFlagged);
    if CountsConsistent(g0, w, h) {
      ConsistentTransfer(g0, g1, w, h);
    }
  }

  /**
   * The flood fill's loop invariant, from g0 to g: toProcess holds seeds,
   * every processed tile is settled, every seed is processed or waiting,
   * and every uncovered tile touches a seed.
   */
  ghost predicate FillInvariant(g0: Tiles, g: Tiles, w: int, h: int, start: Pos, toProcess: seq<Pos>, processed: set<Pos>) {
    && FloodReveals(g0, g, w, h) && AllEncoded(g0) && AllEncoded(g)
    && InBounds(start, w, h) && IsRevealed(At(g0, start))
    && (forall q {:trigger q in toProcess} :: q in toProcess ==> ZeroSeed(g0, g, w, h, start, q))
    && (forall q {:trigger q in processed} :: q in processed ==> Settled(g, w, h, q))
    && (forall q {:trigger ZeroSeed(g0, g, w, h, start, q)} :: ZeroSeed(g0, g, w, h, start, q) ==> q in processed || q in toProcess)
    && FillSupported(g0, g, w, h, start)
  }

  /** The fill starts with only its start tile queued. */
  lemma FillStart(g0: Tiles, w: int, h: int, start: Pos)
    requires Shaped(g0, w, h) && AllEncoded(g0)
    requires InBounds(start, w, h) && IsRevealed(At(g0, start)) && GetAdjacentMines(At(g0, start)) == 0
    ensures FillInvariant(g0, g0, w, h, start, [start], {})
  {
    assert ZeroSeed(g0, g0, w, h, start, start);
  }

  /** One round from the head of the queue keeps the fill's loop invariant. */
  lemma FillAdvance(g0: Tiles, g: Tiles, w: int, h: int, start: Pos, toProcess: seq<Pos>, processed: set<Pos>)
    requires FillInvariant(g0, g, w, h, start, toProcess, processed) && |toProcess| > 0
    ensures forall i :: 0 <= i < |Neighbours(toProcess[0], w, h)| ==> InGrid(g, Neighbours(toProcess[0], w, h)[i])
    ensures var ns := Neighbours(toProcess[0], w, h);
      FillInvariant(g0, ApplyAt(g, ns, UncoverAt), w, h, start, toProcess[1..] + Queued(g, ns), processed + {toProcess[0]})
  {
    var c := toProcess[0];
    var rest := toProcess[1..];
    assert c in toProcess && toProcess == [c] + rest;
    assert forall q {:trigger q in rest} :: q in rest ==> q in toProcess;
    FillRound(g0, g, w, h, start, c);
  }

  /** When the queue is empty the fill is closed and supported. */
  lemma FillDone(g0: Tiles, g: Tiles, w: int, h: int, start: Pos, processed: set<Pos>)
    requires FillInvariant(g0, g, w, h, start, [], processed)
    ensures FloodReveals(g0, g, w, h)
    ensures FillClosed(g0, g, w, h, start) && FillSupported(g0, g, w, h, start)
  {
  }

  /** The fill's seeds do not depend on the start tile's value before the fill. */
  lemma SeedsIgnoreStart(g0: Tiles, g0': Tiles, g1: Tiles, w: int, h: int, start: Pos)
    requires Shaped(g0, w, h) && Shaped(g0', w, h) && Shaped(g1, w, h)
    requires forall q {:trigger At(g0', q)} :: InBounds(q, w, h) && q != start ==> At(g0, q) == At(g0', q)
    requires FillClosed(g0', g1, w, h, start) && FillSupported(g0', g1, w, h, start)
    ensures FillClosed(g0, g1, w, h, start) && FillSupported(g0, g1, w, h, start)
  {
    forall q | ZeroSeed(g0, g1, w, h, start, q)
      ensures Settled(g1, w, h, q)
    {
      assert ZeroSeed(g0', g1, w, h, start, q);
    }
    forall q | Uncovered(g0, g1, w, h, start, q)
      ensures exists r :: r in Neighbours(q, w, h) && ZeroSeed(g0, g1, w, h, start, r)
    {
      assert Uncovered(g0', g1, w, h, start, q);
      var r :| r in Neighbours(q, w, h) && ZeroSeed(g0', g1, w, h, start, r);
      assert ZeroSeed(g0, g1, w, h, start, r);
    }
  }

  /**
   * Changing one tile to an encoded value with the same base value keeps the
   * grid's invariants and moves the flag count by that tile's change.
   */
  lemma UpdateKeeps(g: Tiles, w: int, h: int, p: Pos, v: TileValue, anchor: Option<Pos>)
    requires Shaped(g, w, h) && InBounds(p, w, h)
    requires IsEncoded(v) && GetAdjacentMines(v) == GetAdjacentMines(At(g, p))
    requires IsPreChorded(v) ==> anchor.Some? && Adjacent(anchor.value, p)
    ensures Shaped(Set(g, p, v), w, h)
    ensures AllEncoded(g) ==> AllEncoded(Set(g, p, v))
    ensures CountGrid(Set(g, p, v), IsFlagged) == CountGrid(g, IsFlagged) - BoolToNat(IsFlagged(At(g, p))) + BoolToNat(IsFlagged(v))
    ensures PreChordsAround(g, w, h, anchor) ==> PreChordsAround(Set(g, p, v), w, h, anchor)
    ensures CountsConsistent(g, w, h) ==> CountsConsistent(Set(g, p, v), w, h)
  {
    var r := Set(g, p, v);
    if AllEncoded(g) {
      forall q | InGrid(r, q)
        ensures IsEncoded(At(r, q))
      {
        assert InGrid(g, q);
      }
    }
    CountGridUpdate(g, p, v, IsFlagged);
    if CountsConsistent(g, w, h) {
      ConsistentTransfer(g, r, w, h);
    }
  }

  /** Removing every mark keeps flags, base values and consistency, and leaves no mark. */
  lemma UnPreChordAllKeeps(g: Tiles, w: int, h: int)
    requires Shaped(g, w, h)
    ensures Shaped(UnPreChordAll(g), w, h)
    ensures AllEncoded(g) ==> AllEncoded(UnPreChordAll(g))
    ensures CountGrid(UnPreChordAll(g), IsFlagged) == CountGrid(g, IsFlagged)
    ensures PreChordsAround(UnPreChordAll(g), w, h, None)
    ensures CountsConsistent(g, w, h) ==> CountsConsistent(UnPreChordAll(g), w, h)
  {
    var r := UnPreChordAll(g);
    if AllEncoded(g) {
      forall q | InGrid(r, q)
        ensures IsEncoded(At(r, q))
      {
        assert InGrid(g, q);
      }
    }
    SameFlagsAndBases(g, r, w, h);
  }

  /** When the marks sit around the anchor, removing those around it removes them all. */
  lemma CancelAround(g: Tiles, w: int, h: int, anchor: Pos)
    requires Shaped(g, w, h) && PreChordsAround(g, w, h, Some(anchor))
    ensures ApplyAt(g, Neighbours(anchor, w, h), UnmarkAt) == UnPreChordAll(g)
  {
    var ns := Neighbours(anchor, w, h);
    NeighboursDistinct(anchor, w, h);
    ApplyAtDistinct(g, ns, UnmarkAt);
    var r := ApplyAt(g, ns, UnmarkAt);
    forall p | InBounds(p, w, h)
      ensures At(r, p) == At(UnPreChordAll(g), p)
    {
      assert InGrid(g, p);
    }
    GridExtensional(r, UnPreChordAll(g), w, h);
  }

  /** Marking the neighbours of an anchor on an unmarked grid keeps the grid's invariants and places the marks around the anchor. */
  lemma MarkAround(g: Tiles, w: int, h: int, anchor: Pos)
    requires Shaped(g, w, h) && AllEncoded(g) && PreChordsAround(g, w, h, None)
    ensures var r := ApplyAt(g, Neighbours(anchor, w, h), MarkAt);
      && Shaped(r, w, h)
      && (forall p {:trigger At(r, p)} :: InBounds(p, w, h) ==> At(r, p) == if Adjacent(anchor, p) then ChordMark(At(g, p)) else At(g, p))
      && AllEncoded(r)
      && CountGrid(r, IsFlagged) == CountGrid(g, IsFlagged)
      && PreChordsAround(r, w, h, Some(anchor))
      && (CountsConsistent(g, w, h) ==> CountsConsistent(r, w, h))
  {
    var ns := Neighbours(anchor, w, h);
    NeighboursDistinct(anchor, w, h);
    ApplyAtDistinct(g, ns, MarkAt);
    var r := ApplyAt(g, ns, MarkAt);
    forall q | InGrid(r, q)
      ensures IsEncoded(At(r, q))
    {
      assert InGrid(g, q);
    }
    SameFlagsAndBases(g, r, w, h);
  }

  /**
   * The grid after a chord preview on anchor: every old mark removed, then,
   * when the anchor is a revealed number, its neighbours marked.
   */
  ghost function Preview(g: Tiles, w: int, h: int, anchor: Pos): Tiles
    requires Shaped(g, w, h)
  {
    var c := UnPreChordAll(g);
    if InBounds(anchor, w, h) && CanChord(At(c, anchor)) then ApplyAt(c, Neighbours(anchor, w, h), MarkAt) else c
  }

  /**
   * A preview marks exactly the unrevealed, unflagged neighbours of a
   * revealed number, removes every other mark, and keeps the grid's
   * invariants.
   */
  lemma PreviewSpec(g: Tiles, w: int, h: int, anchor: Pos)
    requires Shaped(g, w, h) && AllEncoded(g) && InBounds(anchor, w, h)
    ensures var r := Preview(g, w, h, anchor);
      && Shaped(r, w, h)
      && (forall p {:trigger At(r, p)} :: InBounds(p, w, h) ==>
            At(r, p) == if CanChord(At(g, anchor)) && Adjacent(anchor, p) then ChordMark(UnPreChord(At(g, p))) else UnPreChord(At(g, p)))
      && AllEncoded(r)
      && CountGrid(r, IsFlagged) == CountGrid(g, IsFlagged)
      && PreChordsAround(r, w, h, if CanChord(At(g, anchor)) then Some(anchor) else None)
      && (CountsConsistent(g, w, h) ==> CountsConsistent(r, w, h))
  {
    var c := UnPreChordAll(g);
    UnPreChordAllKeeps(g, w, h);
    assert At(c, anchor) == UnPreChord(At(g, anchor));
    if CanChord(At(c, anchor)) {
      MarkAround(c, w, h, anchor);
    }
  }


  /** Consistency of the counts depends only on the base values. */
  lemma ConsistentTransfer(g1: Tiles, g2: Tiles, w: int, h: int)
    requires SameBases(g1, g2, w, h)
    requires CountsConsistent(g1, w, h)
    ensures CountsConsistent(g2, w, h)
  {
    forall p | InBounds(p, w, h)
      ensures ConsistentAt(g2, p, w, h)
    {
      assert ConsistentAt(g1, p, w, h);
      var ns := Neighbours(p, w, h);
      forall i | 0 <= i < |ns|
        ensures IsMine(At(g1, ns[i])) == IsMine(At(g2, ns[i]))
      {
        assert ns[i] in ns;
      }
      CountAtSame(g1, g2, ns, IsMine);
    }
  }

  /** Revealing tiles keeps flags, base values, consistency and the pre-chord marks' placement. */
  lemma RevealsOnlyKeeps(g0: Tiles, g1: Tiles, w: int, h: int, anchor: Option<Pos>)
    requires RevealsOnly(g0, g1, w, h)
    requires AllEncoded(g0)
    ensures AllEncoded(g1)
    ensures SameBases(g0, g1, w, h)
    ensures forall p {:trigger At(g1, p)} :: InBounds(p, w, h) ==>
      && (IsRevealed(At(g0, p)) ==> At(g1, p) == At(g0, p))
      && IsFlagged(At(g1, p)) == IsFlagged(At(g0, p))
    ensures CountGrid(g1, IsFlagged) == CountGrid(g0, IsFlagged)
    ensures PreChordsAround(g0, w, h, anchor) ==> PreChordsAround(g1, w, h, anchor)
    ensures CountsConsistent(g0, w, h) ==> CountsConsistent(g1, w, h)
  {
    forall p | InGrid(g1, p)
      ensures IsEncoded(At(g1, p))
    {
      assert InBounds(p, w, h);
    }
    SameFlagsAndBases(g0, g1, w, h);
  }

  /** Revealing twice is revealing once. */
  lemma RevealsOnlyTransitive(g0: Tiles, g1: Tiles, g2: Tiles, w: int, h: int)
    requires AllEncoded(g0)
    requires RevealsOnly(g0, g1, w, h) && RevealsOnly(g1, g2, w, h)
    ensures RevealsOnly(g0, g2, w, h)
  {
  }

  /** Some tile that was covered in g0 is a revealed mine in g. */
  ghost predicate MineUncovered(g0: Tiles, g: Tiles, w: int, h: int)
    requires Shaped(g0, w, h) && Shaped(g, w, h)
  {
    exists p :: InBounds(p, w, h) && IsMine(At(g, p)) && IsRevealed(At(g, p)) && !IsRevealed(At(g0, p))
  }

  /** Every tile that differs between g0 and g is listed in ns or could be flooded in g0. */
  ghost predicate ChangedWithin(g0: Tiles, g: Tiles, w: int, h: int, ns: seq<Pos>)
    requires Shaped(g0, w, h) && Shaped(g, w, h)
  {
    forall p :: InBounds(p, w, h) && At(g, p) != At(g0, p) ==> p in ns || CanFlood(At(g0, p))
  }

  /** Changes confined to q or to floodable tiles, after changes confined to ns, stay within ns when q is in ns. */
  lemma ChangedWithinStep(g0: Tiles, g1: Tiles, g2: Tiles, w: int, h: int, ns: seq<Pos>, q: Pos)
    requires Shaped(g0, w, h) && Shaped(g1, w, h) && Shaped(g2, w, h)
    requires ChangedWithin(g0, g1, w, h, ns) && ChangedWithin(g1, g2, w, h, [q]) && q in ns
    ensures ChangedWithin(g0, g2, w, h, ns)
  {
  }

  /** A mine revealed at q after a run of reveals that had left q covered was covered at the start of that run. */
  lemma MineUncoveredAt(g0: Tiles, g1: Tiles, g2: Tiles, w: int, h: int, q: Pos)
    requires AllEncoded(g0) && RevealsOnly(g0, g1, w, h) && Shaped(g2, w, h) && InBounds(q, w, h)
    requires !IsRevealed(At(g1, q)) && IsMine(At(g2, q)) && IsRevealed(At(g2, q))
    ensures MineUncovered(g0, g2, w, h)
  {
    assert !IsRevealed(At(g0, q));
  }

  /**
   * A step that reveals q, when q is not a mine, and otherwise only floodable
   * tiles, uncovers no mine: any mine uncovered since g0 was already uncovered
   * before the step.
   */
  lemma NoMineUncoveredStep(g0: Tiles, g1: Tiles, g2: Tiles, w: int, h: int, q: Pos)
    requires Shaped(g0, w, h) && Shaped(g1, w, h) && Shaped(g2, w, h) && AllEncoded(g1) && InBounds(q, w, h)
    requires RevealsOnly(g1, g2, w, h) && ChangedWithin(g1, g2, w, h, [q])
    requires At(g2, q) == At(g1, q) || !IsMine(At(g1, q))
    ensures MineUncovered(g0, g2, w, h) ==> MineUncovered(g0, g1, w, h)
  {
  }

  lemma FloodRevealsIsRevealsOnly(g0: Tiles, g1: Tiles, w: int, h: int)
    requires FloodReveals(g0, g1, w, h)
    ensures RevealsOnly(g0, g1, w, h)
  {
  }

  // ---------------------------------------------------------------------------
  // Mine candidates: all positions in row-major order, without the safe one

  function RowCandidates(y: int, cols: nat, safe: Option<Pos>): seq<Pos> {
    if cols == 0 then []
    else RowCandidates(y, cols - 1, safe) + (if safe == Some(Pos(cols - 1, y)) then [] else [Pos(cols - 1, y)])
  }

  function Candidates(w: nat, rows: nat, safe: Option<Pos>): seq<Pos> {
    if rows == 0 then [] else Candidates(w, rows - 1, safe) + RowCandidates(rows - 1, w, safe)
  }

  predicate Distinct(s: seq<Pos>) {
    forall i, j :: 0 <= i < j < |s| ==> s[i] != s[j]
  }

  function SafeIn(safe: Option<Pos>, w: int, h: int): nat {
    if safe.Some? && InBounds(safe.value, w, h) then 1 else 0
  }

  lemma {:induction false} RowCandidatesSpec(y: int, cols: nat, safe: Option<Pos>)
    ensures forall p :: p in RowCandidates(y, cols, safe) <==> p.y == y && 0 <= p.x < cols && Some(p) != safe
    ensures Distinct(RowCandidates(y, cols, safe))
    ensures |RowCandidates(y, cols, safe)| == cols - (if safe.Some? && safe.value.y == y && 0 <= safe.value.x < cols then 1 else 0)
  {
    if cols > 0 {
      RowCandidatesSpec(y, cols - 1, safe);
      var s := RowCandidates(y, cols - 1, safe);
      forall i, j | 0 <= i < j < |RowCandidates(y, cols, safe)|
        ensures RowCandidates(y, cols, safe)[i] != RowCandidates(y, cols, safe)[j]
      {
        if j >= |s| {
          assert s[i] in s;
        }
      }
    }
  }

  /**
   * The candidate list holds every in-bounds position except the safe one,
   * each once: width * rows of them, one fewer when the safe position is on the board.
   */
  lemma {:induction false} CandidatesSpec(w: nat, rows: nat, safe: Option<Pos>)
    ensures forall p {:trigger p in Candidates(w, rows, safe)} :: p in Candidates(w, rows, safe) <==> InBounds(p, w, rows) && Some(p) != safe
    ensures Distinct(Candidates(w, rows, safe))
    ensures |Candidates(w, rows, safe)| == w * rows - SafeIn(safe, w, rows)
  {
    if rows > 0 {
      CandidatesSpec(w, rows - 1, safe);
      RowCandidatesSpec(rows - 1, w, safe);
      var s := Candidates(w, rows - 1, safe);
      var r := RowCandidates(rows - 1, w, safe);
      CandidatesDistinctStep(s, r, rows - 1);
      CandidatesSizeStep(w, rows, safe, |s|, |r|);
    }
  }

  lemma CandidatesDistinctStep(s: seq<Pos>, r: seq<Pos>, y: int)
    requires Distinct(s) && Distinct(r)
    requires forall p :: p in s ==> p.y < y
    requires forall p :: p in r ==> p.y == y
    ensures Distinct(s + r)
  {
    var c := s + r;
    forall i, j | 0 <= i < j < |c|
      ensures c[i] != c[j]
    {
      if i < |s| && j >= |s| {
        assert s[i] in s;
        assert r[j - |s|] in r;
      }
    }
  }

  lemma CandidatesSizeStep(w: nat, rows: nat, safe: Option<Pos>, before: int, row: int)
    requires rows > 0
    requires before == w * (rows - 1) - SafeIn(safe, w, rows - 1)
    requires row == w - (if safe.Some? && safe.value.y == rows - 1 && 0 <= safe.value.x < w then 1 else 0)
    ensures before + row == w * rows - SafeIn(safe, w, rows)
  {
    assert w * rows == w * (rows - 1) + w;
  }

  /** The shuffle's output: a permutation of 0..n-1. */
  predicate IsPermutation(perm: seq<int>, n: int) {
    && |perm| == n
    && (forall i :: 0 <= i < n ==> 0 <= perm[i] < n)
    && (forall i, j :: 0 <= i < j < n ==> perm[i] != perm[j])
  }

  /** The list s reordered by perm. */
  function Shuffle(s: seq<Pos>, perm: seq<int>): (r: seq<Pos>)
    requires IsPermutation(perm, |s|)
    ensures |r| == |s|
    ensures forall q :: q in r ==> q in s
    ensures Distinct(s) ==> Distinct(r)
  {
    seq(|s|, i requires 0 <= i < |s| => s[perm[i]])
  }

  /** The mines a new game places: the first MinesToPlace candidates of the shuffled list. */
  function PlacedMines(w: nat, h: nat, safe: Option<Pos>, perm: seq<int>, mineCount: int): seq<Pos>
    requires IsPermutation(perm, |Candidates(w, h, safe)|)
  {
    Shuffle(Candidates(w, h, safe), perm)[..MinesToPlace(mineCount, |Candidates(w, h, safe)|)]
  }

  /**
   * The placed mines are distinct cells of the board, never the safe cell,
   * and there are mineCount of them unless the board has fewer candidates.
   */
  lemma PlacedMinesSpec(w: nat, h: nat, safe: Option<Pos>, perm: seq<int>, mineCount: int)
    requires IsPermutation(perm, |Candidates(w, h, safe)|)
    ensures var r := PlacedMines(w, h, safe, perm, mineCount);
      && Distinct(r)
      && |r| == MinesToPlace(mineCount, w * h - SafeIn(safe, w, h))
      && forall p {:trigger p in r} :: p in r ==> InBounds(p, w, h) && Some(p) != safe
  {
    CandidatesSpec(w, h, safe);
    var shuffled := Shuffle(Candidates(w, h, safe), perm);
    var k := MinesToPlace(mineCount, |shuffled|);
    assert forall p {:trigger p in shuffled[..k]} :: p in shuffled[..k] ==> p in shuffled;
  }

  /** Every tile of g is an unrevealed mine if listed in mines and an unrevealed empty tile otherwise. */
  ghost predicate MinesAt(g: Tiles, w: int, h: int, mines: seq<Pos>) {
    && Shaped(g, w, h)
    && forall p {:trigger At(g, p)} :: InBounds(p, w, h) ==>
         At(g, p) == if p in mines then UNREVEALED_MINE else UNREVEALED_EMPTY
  }

  /** Placing a mine on a cell not yet listed lists it, and adds one to the mine count. */
  lemma MineStep(g: Tiles, w: int, h: int, mines: seq<Pos>, q: Pos)
    requires MinesAt(g, w, h, mines) && InBounds(q, w, h) && q !in mines
    ensures MinesAt(Set(g, q, UNREVEALED_MINE), w, h, mines + [q])
    ensures CountGrid(Set(g, q, UNREVEALED_MINE), IsMine) == CountGrid(g, IsMine) + 1
  {
    var g' := Set(g, q, UNREVEALED_MINE);
    forall p | InBounds(p, w, h)
      ensures At(g', p) == if p in mines + [q] then UNREVEALED_MINE else UNREVEALED_EMPTY
    {
      assert p in mines + [q] <==> p in mines || p == q;
    }
    CountGridUpdate(g, q, UNREVEALED_MINE, IsMine);
  }

  /** How many mines the placement loop places: mineCount, but no more than there are candidates. */
  function MinesToPlace(mineCount: int, candidates: nat): (k: nat)
    ensures k <= candidates
    ensures mineCount >= 0 ==> k == if mineCount < candidates then mineCount else candidates
  {
    if mineCount <= 0 then 0 else if mineCount < candidates then mineCount else candidates
  }
}
