/**
 * The tile layout calculator: picks a tile size in pixels for a grid of
 * tiles with tile-based padding, so that the whole grid fits a viewport
 * less its pixel margins, and derives the window size, the board origin and
 * a font size from it. Pure integer arithmetic; C++ `int` division, which
 * truncates toward zero, is written out as TruncDiv.
 */
module TileLayout {

  /** Grid dimensions, in tiles. */
  datatype TileGrid = TileGrid(cols: int, rows: int)

  /** A viewport size, in pixels. */
  datatype ViewportPx = ViewportPx(width: int, height: int)

  /** Padding around the grid, in tiles, one field per side. */
  datatype PaddingTiles = PaddingTiles(top: int, right: int, bottom: int, left: int)

  /** Pixel margins kept free for safe areas, one field per side. */
  datatype MarginsPx = MarginsPx(top: int, right: int, bottom: int, left: int)

  /** The preferred tile size, which is also the largest, and the unit tile sizes are snapped to. */
  datatype TileConstraints = TileConstraints(preferredTileSize: int, actualTileSize: int)

  datatype TileLayoutResult = TileLayoutResult(
    tileSize: int,
    windowWidth: int,
    windowHeight: int,
    boardOriginX: int,
    boardOriginY: int,
    fontSize: int,
    totalTilesWidth: int,
    totalTilesHeight: int)

  /** The default padding: one tile on every side. */
  const DefaultPadding := PaddingTiles(1, 1, 1, 1)

  /** The default pixel margins: none. */
  const NoMargins := MarginsPx(0, 0, 0, 0)

  /** The default constraints: 128-pixel tiles preferred, sizes snapped to multiples of 16. */
  const DefaultConstraints := TileConstraints(128, 16)

  function Max(a: int, b: int): (m: int)
    ensures m >= a && m >= b && (m == a || m == b)
  {
    if a >= b then a else b
  }

  function Min(a: int, b: int): (m: int)
    ensures m <= a && m <= b && (m == a || m == b)
  {
    if a <= b then a else b
  }

  /** C++ integer division by a positive divisor: the quotient is rounded toward zero. */
  function TruncDiv(a: int, b: int): (q: int)
    requires b > 0
    ensures 0 <= a ==> 0 <= q * b <= a < q * b + b
    ensures a < 0 ==> q * b - b < a <= q * b <= 0
  {
    if a >= 0 then
      DivBounds(a, b);
      a / b
    else
      DivBounds(-a, b);
      MulNeg((-a) / b, b);
      -((-a) / b)
  }

  /**
   * Rounds value toward zero to a multiple of multiple; a multiple of at
   * most 1 leaves the value as it is. For a non-negative value this is the
   * largest multiple not above it.
   */
  function SnapDownToMultiple(value: int, multiple: int): (r: int)
    ensures multiple <= 1 ==> r == value
    ensures multiple > 1 ==> r % multiple == 0
    ensures multiple > 1 && value >= 0 ==> 0 <= r <= value < r + multiple
    ensures multiple > 1 && value < 0 ==> r - multiple < value <= r <= 0
  {
    if multiple <= 1 then value
    else
      var q := TruncDiv(value, multiple);
      MultipleMod(q, multiple);
      q * multiple
  }

  // ---------------------------------------------------------------------------
  // Arithmetic facts, each kept apart so that the solver sees one product at a time

  lemma DivBounds(a: int, b: int)
    requires a >= 0 && b > 0
    ensures a / b >= 0 && (a / b) * b <= a < (a / b) * b + b
  {
    assert a == (a / b) * b + a % b;
  }

  lemma MulNeg(q: int, m: int)
    ensures (-q) * m == -(q * m)
  {
  }

  lemma MulMono(a: int, x: int, y: int)
    requires a >= 0 && x <= y
    ensures a * x <= a * y
  {
    assert a * y - a * x == a * (y - x);
  }

  lemma Distrib3(a: int, b: int, c: int, t: int)
    ensures (a + b + c) * t == a * t + b * t + c * t
  {
  }

  lemma SelfMultiple(m: int)
    ensures m > 0 ==> m % m == 0
  {
    if m > 0 {
      MultipleMod(1, m);
    }
  }

  /** A multiple of m leaves no remainder. */
  lemma MultipleMod(q: int, m: int)
    requires m > 0
    ensures (q * m) % m == 0
  {
    var d, r := (q * m) / m, (q * m) % m;
    assert q * m == d * m + r;
    assert (q - d) * m == r by {
      assert (q - d) * m == q * m - d * m;
    }
    if q - d >= 1 {
      MulMono(m, 1, q - d);
    } else if q - d <= -1 {
      MulMono(m, q - d, -1);
    }
  }

  /** The width available to the board: the viewport less the side margins, never negative. */
  function AvailableWidth(viewport: ViewportPx, margins: MarginsPx): (a: int)
    ensures a >= 0 && a >= viewport.width - (margins.left + margins.right)
    ensures a > 0 ==> a == viewport.width - (margins.left + margins.right)
  {
    Max(0, viewport.width - (margins.left + margins.right))
  }

  /** The height available to the board: the viewport less the top and bottom margins, never negative. */
  function AvailableHeight(viewport: ViewportPx, margins: MarginsPx): (a: int)
    ensures a >= 0 && a >= viewport.height - (margins.top + margins.bottom)
    ensures a > 0 ==> a == viewport.height - (margins.top + margins.bottom)
  {
    Max(0, viewport.height - (margins.top + margins.bottom))
  }

  /** The preferred tile size fits when the padded grid drawn at that size fits both available extents. */
  predicate PreferredFits(totalW: int, totalH: int, availW: int, availH: int, c: TileConstraints) {
    totalW * c.preferredTileSize <= availW && totalH * c.preferredTileSize <= availH
  }

  /** The largest tile size that fits total tiles in avail pixels; the unit size when there are no tiles. */
  function MaxTileFor(total: int, avail: int, c: TileConstraints): (t: int)
    requires avail >= 0
    ensures total > 0 ==> t >= 0 && t * total <= avail < t * total + total
    ensures total <= 0 ==> t == c.actualTileSize
  {
    if total > 0 then
      DivBounds(avail, total);
      avail / total
    else c.actualTileSize
  }

  /**
   * The tile size: the preferred one when it fits; otherwise the largest one
   * that fits both extents, snapped down to a multiple of the unit size and
   * raised to at least the unit size.
   */
  function ChooseTileSize(totalW: int, totalH: int, availW: int, availH: int, c: TileConstraints): (t: int)
    requires availW >= 0 && availH >= 0
    ensures PreferredFits(totalW, totalH, availW, availH, c) ==> t == c.preferredTileSize
    ensures !PreferredFits(totalW, totalH, availW, availH, c) ==> t >= c.actualTileSize
    ensures !PreferredFits(totalW, totalH, availW, availH, c) && c.actualTileSize > 1 ==>
      t % c.actualTileSize == 0
    // it is then the largest such size that fits: one unit more overflows an
    // extent, and a size above the unit fits both
    ensures !PreferredFits(totalW, totalH, availW, availH, c) && totalW > 0 && totalH > 0 && c.actualTileSize >= 1 ==>
      totalW * (t + c.actualTileSize) > availW || totalH * (t + c.actualTileSize) > availH
    ensures !PreferredFits(totalW, totalH, availW, availH, c) && totalW > 0 && totalH > 0 && t > c.actualTileSize ==>
      totalW * t <= availW && totalH * t <= availH
  {
    if !PreferredFits(totalW, totalH, availW, availH, c) then
      var tileSize := Min(MaxTileFor(totalW, availW, c), MaxTileFor(totalH, availH, c));
      var snapped := SnapDownToMultiple(tileSize, c.actualTileSize);
      SelfMultiple(c.actualTileSize);
      var t := Max(snapped, c.actualTileSize);
      if totalW > 0 && totalH > 0 then
        SnappedIsLargest(totalW, totalH, availW, availH, c, t);
        t
      else
        t
    else
      c.preferredTileSize
  }

  /**
   * The snapped size is the largest that fits: adding one unit overflows an
   * extent, and a size above the unit fits both.
   */
  lemma SnappedIsLargest(totalW: int, totalH: int, availW: int, availH: int, c: TileConstraints, t: int)
    requires availW >= 0 && availH >= 0 && totalW > 0 && totalH > 0
    requires t == Max(SnapDownToMultiple(Min(MaxTileFor(totalW, availW, c), MaxTileFor(totalH, availH, c)),
                                         c.actualTileSize), c.actualTileSize)
    ensures c.actualTileSize >= 1 ==>
      totalW * (t + c.actualTileSize) > availW || totalH * (t + c.actualTileSize) > availH
    ensures t > c.actualTileSize ==> totalW * t <= availW && totalH * t <= availH
  {
    var mw, mh := MaxTileFor(totalW, availW, c), MaxTileFor(totalH, availH, c);
    var v := Min(mw, mh);
    var snapped := SnapDownToMultiple(v, c.actualTileSize);
    assert v >= 0;
    if c.actualTileSize >= 1 {
      assert v < t + c.actualTileSize;
      if v == mw {
        Overflows(totalW, availW, c, t + c.actualTileSize);
      } else {
        Overflows(totalH, availH, c, t + c.actualTileSize);
      }
    }
    if t > c.actualTileSize {
      assert t == snapped && t <= v;
      MulMono(totalW, t, mw);
      MulMono(totalH, t, mh);
    }
  }

  /** A size above the largest that fits total tiles overflows avail. */
  lemma Overflows(total: int, avail: int, c: TileConstraints, s: int)
    requires total > 0 && avail >= 0 && s > MaxTileFor(total, avail, c)
    ensures total * s > avail
  {
    MulMono(total, MaxTileFor(total, avail, c) + 1, s);
  }

  /** Lays out grid, with the given padding, in the viewport less the margins. */
  function Calculate(grid: TileGrid, viewport: ViewportPx, padding: PaddingTiles, margins: MarginsPx,
                     constraints: TileConstraints): (r: TileLayoutResult)
    ensures r.totalTilesWidth == grid.cols + padding.left + padding.right
    ensures r.totalTilesHeight == grid.rows + padding.top + padding.bottom
    ensures r.tileSize == ChooseTileSize(r.totalTilesWidth, r.totalTilesHeight,
      AvailableWidth(viewport, margins), AvailableHeight(viewport, margins), constraints)
    // the grid with its padding fills the window exactly
    ensures r.windowWidth == r.boardOriginX + grid.cols * r.tileSize + padding.right * r.tileSize
    ensures r.windowHeight == r.boardOriginY + grid.rows * r.tileSize + padding.bottom * r.tileSize
    ensures r.boardOriginX == padding.left * r.tileSize && r.boardOriginY == padding.top * r.tileSize
    // the font is two thirds of the tile, rounded up
    ensures r.tileSize >= 0 ==> 2 * r.tileSize <= 3 * r.fontSize <= 2 * r.tileSize + 2 && r.fontSize <= r.tileSize
  {
    var totalW := grid.cols + padding.left + padding.right;
    var totalH := grid.rows + padding.top + padding.bottom;
    var availW := AvailableWidth(viewport, margins);
    var availH := AvailableHeight(viewport, margins);
    var tileSize := ChooseTileSize(totalW, totalH, availW, availH, constraints);
    Distrib3(grid.cols, padding.left, padding.right, tileSize);
    Distrib3(grid.rows, padding.top, padding.bottom, tileSize);
    TileLayoutResult(
      tileSize,
      totalW * tileSize,
      totalH * tileSize,
      padding.left * tileSize,
      padding.top * tileSize,
      tileSize - TruncDiv(tileSize, 3),
      totalW,
      totalH)
  }

  /** The margins used in windowed mode: room for the title bar at the top and the taskbar at the bottom. */
  function DefaultMargins(): (m: MarginsPx)
    ensures m.left == 0 && m.right == 0 && m.top > 0 && m.bottom > 0
  {
    MarginsPx(32, 0, 40, 0)
  }

  // ---------------------------------------------------------------------------
  // Properties of the layout

  /**
   * The preferred size is also the largest: a tile never exceeds it when
   * it is not negative and the unit size does not exceed it.
   */
  lemma {:induction false} TileSizeAtMostPreferred(totalW: int, totalH: int, availW: int, availH: int, c: TileConstraints)
    requires availW >= 0 && availH >= 0
    requires 0 <= c.preferredTileSize && c.actualTileSize <= c.preferredTileSize
    ensures ChooseTileSize(totalW, totalH, availW, availH, c) <= c.preferredTileSize
    ensures !PreferredFits(totalW, totalH, availW, availH, c) && c.actualTileSize < c.preferredTileSize ==>
      ChooseTileSize(totalW, totalH, availW, availH, c) < c.preferredTileSize
  {
    if !PreferredFits(totalW, totalH, availW, availH, c) {
      var mw := MaxTileFor(totalW, availW, c);
      var mh := MaxTileFor(totalH, availH, c);
      if totalW * c.preferredTileSize > availW {
        BelowPreferred(totalW, availW, c);
        assert Min(mw, mh) < c.preferredTileSize;
      } else {
        BelowPreferred(totalH, availH, c);
        assert Min(mw, mh) < c.preferredTileSize;
      }
      var v := Min(mw, mh);
      assert v >= 0 || v == c.actualTileSize;
      assert SnapDownToMultiple(v, c.actualTileSize) < c.preferredTileSize;
    }
  }

  /** When the preferred size overflows an extent, the largest size fitting that extent is smaller. */
  lemma BelowPreferred(total: int, avail: int, c: TileConstraints)
    requires avail >= 0 && 0 <= c.preferredTileSize
    requires total * c.preferredTileSize > avail
    ensures total > 0 && MaxTileFor(total, avail, c) < c.preferredTileSize
  {
    if total <= 0 {
      MulMono(c.preferredTileSize, total, 0);
    } else {
      var t := MaxTileFor(total, avail, c);
      if t >= c.preferredTileSize {
        MulMono(total, c.preferredTileSize, t);
      }
    }
  }

  /**
   * The padded grid fits the available area whenever the chosen size did
   * not have to be raised to the unit size.
   */
  lemma WindowFits(grid: TileGrid, viewport: ViewportPx, padding: PaddingTiles, margins: MarginsPx, c: TileConstraints)
    requires Calculate(grid, viewport, padding, margins, c).totalTilesWidth > 0
    requires Calculate(grid, viewport, padding, margins, c).totalTilesHeight > 0
    requires var r := Calculate(grid, viewport, padding, margins, c);
      PreferredFits(r.totalTilesWidth, r.totalTilesHeight, AvailableWidth(viewport, margins), AvailableHeight(viewport, margins), c)
      || r.tileSize > c.actualTileSize
    ensures var r := Calculate(grid, viewport, padding, margins, c);
      r.windowWidth <= AvailableWidth(viewport, margins) && r.windowHeight <= AvailableHeight(viewport, margins)
  {
    var r := Calculate(grid, viewport, padding, margins, c);
    var aw, ah := AvailableWidth(viewport, margins), AvailableHeight(viewport, margins);
    var tw, th := r.totalTilesWidth, r.totalTilesHeight;
    if !PreferredFits(tw, th, aw, ah, c) {
      var v := Min(MaxTileFor(tw, aw, c), MaxTileFor(th, ah, c));
      assert r.tileSize == SnapDownToMultiple(v, c.actualTileSize);
      assert v >= 0;
      assert 0 <= r.tileSize <= v;
      MulMono(tw, r.tileSize, MaxTileFor(tw, aw, c));
      MulMono(th, r.tileSize, MaxTileFor(th, ah, c));
    }
  }

  /**
   * When the preferred size does not fit, a tile one unit larger than the
   * chosen one would overflow the available area.
   */
  lemma NoLargerTileFits(grid: TileGrid, viewport: ViewportPx, padding: PaddingTiles, margins: MarginsPx, c: TileConstraints)
    requires Calculate(grid, viewport, padding, margins, c).totalTilesWidth > 0
    requires Calculate(grid, viewport, padding, margins, c).totalTilesHeight > 0
    requires c.actualTileSize >= 1
    requires var r := Calculate(grid, viewport, padding, margins, c);
      !PreferredFits(r.totalTilesWidth, r.totalTilesHeight, AvailableWidth(viewport, margins), AvailableHeight(viewport, margins), c)
    ensures var r := Calculate(grid, viewport, padding, margins, c);
      || r.totalTilesWidth * (r.tileSize + c.actualTileSize) > AvailableWidth(viewport, margins)
      || r.totalTilesHeight * (r.tileSize + c.actualTileSize) > AvailableHeight(viewport, margins)
  {
  }

  /** With the default constraints every tile size is 128, or a multiple of 16 from 16 up to 112. */
  lemma DefaultTileSizes(grid: TileGrid, viewport: ViewportPx, padding: PaddingTiles, margins: MarginsPx)
    ensures var t := Calculate(grid, viewport, padding, margins, DefaultConstraints).tileSize;
      t == 128 || (16 <= t < 128 && t % 16 == 0)
  {
    var r := Calculate(grid, viewport, padding, margins, DefaultConstraints);
    var aw, ah := AvailableWidth(viewport, margins), AvailableHeight(viewport, margins);
    var tw, th := r.totalTilesWidth, r.totalTilesHeight;
    if !PreferredFits(tw, th, aw, ah, DefaultConstraints) {
      TileSizeAtMostPreferred(tw, th, aw, ah, DefaultConstraints);
      assert r.tileSize % 16 == 0 && r.tileSize <= 128;
    }
  }

  /** The default margins take 72 pixels off the height and nothing off the width. */
  lemma DefaultMarginsAvailable(viewport: ViewportPx)
    ensures AvailableWidth(viewport, DefaultMargins()) == Max(0, viewport.width)
    ensures AvailableHeight(viewport, DefaultMargins()) == Max(0, viewport.height - 72)
  {
  }
}
