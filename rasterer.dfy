/** Rasterer.java: choose the grid of map tiles that covers a query box at the
    coarsest zoom depth fine enough for the viewport. */
module Raster {

  import opened Wrappers

  /** The maximum zoom depth (the source caps its halving loop at 7). */
  const MaxDepth: nat := 7

  /** The width in pixels of the root tile, used for the root's LonDPP. */
  const TilePixels: real := 256.0

  /** The root bounding box (the MapServer.ROOT_* constants).  Longitude grows to
      the right and latitude grows upwards, so the upper-left corner has the
      smaller longitude and the larger latitude. */
  datatype RootBox = RootBox(ullon: real, ullat: real, lrlon: real, lrlat: real)
  {
    predicate WellFormed()
    {
      ullon < lrlon && lrlat < ullat
    }
  }

  /** The query parameters of one raster request: the query box and the viewport
      width and height in pixels. */
  datatype Query = Query(ullon: real, ullat: real, lrlon: real, lrlat: real, w: real, h: real)

  /** The four corner tile indices: column and row of the upper-left tile, column
      and row of the lower-right tile (cornerIndex[0..3] in the source). */
  datatype CornerIndex = CornerIndex(ulCol: int, ulRow: int, lrCol: int, lrRow: int)

  /** The geographic extent of the chosen tiles (cornerCoordinate[0..3]). */
  datatype RasterBox = RasterBox(ulLon: real, ulLat: real, lrLon: real, lrLat: real)

  /** A tile image name: "img/root.png", or "img/<number>.png". */
  datatype TileImage = RootImage | Numbered(number: nat)

  /** The result map of getMapRaster; `None` stands for a null entry. */
  datatype RasterResult = RasterResult(
    renderGrid: Option<array2<Option<TileImage>>>,
    rasterUlLon: Option<real>,
    rasterUlLat: Option<real>,
    rasterLrLon: Option<real>,
    rasterLrLat: Option<real>,
    depth: Option<nat>,
    querySuccess: bool)

  // ---------------------------------------------------------------------------
  // Integer and real helpers: Math.pow(2, d), Math.floor and Math.ceil.

  function Pow2(d: nat): (r: nat)
    ensures r >= 1
  {
    if d == 0 then 1 else 2 * Pow2(d - 1)
  }

  function Floor(x: real): (r: int)
    ensures r as real <= x < r as real + 1.0
  {
    x.Floor
  }

  function Ceil(x: real): (r: int)
    ensures r as real - 1.0 < x <= r as real
  {
    -((-x).Floor)
  }

  // Order facts about real multiplication and division by a positive number.

  lemma MulLt(x: real, y: real, t: real)
    requires t > 0.0 && x < y
    ensures x * t < y * t
  {
  }

  lemma MulLe(x: real, y: real, t: real)
    requires t > 0.0 && x <= y
    ensures x * t <= y * t
  {
  }

  lemma DivMulCancel(a: real, t: real)
    requires t != 0.0
    ensures (a / t) * t == a
  {
  }

  lemma DivLt(a: real, b: real, t: real)
    requires t > 0.0 && a < b
    ensures a / t < b / t
  {
  }

  lemma DivLe(a: real, b: real, t: real)
    requires t > 0.0 && a <= b
    ensures a / t <= b / t
  {
  }

  /** span divided into p tiles: p tiles of the width span / p make up span. */
  lemma TilesMakeUpSpan(span: real, p: nat)
    requires 1 <= p
    ensures p as real * (span / p as real) == span
    ensures span != 0.0 ==> span / (span / p as real) == p as real
  {
    DivMulCancel(span, p as real);
  }

  // ---------------------------------------------------------------------------
  // isValidate

  /** A query is rejected when it lies entirely off one side of the root box or
      when its own corners are degenerate. */
  predicate IsValid(root: RootBox, q: Query)
  {
    !(q.lrlon <= root.ullon || q.ullon >= root.lrlon
      || q.ullat <= root.lrlat || q.lrlat >= root.ullat
      || q.lrlon <= q.ullon || q.lrlat >= q.ullat)
  }

  /** A valid query is a proper box that overlaps the root box in an area of
      positive size; an invalid one is not. */
  lemma ValidMeansProperOverlap(root: RootBox, q: Query)
    requires root.WellFormed()
    ensures IsValid(root, q) <==>
      (q.ullon < q.lrlon && q.lrlat < q.ullat &&
       (if q.ullon < root.ullon then root.ullon else q.ullon)
         < (if q.lrlon < root.lrlon then q.lrlon else root.lrlon) &&
       (if q.lrlat < root.lrlat then root.lrlat else q.lrlat)
         < (if q.ullat < root.ullat then q.ullat else root.ullat))
  {
  }

  // ---------------------------------------------------------------------------
  // getDepth

  /** The LonDPP of one root tile (ROOT_LONDPP): positive for a well-formed
      root box. */
  function RootLonDPP(root: RootBox): (r: real)
    ensures root.WellFormed() ==> 0.0 < r
  {
    (root.lrlon - root.ullon) / TilePixels
  }

  /** The LonDPP of a tile at depth d: each level halves it. */
  function TileLonDPP(root: RootBox, d: nat): real
  {
    RootLonDPP(root) / Pow2(d) as real
  }

  /** Tiles at depth d are at least as fine as the query asks: their LonDPP is at
      most the query's (lrlon - ullon) / w, the loop's test failing.  With w == 0
      the source divides by zero: +Infinity (lrlon > ullon) and NaN (lrlon ==
      ullon) fail the loop's test at every depth, -Infinity (lrlon < ullon) passes
      it at every depth. */
  predicate FineEnough(root: RootBox, ullon: real, lrlon: real, w: real, d: nat)
  {
    if w == 0.0 then ullon <= lrlon else TileLonDPP(root, d) <= (lrlon - ullon) / w
  }

  /** d is the depth the source chooses: every coarser depth is too coarse, and d
      itself is fine enough unless the cap of 7 stopped the search. */
  predicate IsChosenDepth(root: RootBox, ullon: real, lrlon: real, w: real, d: nat)
  {
    d <= MaxDepth
    && (forall k: nat :: k < d ==> !FineEnough(root, ullon, lrlon, w, k))
    && (d < MaxDepth ==> FineEnough(root, ullon, lrlon, w, d))
  }

  lemma TileLonDPPHalves(root: RootBox, d: nat)
    ensures TileLonDPP(root, d + 1) == TileLonDPP(root, d) / 2.0
  {
    assert Pow2(d + 1) as real == 2.0 * Pow2(d) as real;
  }

  /** Walks down from the root resolution, halving the tile LonDPP until it is no
      coarser than the query's, and stops at depth 7 regardless. */
  method GetDepth(root: RootBox, ullon: real, lrlon: real, w: real) returns (depth: nat)
    ensures IsChosenDepth(root, ullon, lrlon, w, depth)
  {
    if w == 0.0 {
      // (lrlon - ullon) / 0.0 is +Infinity or NaN in the source when
      // ullon <= lrlon, and the loop never runs; it is -Infinity otherwise, and
      // the loop runs until the cap.
      return if ullon <= lrlon then 0 else MaxDepth;
    }
    var queryBoxLonDPP := (lrlon - ullon) / w;
    depth := 0;
    var tempLonDPP := RootLonDPP(root);
    while tempLonDPP > queryBoxLonDPP
      invariant depth < MaxDepth
      invariant tempLonDPP == TileLonDPP(root, depth)
      invariant forall k: nat :: k < depth ==> !FineEnough(root, ullon, lrlon, w, k)
      decreases MaxDepth - depth
    {
      assert !FineEnough(root, ullon, lrlon, w, depth);
      TileLonDPPHalves(root, depth);
      depth := depth + 1;
      if depth == MaxDepth {
        break;
      }
      tempLonDPP := tempLonDPP / 2.0;
    }
  }

  /** Once a depth is fine enough, every deeper one is too: the fine-enough depths
      form an upward-closed set, so the chosen depth is the least of them (or 7). */
  lemma {:induction false} FineEnoughUpwardClosed(root: RootBox, ullon: real, lrlon: real, w: real, d: nat, e: nat)
    requires root.WellFormed()
    requires d <= e
    requires FineEnough(root, ullon, lrlon, w, d)
    ensures FineEnough(root, ullon, lrlon, w, e)
  {
    if d < e {
      FineEnoughUpwardClosed(root, ullon, lrlon, w, d, e - 1);
      TileLonDPPHalves(root, e - 1);
      assert RootLonDPP(root) > 0.0;
      DivLt(0.0, RootLonDPP(root), Pow2(e - 1) as real);
      assert TileLonDPP(root, e - 1) > 0.0;
    }
  }

  /** The chosen depth never gives a coarser resolution than requested, unless it
      is the cap; and exactly one depth is the chosen one. */
  lemma ChosenDepthUnique(root: RootBox, ullon: real, lrlon: real, w: real, d: nat, e: nat)
    requires IsChosenDepth(root, ullon, lrlon, w, d)
    requires IsChosenDepth(root, ullon, lrlon, w, e)
    ensures d == e
  {
  }

  // ---------------------------------------------------------------------------
  // getCornerIndex and getCornerCoordinate
  //
  // A tile edge is the product k * w of a tile index and a tile width.  The
  // order facts about edges go through Times(k, w), w added up k times, which
  // equals k * w (TimesIsProduct) and keeps that reasoning linear.

  /** w added up k times. */
  function Times(k: nat, w: real): real
  {
    if k == 0 then 0.0 else Times(k - 1, w) + w
  }

  lemma {:induction false} TimesIsProduct(k: nat, w: real)
    ensures Times(k, w) == k as real * w
  {
    if k > 0 {
      TimesIsProduct(k - 1, w);
      var x := (k - 1) as real;
      assert x * w + w == (x + 1.0) * w;
    }
  }

  /** Edges of tiles of positive width grow with the index. */
  lemma {:induction false} TimesMono(i: nat, j: nat, w: real)
    requires 0.0 < w && i <= j
    ensures Times(i, w) <= Times(j, w)
    ensures i < j ==> Times(i, w) < Times(j, w)
  {
    if i < j {
      TimesMono(i, j - 1, w);
    }
  }

  lemma MulLtCancel(x: real, y: real, t: real)
    requires t > 0.0 && x * t < y * t
    ensures x < y
  {
  }

  lemma MulDivCancel(a: real, t: real)
    requires t != 0.0
    ensures (a * t) / t == a
  {
  }

  /** The order of two edges gives the order of their indices. */
  lemma TimesLtCancel(i: nat, j: nat, w: real)
    requires 0.0 < w && Times(i, w) < Times(j, w)
    ensures i < j
  {
    TimesIsProduct(i, w);
    TimesIsProduct(j, w);
    var x, y := i as real, j as real;
    MulLtCancel(x, y, w);
  }

  /** w is the width of one of p equal tiles that make up span. */
  predicate IsTileWidth(span: real, p: nat, w: real)
  {
    Times(p, w) == span
  }

  lemma SameTileWidth(span: real, p: nat, w1: real, w2: real)
    requires 1 <= p && IsTileWidth(span, p, w1) && IsTileWidth(span, p, w2)
    ensures w1 == w2
  {
    TimesIsProduct(p, w1);
    TimesIsProduct(p, w2);
    var x := p as real;
    MulDivCancel(w1, x);
    MulDivCancel(w2, x);
    assert w1 * x == w2 * x;
  }

  /** A span has exactly one tile width for p >= 1 tiles: span / p. */
  lemma TileWidthIsQuotient(span: real, p: nat)
    requires 1 <= p
    ensures IsTileWidth(span, p, span / p as real)
    ensures forall w1: real, w2: real :: IsTileWidth(span, p, w1) && IsTileWidth(span, p, w2) ==> w1 == w2
  {
    TilesMakeUpSpan(span, p);
    TimesIsProduct(p, span / p as real);
    forall w1: real, w2: real | IsTileWidth(span, p, w1) && IsTileWidth(span, p, w2)
      ensures w1 == w2
    {
      SameTileWidth(span, p, w1, w2);
    }
  }

  /** Width of a tile at a depth: 2^depth of them make up the root's width. */
  function LonTileWidth(root: RootBox, depth: nat): (w: real)
    ensures IsTileWidth(root.lrlon - root.ullon, Pow2(depth), w)
  {
    TileWidthIsQuotient(root.lrlon - root.ullon, Pow2(depth));
    var w: real :| IsTileWidth(root.lrlon - root.ullon, Pow2(depth), w);
    w
  }

  /** Height of a tile at a depth: 2^depth of them make up the root's height. */
  function LatTileWidth(root: RootBox, depth: nat): (h: real)
    ensures IsTileWidth(root.ullat - root.lrlat, Pow2(depth), h)
  {
    TileWidthIsQuotient(root.ullat - root.lrlat, Pow2(depth));
    var h: real :| IsTileWidth(root.ullat - root.lrlat, Pow2(depth), h);
    h
  }

  /** The tile width is the root's width over 2^depth, as the source computes it. */
  lemma TileWidthsAreQuotients(root: RootBox, depth: nat)
    ensures LonTileWidth(root, depth) == (root.lrlon - root.ullon) / Pow2(depth) as real
    ensures LatTileWidth(root, depth) == (root.ullat - root.lrlat) / Pow2(depth) as real
  {
    TileWidthIsQuotient(root.lrlon - root.ullon, Pow2(depth));
    TileWidthIsQuotient(root.ullat - root.lrlat, Pow2(depth));
  }

  /** Tiles of a well-formed root box have positive width and height. */
  lemma TileWidths(root: RootBox, depth: nat)
    requires root.WellFormed()
    ensures 0.0 < LonTileWidth(root, depth) && 0.0 < LatTileWidth(root, depth)
  {
    TileWidthsAreQuotients(root, depth);
    DivLt(0.0, root.lrlon - root.ullon, Pow2(depth) as real);
    DivLt(0.0, root.ullat - root.lrlat, Pow2(depth) as real);
  }

  /** Tile k, of width w, holds offset d. */
  predicate Holds(k: nat, w: real, d: real)
  {
    Times(k, w) <= d < Times(k + 1, w)
  }

  /** Tile k, of width w, is the last one that reaches offset d. */
  predicate Reaches(k: nat, w: real, d: real)
  {
    Times(k, w) < d <= Times(k + 1, w)
  }

  // A bound on a quotient d / w, for w > 0, is a bound on d in units of w.

  lemma BelowQuotient(a: real, d: real, w: real)
    requires 0.0 < w && a <= d / w
    ensures a * w <= d
  {
    DivMulCancel(d, w);
    MulLe(a, d / w, w);
  }

  lemma StrictlyBelowQuotient(a: real, d: real, w: real)
    requires 0.0 < w && a < d / w
    ensures a * w < d
  {
    DivMulCancel(d, w);
    MulLt(a, d / w, w);
  }

  lemma AboveQuotient(b: real, d: real, w: real)
    requires 0.0 < w && d / w <= b
    ensures d <= b * w
  {
    DivMulCancel(d, w);
    MulLe(d / w, b, w);
  }

  lemma StrictlyAboveQuotient(b: real, d: real, w: real)
    requires 0.0 < w && d / w < b
    ensures d < b * w
  {
    DivMulCancel(d, w);
    MulLt(d / w, b, w);
  }

  /** The tile numbered floor(d / w) holds d. */
  lemma FloorTileHolds(d: real, w: real, k: int)
    requires 0.0 < w && 0.0 <= d
    requires k == Floor(d / w)
    ensures 0 <= k && Holds(k, w, d)
  {
    DivLe(0.0, d, w);
    BelowQuotient(k as real, d, w);
    StrictlyAboveQuotient((k + 1) as real, d, w);
    TimesIsProduct(k, w);
    TimesIsProduct(k + 1, w);
  }

  /** The tile numbered ceil(d / w) - 1 is the last to reach d. */
  lemma CeilTileReaches(d: real, w: real, k: int)
    requires 0.0 < w && 0.0 < d
    requires k == Ceil(d / w) - 1
    ensures 0 <= k && Reaches(k, w, d)
  {
    DivLt(0.0, d, w);
    StrictlyBelowQuotient(k as real, d, w);
    AboveQuotient((k + 1) as real, d, w);
    TimesIsProduct(k, w);
    TimesIsProduct(k + 1, w);
  }

  /** Two tiles of the same width that each start before the other ends are
      the same tile. */
  lemma Overlapping(k1: nat, k2: nat, w: real)
    requires 0.0 < w
    requires Times(k1, w) < Times(k2 + 1, w) && Times(k2, w) < Times(k1 + 1, w)
    ensures k1 == k2
  {
    TimesLtCancel(k1, k2 + 1, w);
    TimesLtCancel(k2, k1 + 1, w);
  }

  /** At most one tile holds an offset, and at most one is the last to reach it. */
  lemma TilesAreDisjoint(w: real, d: real)
    requires 0.0 < w
    ensures forall k1: nat, k2: nat :: Holds(k1, w, d) && Holds(k2, w, d) ==> k1 == k2
    ensures forall k1: nat, k2: nat :: Reaches(k1, w, d) && Reaches(k2, w, d) ==> k1 == k2
  {
    forall k1: nat, k2: nat | Holds(k1, w, d) && Holds(k2, w, d)
      ensures k1 == k2
    {
      Overlapping(k1, k2, w);
    }
    forall k1: nat, k2: nat | Reaches(k1, w, d) && Reaches(k2, w, d)
      ensures k1 == k2
    {
      Overlapping(k1, k2, w);
    }
  }

  /** The tile, of p tiles of width w, whose extent holds offset d. */
  function TileAt(d: real, w: real, p: nat): (i: nat)
    requires 0.0 < w && 0.0 <= d < Times(p, w)
    ensures i < p && Holds(i, w, d)
  {
    FloorTileHolds(d, w, Floor(d / w));
    TilesAreDisjoint(w, d);
    var k: nat :| Holds(k, w, d);
    TimesLtCancel(k, p, w);
    k
  }

  /** The last tile, of p tiles of width w, that reaches offset d. */
  function LastTileTo(d: real, w: real, p: nat): (i: nat)
    requires 0.0 < w && 0.0 < d <= Times(p, w)
    ensures i < p && Reaches(i, w, d)
  {
    CeilTileReaches(d, w, Ceil(d / w) - 1);
    TilesAreDisjoint(w, d);
    var k: nat :| Reaches(k, w, d);
    TimesLtCancel(k, p, w);
    k
  }

  /** TileAt is the floor of the offset over the tile width. */
  lemma TileAtIsFloor(d: real, w: real, p: nat)
    requires 0.0 < w && 0.0 <= d < Times(p, w)
    ensures TileAt(d, w, p) == Floor(d / w)
  {
    FloorTileHolds(d, w, Floor(d / w));
    TilesAreDisjoint(w, d);
  }

  /** LastTileTo is the ceiling of the offset over the tile width, minus one. */
  lemma LastTileToIsCeil(d: real, w: real, p: nat)
    requires 0.0 < w && 0.0 < d <= Times(p, w)
    ensures LastTileTo(d, w, p) == Ceil(d / w) - 1
  {
    CeilTileReaches(d, w, Ceil(d / w) - 1);
    TilesAreDisjoint(w, d);
  }

  /** Column of the upper-left tile: the one holding the query's left edge, or
      0 when the query starts left of the root box. */
  function UlCol(root: RootBox, q: Query, depth: nat): (i: int)
    requires root.WellFormed() && IsValid(root, q)
    ensures 0 <= i < Pow2(depth)
    ensures q.ullon < root.ullon ==> i == 0
    ensures q.ullon >= root.ullon ==> Holds(i, LonTileWidth(root, depth), q.ullon - root.ullon)
  {
    TileWidths(root, depth);
    if q.ullon < root.ullon then 0
    else TileAt(q.ullon - root.ullon, LonTileWidth(root, depth), Pow2(depth))
  }

  /** Row of the upper-left tile: the one holding the query's top edge, counted
      downwards from the root's top, or 0 when the query starts above the root
      box. */
  function UlRow(root: RootBox, q: Query, depth: nat): (i: int)
    requires root.WellFormed() && IsValid(root, q)
    ensures 0 <= i < Pow2(depth)
    ensures q.ullat > root.ullat ==> i == 0
    ensures q.ullat <= root.ullat ==> Holds(i, LatTileWidth(root, depth), root.ullat - q.ullat)
  {
    TileWidths(root, depth);
    if q.ullat > root.ullat then 0
    else TileAt(root.ullat - q.ullat, LatTileWidth(root, depth), Pow2(depth))
  }

  /** Column of the lower-right tile: the last one reaching the query's right
      edge, or the last column when the query ends right of the root box. */
  function LrCol(root: RootBox, q: Query, depth: nat): (i: int)
    requires root.WellFormed() && IsValid(root, q)
    ensures 0 <= i < Pow2(depth)
    ensures q.lrlon > root.lrlon ==> i == Pow2(depth) - 1
    ensures q.lrlon <= root.lrlon ==> Reaches(i, LonTileWidth(root, depth), q.lrlon - root.ullon)
  {
    TileWidths(root, depth);
    if q.lrlon > root.lrlon then Pow2(depth) - 1
    else LastTileTo(q.lrlon - root.ullon, LonTileWidth(root, depth), Pow2(depth))
  }

  /** Row of the lower-right tile: the last one reaching the query's bottom
      edge, or the last row when the query ends below the root box. */
  function LrRow(root: RootBox, q: Query, depth: nat): (i: int)
    requires root.WellFormed() && IsValid(root, q)
    ensures 0 <= i < Pow2(depth)
    ensures q.lrlat < root.lrlat ==> i == Pow2(depth) - 1
    ensures q.lrlat >= root.lrlat ==> Reaches(i, LatTileWidth(root, depth), root.ullat - q.lrlat)
  {
    TileWidths(root, depth);
    if q.lrlat < root.lrlat then Pow2(depth) - 1
    else LastTileTo(root.ullat - q.lrlat, LatTileWidth(root, depth), Pow2(depth))
  }

  /** The tile holding an offset comes no later than the last tile reaching a
      larger offset. */
  lemma TileOrder(i: nat, j: nat, w: real, d1: real, d2: real)
    requires 0.0 < w && d1 < d2
    requires Holds(i, w, d1) && Reaches(j, w, d2)
    ensures i <= j
  {
    TimesLtCancel(i, j + 1, w);
  }

  /** The corner tile indices of a valid query: the upper-left tile never lies
      right of or below the lower-right one, and both are on the grid. */
  function GetCornerIndex(root: RootBox, q: Query, depth: nat): (c: CornerIndex)
    requires root.WellFormed() && IsValid(root, q)
    ensures 0 <= c.ulCol <= c.lrCol < Pow2(depth)
    ensures 0 <= c.ulRow <= c.lrRow < Pow2(depth)
  {
    var c := CornerIndex(UlCol(root, q, depth), UlRow(root, q, depth), LrCol(root, q, depth), LrRow(root, q, depth));
    assert c.ulCol <= c.lrCol by {
      if q.ullon >= root.ullon && q.lrlon <= root.lrlon {
        TileWidths(root, depth);
        TileOrder(c.ulCol, c.lrCol, LonTileWidth(root, depth), q.ullon - root.ullon, q.lrlon - root.ullon);
      }
    }
    assert c.ulRow <= c.lrRow by {
      if q.ullat <= root.ullat && q.lrlat >= root.lrlat {
        TileWidths(root, depth);
        TileOrder(c.ulRow, c.lrRow, LatTileWidth(root, depth), root.ullat - q.ullat, root.ullat - q.lrlat);
      }
    }
    c
  }

  /** Tiles i..j, of p tiles of width w that make up span, start at an offset
      of at least 0 (lo) and end at an offset of at most span (hi). */
  lemma TileRunInSpan(p: nat, w: real, span: real, i: nat, j: nat)
    requires 0.0 < w && Times(p, w) == span && i <= j < p
    ensures 0.0 <= Times(i, w) < Times(j + 1, w) <= span
  {
    TimesMono(0, i, w);
    TimesMono(i, j + 1, w);
    TimesMono(j + 1, p, w);
  }

  /** The raster box of a block of tiles: the outer edges of its corner tiles,
      measured from the root's upper-left corner. */
  function GetCornerCoordinate(root: RootBox, c: CornerIndex, depth: nat): RasterBox
  {
    var lonW := LonTileWidth(root, depth);
    var latW := LatTileWidth(root, depth);
    RasterBox(
      root.ullon + c.ulCol as real * lonW,
      root.ullat - c.ulRow as real * latW,
      root.ullon + (c.lrCol + 1) as real * lonW,
      root.ullat - (c.lrRow + 1) as real * latW)
  }

  /** An edge k tiles to the right of, or below, an origin o. */
  lemma RightEdgeIsTimes(o: real, k: nat, w: real, e: real)
    requires e == o + k as real * w
    ensures e == o + Times(k, w)
  {
    TimesIsProduct(k, w);
  }

  lemma LowerEdgeIsTimes(o: real, k: nat, w: real, e: real)
    requires e == o - k as real * w
    ensures e == o - Times(k, w)
  {
    TimesIsProduct(k, w);
  }

  /** The raster box's edges, as whole numbers of tiles from the root's
      upper-left corner. */
  lemma CornerEdges(root: RootBox, c: CornerIndex, depth: nat)
    requires 0 <= c.ulCol && 0 <= c.lrCol && 0 <= c.ulRow && 0 <= c.lrRow
    ensures var b := GetCornerCoordinate(root, c, depth);
      && b.ulLon == root.ullon + Times(c.ulCol, LonTileWidth(root, depth))
      && b.ulLat == root.ullat - Times(c.ulRow, LatTileWidth(root, depth))
      && b.lrLon == root.ullon + Times(c.lrCol + 1, LonTileWidth(root, depth))
      && b.lrLat == root.ullat - Times(c.lrRow + 1, LatTileWidth(root, depth))
  {
    var b := GetCornerCoordinate(root, c, depth);
    var w, h := LonTileWidth(root, depth), LatTileWidth(root, depth);
    RightEdgeIsTimes(root.ullon, c.ulCol, w, b.ulLon);
    LowerEdgeIsTimes(root.ullat, c.ulRow, h, b.ulLat);
    RightEdgeIsTimes(root.ullon, c.lrCol + 1, w, b.lrLon);
    LowerEdgeIsTimes(root.ullat, c.lrRow + 1, h, b.lrLat);
  }

  /** The raster box of a block of corner tiles on the grid lies inside the
      root box and has positive width and height. */
  lemma CornerCoordinateInRoot(root: RootBox, c: CornerIndex, depth: nat)
    requires root.WellFormed()
    requires 0 <= c.ulCol <= c.lrCol < Pow2(depth)
    requires 0 <= c.ulRow <= c.lrRow < Pow2(depth)
    ensures var b := GetCornerCoordinate(root, c, depth);
      && root.ullon <= b.ulLon < b.lrLon <= root.lrlon
      && root.lrlat <= b.lrLat < b.ulLat <= root.ullat
  {
    CornerEdges(root, c, depth);
    TileWidths(root, depth);
    TileRunInSpan(Pow2(depth), LonTileWidth(root, depth), root.lrlon - root.ullon, c.ulCol, c.lrCol);
    TileRunInSpan(Pow2(depth), LatTileWidth(root, depth), root.ullat - root.lrlat, c.ulRow, c.lrRow);
  }

  /** The raster box of a query at a depth. */
  function RasterBoxOf(root: RootBox, q: Query, depth: nat): RasterBox
    requires root.WellFormed() && IsValid(root, q)
  {
    GetCornerCoordinate(root, GetCornerIndex(root, q, depth), depth)
  }

  /** On every side where the query stays inside the root box, the raster box
      reaches past the query edge by less than one tile; on every side where the
      query leaves the root box, the raster box stops at the root edge. */
  predicate SnapsToQuery(root: RootBox, q: Query, depth: nat, b: RasterBox)
  {
    var lonW := LonTileWidth(root, depth);
    var latW := LatTileWidth(root, depth);
    && (if q.ullon < root.ullon then b.ulLon == root.ullon else b.ulLon <= q.ullon < b.ulLon + lonW)
    && (if q.lrlon > root.lrlon then b.lrLon == root.lrlon else b.lrLon - lonW < q.lrlon <= b.lrLon)
    && (if q.ullat > root.ullat then b.ulLat == root.ullat else b.ulLat - latW < q.ullat <= b.ulLat)
    && (if q.lrlat < root.lrlat then b.lrLat == root.lrlat else b.lrLat <= q.lrlat < b.lrLat + latW)
  }

  /** The low edge Times(i, w) of a corner tile: the start of the span when the
      query edge lies outside it, otherwise less than one tile below the query
      offset d. */
  lemma LowSide(w: real, i: nat, clamped: bool, d: real)
    requires clamped ==> i == 0
    requires !clamped ==> Holds(i, w, d)
    ensures if clamped then Times(i, w) == 0.0 else Times(i, w) <= d < Times(i, w) + w
  {
  }

  /** The high edge Times(j + 1, w) of a corner tile: the end of the span when
      the query edge lies outside it, otherwise less than one tile above the
      query offset d. */
  lemma HighSide(p: nat, w: real, span: real, j: nat, clamped: bool, d: real)
    requires Times(p, w) == span
    requires clamped ==> j + 1 == p
    requires !clamped ==> Reaches(j, w, d)
    ensures if clamped then Times(j + 1, w) == span else Times(j + 1, w) - w < d <= Times(j + 1, w)
  {
  }

  /** The left edge. */
  lemma SnapLeft(root: RootBox, q: Query, depth: nat)
    requires root.WellFormed() && IsValid(root, q)
    ensures var b := RasterBoxOf(root, q, depth);
      if q.ullon < root.ullon then b.ulLon == root.ullon
      else b.ulLon <= q.ullon < b.ulLon + LonTileWidth(root, depth)
  {
    var c := GetCornerIndex(root, q, depth);
    CornerEdges(root, c, depth);
    var b := RasterBoxOf(root, q, depth);
    var w := LonTileWidth(root, depth);
    assert c.ulCol == UlCol(root, q, depth);
    LowSide(w, c.ulCol, q.ullon < root.ullon, q.ullon - root.ullon);
  }

  /** The right edge. */
  lemma SnapRight(root: RootBox, q: Query, depth: nat)
    requires root.WellFormed() && IsValid(root, q)
    ensures var b := RasterBoxOf(root, q, depth);
      if q.lrlon > root.lrlon then b.lrLon == root.lrlon
      else b.lrLon - LonTileWidth(root, depth) < q.lrlon <= b.lrLon
  {
    var c := GetCornerIndex(root, q, depth);
    CornerEdges(root, c, depth);
    var b := RasterBoxOf(root, q, depth);
    var w := LonTileWidth(root, depth);
    assert c.lrCol == LrCol(root, q, depth);
    HighSide(Pow2(depth), w, root.lrlon - root.ullon, c.lrCol, q.lrlon > root.lrlon, q.lrlon - root.ullon);
  }

  /** The top edge. */
  lemma SnapTop(root: RootBox, q: Query, depth: nat)
    requires root.WellFormed() && IsValid(root, q)
    ensures var b := RasterBoxOf(root, q, depth);
      if q.ullat > root.ullat then b.ulLat == root.ullat
      else b.ulLat - LatTileWidth(root, depth) < q.ullat <= b.ulLat
  {
    var c := GetCornerIndex(root, q, depth);
    CornerEdges(root, c, depth);
    var b := RasterBoxOf(root, q, depth);
    var h := LatTileWidth(root, depth);
    assert c.ulRow == UlRow(root, q, depth);
    LowSide(h, c.ulRow, q.ullat > root.ullat, root.ullat - q.ullat);
  }

  /** The bottom edge. */
  lemma SnapBottom(root: RootBox, q: Query, depth: nat)
    requires root.WellFormed() && IsValid(root, q)
    ensures var b := RasterBoxOf(root, q, depth);
      if q.lrlat < root.lrlat then b.lrLat == root.lrlat
      else b.lrLat <= q.lrlat < b.lrLat + LatTileWidth(root, depth)
  {
    var c := GetCornerIndex(root, q, depth);
    CornerEdges(root, c, depth);
    var b := RasterBoxOf(root, q, depth);
    var h := LatTileWidth(root, depth);
    assert c.lrRow == LrRow(root, q, depth);
    HighSide(Pow2(depth), h, root.ullat - root.lrlat, c.lrRow, q.lrlat < root.lrlat, root.ullat - q.lrlat);
  }

  lemma RasterBoxSnapsToQuery(root: RootBox, q: Query, depth: nat)
    requires root.WellFormed() && IsValid(root, q)
    ensures SnapsToQuery(root, q, depth, RasterBoxOf(root, q, depth))
  {
    SnapLeft(root, q, depth);
    SnapRight(root, q, depth);
    SnapTop(root, q, depth);
    SnapBottom(root, q, depth);
  }

  // ---------------------------------------------------------------------------
  // convertToString: tile names

  /** Integer.parseInt(Integer.toBinaryString(n)): the decimal number whose
      digits are the binary digits of n. */
  function BinaryAsDecimal(n: nat): nat
  {
    if n == 0 then 0 else BinaryAsDecimal(n / 2) * 10 + n % 2
  }

  /** The number written with d ones. */
  function Repunit(d: nat): nat
  {
    if d == 0 then 0 else Repunit(d - 1) * 10 + 1
  }

  function Pow10(k: nat): (r: nat)
    ensures r >= 1
  {
    if k == 0 then 1 else 10 * Pow10(k - 1)
  }

  /** The quad-key of tile (row, col) at a depth, as a decimal number: its k-th
      digit from the right is 2 * (bit k of row) + (bit k of col) + 1. */
  function TileNumber(row: nat, col: nat, depth: nat): nat
  {
    if depth == 0 then 0
    else TileNumber(row / 2, col / 2, depth - 1) * 10 + (2 * (row % 2) + col % 2 + 1)
  }

  /** Bit k of n. */
  function Bit(n: nat, k: nat): nat
  {
    if k == 0 then n % 2 else Bit(n / 2, k - 1)
  }

  /** The source's arithmetic, 2 * binary(row) + binary(col) + 11...1, is the
      quad-key: no digit carries because every digit stays below 10. */
  lemma {:induction false} NameArithmeticIsQuadKey(row: nat, col: nat, depth: nat)
    requires row < Pow2(depth) && col < Pow2(depth)
    ensures BinaryAsDecimal(row) * 2 + BinaryAsDecimal(col) + Repunit(depth) == TileNumber(row, col, depth)
  {
    if depth > 0 {
      NameArithmeticIsQuadKey(row / 2, col / 2, depth - 1);
    }
  }

  /** A tile number at depth >= 1 has exactly `depth` decimal digits. */
  lemma {:induction false} TileNumberHasDepthDigits(row: nat, col: nat, depth: nat)
    requires 1 <= depth
    requires row < Pow2(depth) && col < Pow2(depth)
    ensures Pow10(depth - 1) <= TileNumber(row, col, depth) < Pow10(depth)
  {
    if depth > 1 {
      TileNumberHasDepthDigits(row / 2, col / 2, depth - 1);
    }
  }

  /** Digit k of n, counting from the right. */
  function DecimalDigit(n: nat, k: nat): nat
  {
    if k == 0 then n % 10 else DecimalDigit(n / 10, k - 1)
  }

  /** Read as a decimal number, the binary digits of n are its decimal digits:
      digit k of BinaryAsDecimal(n) is bit k of n. */
  lemma {:induction false} BinaryAsDecimalDigits(n: nat, k: nat)
    ensures DecimalDigit(BinaryAsDecimal(n), k) == Bit(n, k)
  {
    if n > 0 {
      assert (BinaryAsDecimal(n / 2) * 10 + n % 2) / 10 == BinaryAsDecimal(n / 2);
    }
    if k > 0 {
      BinaryAsDecimalDigits(n / 2, k - 1);
    }
  }

  /** Digit k of a tile number (counting from the right, k < depth) is
      2 * (bit k of row) + (bit k of col) + 1, a value in 1..4. */
  lemma {:induction false} TileNumberDigit(row: nat, col: nat, depth: nat, k: nat)
    requires k < depth
    ensures DecimalDigit(TileNumber(row, col, depth), k) == 2 * Bit(row, k) + Bit(col, k) + 1
    ensures 1 <= DecimalDigit(TileNumber(row, col, depth), k) <= 4
  {
    var rest := TileNumber(row / 2, col / 2, depth - 1);
    var digit := 2 * (row % 2) + col % 2 + 1;
    assert TileNumber(row, col, depth) == rest * 10 + digit;
    assert (rest * 10 + digit) / 10 == rest;
    if k > 0 {
      TileNumberDigit(row / 2, col / 2, depth - 1, k - 1);
    }
  }

  /** A number's last decimal digit and the rest determine it. */
  lemma LastDigitSplits(n1: int, d1: int, n2: int, d2: int)
    requires 0 <= d1 < 10 && 0 <= d2 < 10
    requires n1 * 10 + d1 == n2 * 10 + d2
    ensures n1 == n2 && d1 == d2
  {
  }

  /** Distinct tiles at one depth never share a name. */
  lemma {:induction false} TileNumberInjective(r1: nat, c1: nat, r2: nat, c2: nat, depth: nat)
    requires r1 < Pow2(depth) && c1 < Pow2(depth)
    requires r2 < Pow2(depth) && c2 < Pow2(depth)
    requires TileNumber(r1, c1, depth) == TileNumber(r2, c2, depth)
    ensures r1 == r2 && c1 == c2
  {
    if depth > 0 {
      var d1 := 2 * (r1 % 2) + c1 % 2 + 1;
      var d2 := 2 * (r2 % 2) + c2 % 2 + 1;
      var n1 := TileNumber(r1 / 2, c1 / 2, depth - 1);
      var n2 := TileNumber(r2 / 2, c2 / 2, depth - 1);
      LastDigitSplits(n1, d1, n2, d2);
      TileNumberInjective(r1 / 2, c1 / 2, r2 / 2, c2 / 2, depth - 1);
    }
  }

  /** The tile name of (row, col) at a depth from 1 to 7; the loop builds the
      "11...1" string as a number. */
  method ConvertToString(row: nat, col: nat, depth: nat) returns (name: TileImage)
    requires 1 <= depth <= MaxDepth
    requires row < Pow2(depth) && col < Pow2(depth)
    ensures name == Numbered(TileNumber(row, col, depth))
  {
    var rowToBinary := BinaryAsDecimal(row);
    var colToBinary := BinaryAsDecimal(col);
    var allOnes := 0;
    for i := 0 to depth
      invariant allOnes == Repunit(i)
    {
      allOnes := allOnes * 10 + 1;
    }
    NameArithmeticIsQuadKey(row, col, depth);
    name := Numbered(rowToBinary * 2 + colToBinary + allOnes);
  }

  // ---------------------------------------------------------------------------
  // getImageMatrix and getMapRaster

  /** The grid holds, row-major, the name of every tile between the corner
      indices; at depth 0 it is the single root image. */
  predicate IsImageMatrix(m: array2<Option<TileImage>>, c: CornerIndex, depth: nat)
    reads m
  {
    && m.Length0 == c.lrRow - c.ulRow + 1
    && m.Length1 == c.lrCol - c.ulCol + 1
    && (depth == 0 ==> m.Length0 == 1 && m.Length1 == 1 && m[0, 0] == Some(RootImage))
    && (depth > 0 ==>
         forall i, j :: 0 <= i < m.Length0 && 0 <= j < m.Length1 ==>
           c.ulRow + i >= 0 && c.ulCol + j >= 0 &&
           m[i, j] == Some(Numbered(TileNumber(c.ulRow + i, c.ulCol + j, depth))))
  }

  /** The inner loop of getImageMatrix: fills grid row `row`, which holds tile
      row c.ulRow + row, with the names of its tiles from column c.ulCol to
      c.lrCol, and leaves the other rows as they were. */
  method FillRow(m: array2<Option<TileImage>>, c: CornerIndex, depth: nat, row: nat)
    requires 1 <= depth <= MaxDepth
    requires 0 <= c.ulCol <= c.lrCol < Pow2(depth)
    requires 0 <= c.ulRow && c.ulRow + row <= c.lrRow < Pow2(depth)
    requires m.Length0 == c.lrRow - c.ulRow + 1 && m.Length1 == c.lrCol - c.ulCol + 1
    modifies m
    ensures forall b :: 0 <= b < m.Length1 ==>
      m[row, b] == Some(Numbered(TileNumber(c.ulRow + row, c.ulCol + b, depth)))
    ensures forall a, b :: 0 <= a < m.Length0 && 0 <= b < m.Length1 && a != row ==>
      m[a, b] == old(m[a, b])
  {
    var i := c.ulRow + row;
    var j := c.ulCol;
    while j <= c.lrCol
      invariant c.ulCol <= j <= c.lrCol + 1
      invariant forall b :: 0 <= b < j - c.ulCol ==>
        m[row, b] == Some(Numbered(TileNumber(i, c.ulCol + b, depth)))
      invariant forall a, b :: 0 <= a < m.Length0 && 0 <= b < m.Length1 && a != row ==>
        m[a, b] == old(m[a, b])
    {
      var name := ConvertToString(i, j, depth);
      m[row, j - c.ulCol] := Some(name);
      j := j + 1;
    }
  }

  /** Builds the grid of tile names between the corner indices, row by row. */
  method GetImageMatrix(c: CornerIndex, depth: nat) returns (m: array2<Option<TileImage>>)
    requires depth <= MaxDepth
    requires 0 <= c.ulCol <= c.lrCol < Pow2(depth)
    requires 0 <= c.ulRow <= c.lrRow < Pow2(depth)
    ensures fresh(m)
    ensures IsImageMatrix(m, c, depth)
  {
    var rowSize := c.lrRow - c.ulRow + 1;
    var colSize := c.lrCol - c.ulCol + 1;
    m := new Option<TileImage>[rowSize, colSize]((_, _) => None);
    if depth == 0 {
      m[0, 0] := Some(RootImage);
      return;
    }
    var i := c.ulRow;
    while i <= c.lrRow
      invariant c.ulRow <= i <= c.lrRow + 1
      invariant forall a, b :: 0 <= a < i - c.ulRow && 0 <= b < colSize ==>
        m[a, b] == Some(Numbered(TileNumber(c.ulRow + a, c.ulCol + b, depth)))
    {
      FillRow(m, c, depth, i - c.ulRow);
      i := i + 1;
    }
  }

  /** The successful answer to a valid query: the depth is the chosen one, the box
      is the snapped extent of the corner tiles, and the grid names those tiles. */
  predicate IsSuccessfulRaster(root: RootBox, q: Query, r: RasterResult)
    requires root.WellFormed() && IsValid(root, q)
    reads if r.renderGrid.Some? then {r.renderGrid.value} else {}
  {
    && r.querySuccess
    && r.depth.Some? && IsChosenDepth(root, q.ullon, q.lrlon, q.w, r.depth.value)
    && var b := RasterBoxOf(root, q, r.depth.value);
    && r.rasterUlLon == Some(b.ulLon) && r.rasterUlLat == Some(b.ulLat)
    && r.rasterLrLon == Some(b.lrLon) && r.rasterLrLat == Some(b.lrLat)
    && r.renderGrid.Some?
    && IsImageMatrix(r.renderGrid.value, GetCornerIndex(root, q, r.depth.value), r.depth.value)
  }

  /** Answers a raster request: an invalid query fails with every other field
      null; a valid one succeeds with the chosen depth, box and grid. */
  method GetMapRaster(root: RootBox, q: Query) returns (r: RasterResult)
    requires root.WellFormed()
    ensures !IsValid(root, q) ==>
      r == RasterResult(None, None, None, None, None, None, false)
    ensures IsValid(root, q) ==> IsSuccessfulRaster(root, q, r)
    ensures r.renderGrid.Some? ==> fresh(r.renderGrid.value)
  {
    if !IsValid(root, q) {
      return RasterResult(None, None, None, None, None, None, false);
    }
    var depth := GetDepth(root, q.ullon, q.lrlon, q.w);
    var cornerIndex := GetCornerIndex(root, q, depth);
    var cornerCoordinate := GetCornerCoordinate(root, cornerIndex, depth);
    var imageMatrix := GetImageMatrix(cornerIndex, depth);
    r := RasterResult(Some(imageMatrix),
                      Some(cornerCoordinate.ulLon), Some(cornerCoordinate.ulLat),
                      Some(cornerCoordinate.lrLon), Some(cornerCoordinate.lrLat),
                      Some(depth), true);
  }
}
