/**
 * The slice of the H3 hexagonal grid library that the polygon filler relies on.
 * The grid algorithms themselves are not modelled: cell addresses and
 * coordinates are opaque, and each library call is a field of `Grid`, so every
 * statement about the filler holds for whatever the library computes.
 */
module H3 {

  /** An H3 cell address (a string token in the library). */
  type Cell(==, !new)

  /** A coordinate pair, in whichever order the caller's flag says. */
  type Coord(!new)

  /** The coordinates of one ring, in order, closing point included. */
  type Ring = seq<Coord>

  /** Size of the neighbourhood the filler asks for (`k_ring(x, 1)`). */
  const OneRing: nat := 1

  /**
   * The library calls, as functions:
   *  - polyfillPolygon(outer, resolution, holes, geoJson): `h3.polyfill_polygon`
   *  - h3ToGeo(cell): `h3.h3_to_geo`, the centre of a cell
   *  - geoToH3(point, resolution): `h3.geo_to_h3`, the cell containing a point
   *  - kRing(cell, k): `h3.k_ring`, the cells within grid distance k
   *  - getResolution(cell): `h3.h3_get_resolution`; the filler never calls it,
   *    it is here only so that the model can say at which resolution its
   *    results lie.
   */
  datatype Grid = Grid(
    polyfillPolygon: (Ring, int, seq<Ring>, bool) -> set<Cell>,
    h3ToGeo: Cell -> Coord,
    geoToH3: (Coord, int) -> Cell,
    kRing: (Cell, nat) -> set<Cell>,
    getResolution: Cell -> int)

  /** A cell's 1-ring contains the cell itself (grid distance 0). */
  ghost predicate RingHoldsCentre(g: Grid)
  {
    forall c :: c in g.kRing(c, OneRing)
  }

  /** The finest resolution H3 supports; resolutions run from 0 to it. */
  const FinestResolution := 15

  /**
   * The library never mixes resolutions: for every valid resolution r, a fill
   * at r and a point lookup at r give cells of resolution r, and a cell's
   * neighbours share its resolution.
   */
  ghost predicate KeepsResolution(g: Grid)
  {
    && (forall outer, r, holes, geoJson, c ::
          0 <= r <= FinestResolution && c in g.polyfillPolygon(outer, r, holes, geoJson) ==> g.getResolution(c) == r)
    && (forall p, r :: 0 <= r <= FinestResolution ==> g.getResolution(g.geoToH3(p, r)) == r)
    && (forall c, n :: n in g.kRing(c, OneRing) ==> g.getResolution(n) == g.getResolution(c))
  }
}
