/**
 * `polyfill` of h3pandas: the H3 cells that cover a Polygon or MultiPolygon
 * at a requested resolution, with a search at finer resolutions when the
 * polygon is too small to hold a whole cell, and an optional one-ring
 * expansion ("overfill").
 */
module Shapely {
  import opened H3

  datatype Option<T> = None | Some(value: T)

  /** The exceptions `polyfill` raises itself. */
  datatype Error =
    | UnknownType(typeName: string)  // the geometry is neither Polygon nor MultiPolygon
    | ReduceOfEmpty                  // `reduce` over an empty list with no initial value

  datatype Result<T> = Ok(value: T) | Err(error: Error)

  /** A closed ring of a shapely polygon. */
  datatype LinearRing = LinearRing(coords: seq<Coord>)

  /** A shapely polygon: one exterior ring and its holes. */
  datatype Polygon = Polygon(exterior: LinearRing, interiors: seq<LinearRing>)

  /** What `polyfill` can be handed: a Polygon, a MultiPolygon, or anything else (by type name). */
  datatype Geometry =
    | Poly(polygon: Polygon)
    | Multi(geoms: seq<Polygon>)
    | Other(typeName: string)

  /** `_max_h3_resolution`: the end of the fallback scan, H3's finest resolution (15). */
  const MaxH3Resolution := FinestResolution

  // ---------------------------------------------------------------------------
  // Ring extraction

  /** The coordinate list of each ring, in order. */
  function RingsCoords(rings: seq<LinearRing>): (r: seq<Ring>)
    ensures |r| == |rings|
    ensures forall k :: 0 <= k < |rings| ==> r[k] == rings[k].coords
  {
    if rings == [] then [] else [rings[0].coords] + RingsCoords(rings[1..])
  }

  /** `_extract_coords`: the exterior ring, and one entry per interior ring in the same order. */
  function ExtractCoords(p: Polygon): (r: (Ring, seq<Ring>))
    ensures r.0 == p.exterior.coords
    ensures |r.1| == |p.interiors|
    ensures forall k :: 0 <= k < |p.interiors| ==> r.1[k] == p.interiors[k].coords
  {
    (p.exterior.coords, RingsCoords(p.interiors))
  }

  // ---------------------------------------------------------------------------
  // Specification of one polygon

  /**
   * The fallback search: the smallest resolution in `from..MaxH3Resolution`
   * whose fill is non-empty, if there is one.
   */
  function FirstFilled(g: Grid, outer: Ring, holes: seq<Ring>, geoJson: bool, from: int): (r: Option<int>)
    decreases MaxH3Resolution + 1 - from
    ensures r.Some? ==> from <= r.value <= MaxH3Resolution
    ensures r.Some? ==> g.polyfillPolygon(outer, r.value, holes, geoJson) != {}
    ensures r.Some? ==> forall j :: from <= j < r.value ==> g.polyfillPolygon(outer, j, holes, geoJson) == {}
    ensures r.None? <==> forall j :: from <= j <= MaxH3Resolution ==> g.polyfillPolygon(outer, j, holes, geoJson) == {}
  {
    if from > MaxH3Resolution then None
    else if g.polyfillPolygon(outer, from, holes, geoJson) != {} then Some(from)
    else FirstFilled(g, outer, holes, geoJson, from + 1)
  }

  /** The cell at resolution `res` that holds the centre of `c`. */
  function Parent(g: Grid, c: Cell, res: int): (parent: Cell)
  {
    g.geoToH3(g.h3ToGeo(c), res)
  }

  /** Coarsening: every finer cell mapped to resolution `res`, duplicates merged. */
  function Coarsen(g: Grid, fine: set<Cell>, res: int): (r: set<Cell>)
    ensures forall f :: f in fine ==> Parent(g, f, res) in r
    ensures forall c :: c in r ==> exists f :: f in fine && Parent(g, f, res) == c
    ensures r == {} <==> fine == {}
  {
    set f | f in fine :: Parent(g, f, res)
  }

  /** Overfill: the union of the 1-rings of the cells; `reduce` fails on an empty list. */
  function Overfill(g: Grid, s: set<Cell>): (r: Result<set<Cell>>)
    ensures r.Err? <==> s == {}
    ensures r.Err? ==> r.error == ReduceOfEmpty
    ensures r.Ok? ==> forall n :: n in r.value <==> exists x :: x in s && n in g.kRing(x, OneRing)
  {
    if s == {} then Err(ReduceOfEmpty)
    else Ok(set x, n | x in s && n in g.kRing(x, OneRing) :: n)
  }

  /** The cells of one polygon before overfill (`temp_fillers`). */
  function PolygonCells(g: Grid, p: Polygon, res: int, geoJson: bool): (cells: set<Cell>)
  {
    var (outer, holes) := ExtractCoords(p);
    var direct := g.polyfillPolygon(outer, res, holes, geoJson);
    if direct != {} then direct
    else match FirstFilled(g, outer, holes, geoJson, res + 1)
      case None => {}
      case Some(i) => Coarsen(g, g.polyfillPolygon(outer, i, holes, geoJson), res)
  }

  /** `polyfill` on a Polygon. */
  function PolygonFill(g: Grid, p: Polygon, res: int, geoJson: bool, overfill: bool): (r: Result<set<Cell>>)
  {
    var cells := PolygonCells(g, p, res, geoJson);
    if overfill then Overfill(g, cells) else Ok(cells)
  }

  /** `polyfill` over the parts of a MultiPolygon, in order; the first failing part decides the error. */
  function MultiFill(g: Grid, parts: seq<Polygon>, res: int, geoJson: bool, overfill: bool): (r: Result<set<Cell>>)
    decreases |parts|
  {
    if parts == [] then Ok({})
    else match MultiFill(g, parts[..|parts| - 1], res, geoJson, overfill)
      case Err(e) => Err(e)
      case Ok(acc) =>
        match PolygonFill(g, parts[|parts| - 1], res, geoJson, overfill)
        case Err(e) => Err(e)
        case Ok(s) => Ok(acc + s)
  }

  /** `polyfill`, dispatched on the kind of geometry. */
  function Fill(g: Grid, geometry: Geometry, res: int, geoJson: bool, overfill: bool): (r: Result<set<Cell>>)
  {
    match geometry
    case Poly(p) => PolygonFill(g, p, res, geoJson, overfill)
    case Multi(parts) => MultiFill(g, parts, res, geoJson, overfill)
    case Other(t) => Err(UnknownType(t))
  }

  // ---------------------------------------------------------------------------
  // The implementation

  /**
   * `polyfill(geometry, resolution, geo_json, overfill)`. The fallback scan
   * reassigns `fillers` and leaves at the first non-empty fill; a
   * MultiPolygon is filled part by part through a recursive call.
   */
  method Polyfill(g: Grid, geometry: Geometry, resolution: int, geoJson: bool, overfill: bool)
    returns (r: Result<set<Cell>>)
    decreases if geometry.Multi? then 1 else 0
    ensures r == Fill(g, geometry, resolution, geoJson, overfill)
  {
    match geometry
    case Poly(p) =>
      var (outer, holes) := ExtractCoords(p);
      var fillers := g.polyfillPolygon(outer, resolution, holes, geoJson);
      var tempFillers: set<Cell>;
      if |fillers| < 1 {
        var i := resolution + 1;
        while i <= MaxH3Resolution
          invariant resolution < i
          invariant fillers == {}
          invariant forall j :: resolution < j < i ==> g.polyfillPolygon(outer, j, holes, geoJson) == {}
          decreases MaxH3Resolution - i
        {
          fillers := g.polyfillPolygon(outer, i, holes, geoJson);
          if |fillers| > 0 {
            FirstFilledIsSmallest(g, outer, holes, geoJson, resolution + 1, i);
            break;
          }
          i := i + 1;
        }
        tempFillers := Coarsen(g, fillers, resolution);
      } else {
        tempFillers := fillers;
      }
      if overfill {
        r := Overfill(g, tempFillers);
      } else {
        r := Ok(tempFillers);
      }
    case Multi(parts) =>
      var addresses: set<Cell> := {};
      var k := 0;
      while k < |parts|
        invariant 0 <= k <= |parts|
        invariant MultiFill(g, parts[..k], resolution, geoJson, overfill) == Ok(addresses)
      {
        var part := Polyfill(g, Poly(parts[k]), resolution, geoJson, overfill);
        assert parts[..k + 1][..k] == parts[..k];
        if part.Err? {
          MultiFillErrorStays(g, parts, k + 1, resolution, geoJson, overfill);
          return part;
        }
        addresses := addresses + part.value;
        k := k + 1;
      }
      assert parts[..k] == parts;
      r := Ok(addresses);
    case Other(t) =>
      r := Err(UnknownType(t));
  }

  // ---------------------------------------------------------------------------
  // Lemmas

  /** The fallback picks the smallest resolution from `from` on that fills. */
  lemma FirstFilledIsSmallest(g: Grid, outer: Ring, holes: seq<Ring>, geoJson: bool, from: int, i: int)
    requires from <= i <= MaxH3Resolution
    requires g.polyfillPolygon(outer, i, holes, geoJson) != {}
    requires forall j :: from <= j < i ==> g.polyfillPolygon(outer, j, holes, geoJson) == {}
    ensures FirstFilled(g, outer, holes, geoJson, from) == Some(i)
  {
  }

  /** Once a prefix of the parts fails, the later parts do not change the MultiPolygon's result. */
  lemma {:induction false} MultiFillErrorStays(g: Grid, parts: seq<Polygon>, n: nat, res: int, geoJson: bool, overfill: bool)
    requires n <= |parts|
    requires MultiFill(g, parts[..n], res, geoJson, overfill).Err?
    ensures MultiFill(g, parts, res, geoJson, overfill) == MultiFill(g, parts[..n], res, geoJson, overfill)
    decreases |parts|
  {
    if n < |parts| {
      var init := parts[..|parts| - 1];
      assert init[..n] == parts[..n];
      MultiFillErrorStays(g, init, n, res, geoJson, overfill);
    } else {
      assert parts[..n] == parts;
    }
  }

  /** A MultiPolygon whose part `k` is the first to fail gives exactly that part's error. */
  lemma MultiFillFirstFailure(g: Grid, parts: seq<Polygon>, k: nat, res: int, geoJson: bool, overfill: bool)
    requires k < |parts|
    requires PolygonFill(g, parts[k], res, geoJson, overfill).Err?
    requires forall j :: 0 <= j < k ==> PolygonFill(g, parts[j], res, geoJson, overfill).Ok?
    ensures MultiFill(g, parts, res, geoJson, overfill) == PolygonFill(g, parts[k], res, geoJson, overfill)
  {
    var init := parts[..k];
    assert forall j :: 0 <= j < k ==> init[j] == parts[j];
    MultiFillSucceeds(g, init, res, geoJson, overfill);
    assert parts[..k + 1][..k] == init;
    MultiFillErrorStays(g, parts, k + 1, res, geoJson, overfill);
  }

  /** With a non-empty direct fill, the result is that fill, or its overfill. */
  lemma DirectFillUsed(g: Grid, p: Polygon, res: int, geoJson: bool, overfill: bool)
    requires g.polyfillPolygon(p.exterior.coords, res, RingsCoords(p.interiors), geoJson) != {}
    ensures !overfill ==> Fill(g, Poly(p), res, geoJson, overfill)
                          == Ok(g.polyfillPolygon(p.exterior.coords, res, RingsCoords(p.interiors), geoJson))
    ensures overfill ==> Fill(g, Poly(p), res, geoJson, overfill)
                         == Overfill(g, g.polyfillPolygon(p.exterior.coords, res, RingsCoords(p.interiors), geoJson))
  {
  }

  /**
   * With an empty direct fill and `i` the smallest resolution in
   * `res+1..MaxH3Resolution` that fills, the result is the fill at `i`
   * coarsened to `res`.
   */
  lemma FallbackCoarsensSmallest(g: Grid, p: Polygon, res: int, geoJson: bool, i: int)
    requires g.polyfillPolygon(p.exterior.coords, res, RingsCoords(p.interiors), geoJson) == {}
    requires res < i <= MaxH3Resolution
    requires g.polyfillPolygon(p.exterior.coords, i, RingsCoords(p.interiors), geoJson) != {}
    requires forall j :: res < j < i ==> g.polyfillPolygon(p.exterior.coords, j, RingsCoords(p.interiors), geoJson) == {}
    ensures Fill(g, Poly(p), res, geoJson, false)
            == Ok(Coarsen(g, g.polyfillPolygon(p.exterior.coords, i, RingsCoords(p.interiors), geoJson), res))
    ensures Fill(g, Poly(p), res, geoJson, true)
            == Overfill(g, Coarsen(g, g.polyfillPolygon(p.exterior.coords, i, RingsCoords(p.interiors), geoJson), res))
  {
  }

  /**
   * When no resolution from `res` to MaxH3Resolution fills (in particular
   * when `res >= MaxH3Resolution` and the direct fill is empty), the result
   * is empty without overfill and the `reduce` error with it.
   */
  lemma NothingFills(g: Grid, p: Polygon, res: int, geoJson: bool)
    requires g.polyfillPolygon(p.exterior.coords, res, RingsCoords(p.interiors), geoJson) == {}
    requires forall j :: res < j <= MaxH3Resolution ==> g.polyfillPolygon(p.exterior.coords, j, RingsCoords(p.interiors), geoJson) == {}
    ensures Fill(g, Poly(p), res, geoJson, false) == Ok({})
    ensures Fill(g, Poly(p), res, geoJson, true) == Err(ReduceOfEmpty)
  {
  }

  /** A polygon result is empty exactly when no resolution from `res` to MaxH3Resolution fills. */
  lemma EmptyExactlyWhenNothingFills(g: Grid, p: Polygon, res: int, geoJson: bool)
    ensures PolygonCells(g, p, res, geoJson) == {} <==>
              (g.polyfillPolygon(p.exterior.coords, res, RingsCoords(p.interiors), geoJson) == {} &&
               forall j :: res < j <= MaxH3Resolution ==> g.polyfillPolygon(p.exterior.coords, j, RingsCoords(p.interiors), geoJson) == {})
  {
  }

  /**
   * Only the resolutions from `res` to MaxH3Resolution are consulted: two
   * libraries that agree on those fills and on the other calls give the same
   * result.
   */
  lemma {:induction false} OnlyScannedResolutionsMatter(g1: Grid, g2: Grid, p: Polygon, res: int, geoJson: bool, overfill: bool)
    requires g1.h3ToGeo == g2.h3ToGeo && g1.geoToH3 == g2.geoToH3 && g1.kRing == g2.kRing
    requires forall j :: j == res || res < j <= MaxH3Resolution ==>
               g1.polyfillPolygon(p.exterior.coords, j, RingsCoords(p.interiors), geoJson)
               == g2.polyfillPolygon(p.exterior.coords, j, RingsCoords(p.interiors), geoJson)
    ensures Fill(g1, Poly(p), res, geoJson, overfill) == Fill(g2, Poly(p), res, geoJson, overfill)
  {
    var outer, holes := p.exterior.coords, RingsCoords(p.interiors);
    FirstFilledAgrees(g1, g2, outer, holes, geoJson, res + 1);
    var f := FirstFilled(g1, outer, holes, geoJson, res + 1);
    if f.Some? {
      assert g1.polyfillPolygon(outer, f.value, holes, geoJson) == g2.polyfillPolygon(outer, f.value, holes, geoJson);
    }
    assert PolygonCells(g1, p, res, geoJson) == PolygonCells(g2, p, res, geoJson);
  }

  /** The fallback search depends only on the fills from `from` to MaxH3Resolution. */
  lemma FirstFilledAgrees(g1: Grid, g2: Grid, outer: Ring, holes: seq<Ring>, geoJson: bool, from: int)
    requires forall j :: from <= j <= MaxH3Resolution ==> g1.polyfillPolygon(outer, j, holes, geoJson) == g2.polyfillPolygon(outer, j, holes, geoJson)
    ensures FirstFilled(g1, outer, holes, geoJson, from) == FirstFilled(g2, outer, holes, geoJson, from)
  {
  }

  /** Coarsening never yields more cells than it is given. */
  lemma {:induction false} CoarsenNoLarger(g: Grid, fine: set<Cell>, res: int)
    ensures |Coarsen(g, fine, res)| <= |fine|
    decreases fine
  {
    if fine != {} {
      var f :| f in fine;
      var rest := fine - {f};
      CoarsenNoLarger(g, rest, res);
      assert Coarsen(g, fine, res) == Coarsen(g, rest, res) + {Parent(g, f, res)};
    }
  }

  /** When each 1-ring holds its centre, overfill of a non-empty set succeeds and only adds cells. */
  lemma OverfillGrows(g: Grid, s: set<Cell>)
    requires RingHoldsCentre(g)
    requires s != {}
    ensures Overfill(g, s).Ok? && s <= Overfill(g, s).value
  {
  }

  /**
   * With overfill the result contains the result without it; overfill fails
   * exactly when the plain result is empty.
   */
  lemma OverfillSuperset(g: Grid, p: Polygon, res: int, geoJson: bool)
    requires RingHoldsCentre(g)
    ensures Fill(g, Poly(p), res, geoJson, false).Ok?
    ensures Fill(g, Poly(p), res, geoJson, true).Err? <==> Fill(g, Poly(p), res, geoJson, false).value == {}
    ensures Fill(g, Poly(p), res, geoJson, true).Ok? ==>
              Fill(g, Poly(p), res, geoJson, false).value <= Fill(g, Poly(p), res, geoJson, true).value
  {
  }

  /** A MultiPolygon succeeds exactly when every part does. */
  lemma {:induction false} MultiFillSucceeds(g: Grid, parts: seq<Polygon>, res: int, geoJson: bool, overfill: bool)
    ensures MultiFill(g, parts, res, geoJson, overfill).Ok? <==>
              forall k :: 0 <= k < |parts| ==> PolygonFill(g, parts[k], res, geoJson, overfill).Ok?
    decreases |parts|
  {
    if parts != [] {
      var n := |parts| - 1;
      var init := parts[..n];
      MultiFillSucceeds(g, init, res, geoJson, overfill);
      var before := MultiFill(g, init, res, geoJson, overfill);
      var last := PolygonFill(g, parts[n], res, geoJson, overfill);
      assert MultiFill(g, parts, res, geoJson, overfill).Ok? <==> before.Ok? && last.Ok?;
      if before.Err? {
        var k :| 0 <= k < n && !PolygonFill(g, init[k], res, geoJson, overfill).Ok?;
        assert init[k] == parts[k];
      } else {
        assert forall k :: 0 <= k < n ==> init[k] == parts[k];
      }
    }
  }

  /** When a MultiPolygon succeeds, its cells are the union of the parts' cells. */
  lemma {:induction false} MultiFillIsUnion(g: Grid, parts: seq<Polygon>, res: int, geoJson: bool, overfill: bool)
    requires MultiFill(g, parts, res, geoJson, overfill).Ok?
    ensures forall c :: c in MultiFill(g, parts, res, geoJson, overfill).value <==>
              exists k :: 0 <= k < |parts| && PolygonFill(g, parts[k], res, geoJson, overfill).Ok? &&
                c in PolygonFill(g, parts[k], res, geoJson, overfill).value
    decreases |parts|
  {
    if parts != [] {
      var n := |parts| - 1;
      var init := parts[..n];
      var whole := MultiFill(g, parts, res, geoJson, overfill);
      var before := MultiFill(g, init, res, geoJson, overfill);
      var last := PolygonFill(g, parts[n], res, geoJson, overfill);
      assert before.Ok? && last.Ok? && whole.value == before.value + last.value;
      MultiFillIsUnion(g, init, res, geoJson, overfill);
      MultiFillSucceeds(g, parts, res, geoJson, overfill);
      forall c | c in whole.value
        ensures exists k :: 0 <= k < |parts| && PolygonFill(g, parts[k], res, geoJson, overfill).Ok? &&
                  c in PolygonFill(g, parts[k], res, geoJson, overfill).value
      {
        if c !in last.value {
          var k :| 0 <= k < n && c in PolygonFill(g, init[k], res, geoJson, overfill).value;
          assert init[k] == parts[k];
        }
      }
      forall c, k | 0 <= k < |parts| && PolygonFill(g, parts[k], res, geoJson, overfill).Ok? &&
                    c in PolygonFill(g, parts[k], res, geoJson, overfill).value
        ensures c in whole.value
      {
        if k < n {
          assert init[k] == parts[k];
          assert c in before.value;
        }
      }
    }
  }

  /** A MultiPolygon's result is the union of `polyfill` on each part, with the same flags. */
  lemma MultiPolygonIsUnion(g: Grid, parts: seq<Polygon>, res: int, geoJson: bool, overfill: bool)
    requires forall k :: 0 <= k < |parts| ==> Fill(g, Poly(parts[k]), res, geoJson, overfill).Ok?
    ensures Fill(g, Multi(parts), res, geoJson, overfill).Ok?
    ensures forall c :: c in Fill(g, Multi(parts), res, geoJson, overfill).value <==>
              exists k :: 0 <= k < |parts| && c in Fill(g, Poly(parts[k]), res, geoJson, overfill).value
  {
    MultiFillSucceeds(g, parts, res, geoJson, overfill);
    MultiFillIsUnion(g, parts, res, geoJson, overfill);
  }

  /**
   * For any geometry, when each 1-ring holds its centre and overfill
   * succeeds, the plain result succeeds too and is contained in it.
   */
  lemma {:induction false} OverfillContainsPlain(g: Grid, geometry: Geometry, res: int, geoJson: bool)
    requires RingHoldsCentre(g)
    requires Fill(g, geometry, res, geoJson, true).Ok?
    ensures Fill(g, geometry, res, geoJson, false).Ok?
    ensures Fill(g, geometry, res, geoJson, false).value <= Fill(g, geometry, res, geoJson, true).value
  {
    match geometry
    case Poly(p) =>
      OverfillSuperset(g, p, res, geoJson);
    case Multi(parts) =>
      forall k | 0 <= k < |parts| ensures PolygonFill(g, parts[k], res, geoJson, false).Ok? {
        OverfillSuperset(g, parts[k], res, geoJson);
      }
      MultiFillSucceeds(g, parts, res, geoJson, true);
      MultiFillSucceeds(g, parts, res, geoJson, false);
      MultiFillIsUnion(g, parts, res, geoJson, true);
      MultiFillIsUnion(g, parts, res, geoJson, false);
      forall k | 0 <= k < |parts|
        ensures PolygonFill(g, parts[k], res, geoJson, false).value <= PolygonFill(g, parts[k], res, geoJson, true).value
      {
        OverfillSuperset(g, parts[k], res, geoJson);
      }
  }

  /** Anything but a Polygon or MultiPolygon is a type error, whatever the library would answer. */
  lemma OtherIsTypeError(g1: Grid, g2: Grid, t: string, res: int, geoJson: bool, overfill: bool)
    ensures Fill(g1, Other(t), res, geoJson, overfill) == Err(UnknownType(t))
    ensures Fill(g1, Other(t), res, geoJson, overfill) == Fill(g2, Other(t), res, geoJson, overfill)
  {
  }

  /** A polygon's cells all lie at the requested resolution, overfill or not. */
  lemma PolygonAtResolution(g: Grid, p: Polygon, res: int, geoJson: bool, overfill: bool)
    requires KeepsResolution(g)
    requires 0 <= res <= MaxH3Resolution
    ensures PolygonFill(g, p, res, geoJson, overfill).Ok? ==>
              forall c :: c in PolygonFill(g, p, res, geoJson, overfill).value ==> g.getResolution(c) == res
  {
  }

  /** No result of `polyfill` mixes resolutions: every cell is at the requested one. */
  lemma {:induction false} FillAtResolution(g: Grid, geometry: Geometry, res: int, geoJson: bool, overfill: bool)
    requires KeepsResolution(g)
    requires 0 <= res <= MaxH3Resolution
    ensures Fill(g, geometry, res, geoJson, overfill).Ok? ==>
              forall c :: c in Fill(g, geometry, res, geoJson, overfill).value ==> g.getResolution(c) == res
  {
    match geometry
    case Poly(p) =>
      PolygonAtResolution(g, p, res, geoJson, overfill);
    case Multi(parts) =>
      if MultiFill(g, parts, res, geoJson, overfill).Ok? {
        MultiFillIsUnion(g, parts, res, geoJson, overfill);
      }
      forall k | 0 <= k < |parts| {
        PolygonAtResolution(g, parts[k], res, geoJson, overfill);
      }
    case Other(_) =>
  }
}
