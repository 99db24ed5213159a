/**
  From clicks to pixels (apps/polygons.c:88-248): what is painted, said in terms of
  the edges as they were drawn.
 */
module PolygonPicture {
  import opened Sorting
  import opened Polygons
  import opened PolygonPaint

  // ------------------------------------------------------------------ what is drawn

  /** The points of each contour: a move starts a new one. */
  function Runs(cs: seq<Command>): seq<seq<Point>> {
    if cs == [] then []
    else
      var runs, c := Runs(cs[..|cs| - 1]), cs[|cs| - 1];
      if c.MoveTo? || runs == [] then runs + [[c.to]]
      else runs[..|runs| - 1] + [runs[|runs| - 1] + [c.to]]
  }

  /** The edges from point to point. */
  function Sides(ps: seq<Point>): seq<Edge> {
    if |ps| < 2 then [] else Sides(ps[..|ps| - 1]) + [Line(ps[|ps| - 2], ps[|ps| - 1])]
  }

  /** The same and back to the first. */
  function Polygon(ps: seq<Point>): seq<Edge> {
    if |ps| < 2 then [] else Sides(ps) + [Line(ps[|ps| - 1], ps[0])]
  }

  function AllPolygons(runs: seq<seq<Point>>): seq<Edge> {
    if runs == [] then [] else AllPolygons(runs[..|runs| - 1]) + Polygon(runs[|runs| - 1])
  }

  /** The path holds the runs: all but the last closed, the last open. */
  ghost predicate Holds(p: Path, runs: seq<seq<Point>>) {
    if runs == [] then p.NoPath?
    else
      var last := runs[|runs| - 1];
      last != [] && p == Path(AllPolygons(runs[..|runs| - 1]), Sides(last), last[0])
  }

  lemma {:induction false} SidesEnd(ps: seq<Point>)
    requires ps != []
    ensures Sides(ps) == [] <==> |ps| == 1
    ensures Tip(Sides(ps), ps[0]) == ps[|ps| - 1]
  {
  }

  lemma SidesNext(ps: seq<Point>, to: Point)
    requires ps != []
    ensures Sides(ps + [to]) == Sides(ps) + [Line(ps[|ps| - 1], to)]
  {
    assert (ps + [to])[..|ps|] == ps;
  }

  lemma ClosedIsPolygon(p: Path, runs: seq<seq<Point>>)
    requires runs != [] && Holds(p, runs)
    ensures Outline(p) == AllPolygons(runs)
  {
    SidesEnd(runs[|runs| - 1]);
  }

  lemma DrawHolds(p: Path, runs: seq<seq<Point>>, c: Command, next: seq<seq<Point>>)
    requires Holds(p, runs)
    requires next == if c.MoveTo? || runs == [] then runs + [[c.to]]
                     else runs[..|runs| - 1] + [runs[|runs| - 1] + [c.to]]
    ensures Holds(Draw(p, c), next)
  {
    if c.MoveTo? || runs == [] {
      assert next[..|next| - 1] == runs;
      if runs != [] {
        ClosedIsPolygon(p, runs);
      }
    } else {
      var last := runs[|runs| - 1];
      assert next[..|next| - 1] == runs[..|runs| - 1];
      SidesEnd(last);
      SidesNext(last, c.to);
    }
  }

  lemma {:induction false} DrawAllHolds(cs: seq<Command>)
    ensures Holds(DrawAll(cs), Runs(cs))
  {
    if cs != [] {
      DrawAllHolds(cs[..|cs| - 1]);
      DrawHolds(DrawAll(cs[..|cs| - 1]), Runs(cs[..|cs| - 1]), cs[|cs| - 1], Runs(cs));
    }
  }

  /** What is finished and painted are the closed polygons through the clicked points, one
      for each run of points between moves. */
  lemma OutlineIsPolygons(cs: seq<Command>)
    ensures Outline(DrawAll(cs)) == AllPolygons(Runs(cs))
  {
    DrawAllHolds(cs);
    if Runs(cs) != [] {
      ClosedIsPolygon(DrawAll(cs), Runs(cs));
    }
  }

  // ------------------------------------------- the order of the edges does not matter

  function Crossings(es: seq<Edge>, y: real): seq<Crossing> {
    CrossingsAt(ActiveEdges(es, y), y)
  }

  lemma {:induction false} CrossingsAppend(a: seq<Edge>, b: seq<Edge>, y: real)
    ensures Crossings(a + b, y) == Crossings(a, y) + Crossings(b, y)
  {
    if b == [] {
      assert a + b == a;
    } else {
      assert (a + b)[..|a + b| - 1] == a + b[..|b| - 1];
      CrossingsAppend(a, b[..|b| - 1], y);
    }
  }

  lemma CrossingsTakeOut(es: seq<Edge>, k: nat, y: real)
    requires k < |es|
    ensures multiset(Crossings(es, y)) == multiset(Crossings([es[k]], y)) + multiset(Crossings(TakeOut(es, k), y))
  {
    var a, b := es[..k], es[k + 1..];
    assert es == a + ([es[k]] + b);
    CrossingsAppend(a, [es[k]] + b, y);
    CrossingsAppend([es[k]], b, y);
    CrossingsAppend(a, b, y);
  }

  lemma {:induction false} CrossingsPermutation(a: seq<Edge>, b: seq<Edge>, y: real)
    requires multiset(a) == multiset(b)
    ensures multiset(Crossings(a, y)) == multiset(Crossings(b, y))
    decreases |a|
  {
    if a == [] {
      assert |multiset(b)| == 0;
    } else {
      var k := FirstElsewhere(a, b);
      CrossingsPermutation(a[1..], TakeOut(b, k), y);
      CrossingsTakeOut(a, 0, y);
      CrossingsTakeOut(b, k, y);
      assert TakeOut(a, 0) == a[1..];
    }
  }

  lemma CellAnyOrder(a: seq<Edge>, b: seq<Edge>, s: real, x: int)
    requires multiset(a) == multiset(b)
    ensures Cell(Scan(a, s), x) == Cell(Scan(b, s), x)
  {
    CrossingsPermutation(a, b, s);
    CoveredAnyOrder(Scan(a, s), Scan(b, s), 0, x as real, (x + 1) as real);
  }

  function Total(s: seq<real>): real {
    if s == [] then 0.0 else Total(s[..|s| - 1]) + s[|s| - 1]
  }

  /** The cells of a pixel, one for each sub-scanline. */
  function Cells(es: seq<Edge>, y: int, x: int, n: nat): (r: seq<real>)
    ensures |r| == n && forall l :: 0 <= l < n ==> r[l] == Cell(Scan(es, SubScanline(y, l)), x)
  {
    seq(n, l => Cell(Scan(es, SubScanline(y, l)), x))
  }

  lemma {:induction false} CoverageIsTotal(es: seq<Edge>, y: int, x: int, cells: seq<real>)
    requires forall l :: 0 <= l < |cells| ==> cells[l] == Cell(Scan(es, SubScanline(y, l)), x)
    ensures Coverage(es, y, x, |cells|) == Total(cells)
  {
    var n := |cells|;
    if n > 0 {
      CoverageIsTotal(es, y, x, cells[..n - 1]);
      assert cells[n - 1] == Cell(Scan(es, SubScanline(y, n - 1)), x);
    }
  }

  /** Neither the order in which edges nor that in which crossings are sorted changes a pixel. */
  lemma CoverageAnyOrder(a: seq<Edge>, b: seq<Edge>, y: int, x: int, n: nat)
    requires multiset(a) == multiset(b)
    ensures Coverage(a, y, x, n) == Coverage(b, y, x, n)
  {
    var cells := Cells(a, y, x, n);
    CoverageIsTotal(a, y, x, cells);
    forall l | 0 <= l < n ensures cells[l] == Cell(Scan(b, SubScanline(y, l)), x) {
      CellAnyOrder(a, b, SubScanline(y, l), x);
    }
    CoverageIsTotal(b, y, x, cells);
  }

  // ------------------------------------------------------- the winding of the drawing

  /** Where the line through the ends of an edge meets the horizontal at y. */
  function Meet(e: Edge, y: real): real
    requires e.start.y != e.end.y
  {
    e.start.x + (y - e.start.y) / (e.end.y - e.start.y) * (e.end.x - e.start.x)
  }

  /** What an edge adds to the winding number of the point (s, y): one where it passes the
      horizontal through the point to its left downwards, less one upwards. */
  function Passes(y: real, s: real): Edge -> int {
    (e: Edge) =>
      if e.start.y < y <= e.end.y then if Meet(e, y) < s then 1 else 0
      else if e.end.y < y <= e.start.y then if Meet(e, y) < s then -1 else 0
      else 0
  }

  /** The winding number of the drawn edges around (s, y). */
  function WindingNumber(outline: seq<Edge>, y: real, s: real): int {
    Sum(outline, Passes(y, s))
  }

  /** The two parts of a stretch d, as fractions of it, whichever way it is measured. */
  lemma Shares(a: real, b: real, d: real)
    requires d != 0.0 && a + b == d
    ensures -a / -d == 1.0 - b / d
  {
    var u, w := b / d, -a / -d;
    assert u * d == b && w * -d == -a;
    assert w * d == a;
    assert (w + u - 1.0) * d == w * d + u * d - d;
    if w + u != 1.0 {
      Scaled(w + u - 1.0, d);
    }
  }

  lemma Scaled(a: real, d: real)
    requires a != 0.0 && d != 0.0
    ensures a * d != 0.0
  {
  }

  lemma Affine(a: real, b: real, u: real)
    ensures a + (1.0 - u) * (b - a) == b + u * (a - b)
  {
  }

  /** The same line from its other end. */
  lemma MeetBackwards(e: Edge, y: real)
    requires e.start.y != e.end.y
    ensures Meet(Edge(e.end, e.start, -1), y) == Meet(e, y)
  {
    var d := e.end.y - e.start.y;
    Shares(e.end.y - y, y - e.start.y, d);
    Affine(e.end.x, e.start.x, (y - e.start.y) / d);
  }

  /** The crossing of an oriented edge, if it is left of s. */
  function LeftOf(y: real, s: real): Edge -> int {
    (e: Edge) => if Active(e, y) && EdgeAt(y, e) < s then e.direction else 0
  }

  lemma OrientedPasses(e: Edge, y: real, s: real)
    ensures LeftOf(y, s)(Orient(e)) == Passes(y, s)(e)
  {
    if e.start.y > e.end.y {
      MeetBackwards(e, y);
    }
  }

  lemma {:induction false} OrientedWinding(es: seq<Edge>, y: real, s: real)
    ensures Sum(OrientAll(es), LeftOf(y, s)) == WindingNumber(es, y, s)
  {
    if es != [] {
      assert OrientAll(es)[1..] == OrientAll(es[1..]);
      OrientedPasses(es[0], y, s);
      OrientedWinding(es[1..], y, s);
    }
  }

  lemma {:induction false} CrossingsLeft(es: seq<Edge>, y: real, s: real)
    ensures Sum(Crossings(es, y), AffectAt(s)) == Sum(es, LeftOf(y, s))
  {
    if es != [] {
      CrossingsLeft(es[1..], y, s);
      assert es == [es[0]] + es[1..];
      CrossingsAppend([es[0]], es[1..], y);
      SumAppend(Crossings([es[0]], y), Crossings(es[1..], y), AffectAt(s));
      OneCrossing(es[0], y, s);
    }
  }

  lemma OneCrossing(e: Edge, y: real, s: real)
    ensures Sum(Crossings([e], y), AffectAt(s)) == LeftOf(y, s)(e)
  {
    assert ActiveEdges([e], y) == if Active(e, y) then [e] else [];
    assert Crossings([e], y) == if Active(e, y) then [Crossing(EdgeAt(y, e), e.direction)] else [];
  }

  /** The winding that the painter counts is the winding number of the drawing. */
  lemma WindingIsDrawn(outline: seq<Edge>, es: seq<Edge>, y: real, s: real)
    requires multiset(es) == multiset(OrientAll(outline))
    ensures Winding(Scan(es, y), s) == WindingNumber(outline, y, s)
  {
    SumPermutation(Scan(es, y), Crossings(es, y), AffectAt(s));
    CrossingsLeft(es, y, s);
    SumPermutation(es, OrientAll(outline), LeftOf(y, s));
    OrientedWinding(outline, y, s);
  }

  /** The points of an open interval at height y are all inside the drawing, or all outside. */
  ghost predicate AllInside(outline: seq<Edge>, y: real, lo: real, hi: real, inside: bool) {
    forall s :: lo < s < hi ==> (WindingNumber(outline, y, s) != 0) == inside
  }

  /** The covered length is that of the inside. */
  lemma CoveredIsInside(outline: seq<Edge>, es: seq<Edge>, y: real, lo: real, hi: real, inside: bool)
    requires multiset(es) == multiset(OrientAll(outline)) && lo <= hi && AllInside(outline, y, lo, hi, inside)
    ensures Covered(Scan(es, y), 0, lo, hi) == if inside then hi - lo else 0.0
  {
    forall s | lo < s < hi ensures (0 + Winding(Scan(es, y), s) != 0) == inside {
      WindingIsDrawn(outline, es, y, s);
    }
    CoveredIsLength(Scan(es, y), 0, lo, hi, inside);
  }

  lemma CellIsInside(outline: seq<Edge>, es: seq<Edge>, y: real, x: int, inside: bool)
    requires multiset(es) == multiset(OrientAll(outline))
    requires AllInside(outline, y, x as real, (x + 1) as real, inside)
    ensures Cell(Scan(es, y), x) == if inside then 1.0 else 0.0
  {
    CoveredIsInside(outline, es, y, x as real, (x + 1) as real, inside);
  }

  /** The sub-scanline l quarters below y runs inside, or outside, the drawing. */
  ghost predicate SampleInside(outline: seq<Edge>, y: int, l: int, x: int, inside: bool) {
    AllInside(outline, y as real + l as real / 4.0, x as real, (x + 1) as real, inside)
  }

  /** A pixel whose sub-scanlines run inside the drawing is covered fully, and one whose
      sub-scanlines run outside is not covered at all. */
  lemma PixelInside(outline: seq<Edge>, es: seq<Edge>, y: int, x: int, n: nat, inside: bool)
    requires multiset(es) == multiset(OrientAll(outline))
    requires forall l :: 0 <= l < n ==> SampleInside(outline, y, l, x, inside)
    ensures Coverage(es, y, x, n) == if inside then n as real else 0.0
  {
    var cells := seq(n, _ => if inside then 1.0 else 0.0);
    forall l | 0 <= l < n ensures cells[l] == Cell(Scan(es, SubScanline(y, l)), x) {
      assert SampleInside(outline, y, l, x, inside);
      assert SubScanline(y, l) == y as real + l as real / 4.0;
      CellIsInside(outline, es, SubScanline(y, l), x, inside);
    }
    CoverageIsTotal(es, y, x, cells);
    TotalOf(cells, inside);
  }

  lemma {:induction false} TotalOf(s: seq<real>, inside: bool)
    requires forall l :: 0 <= l < |s| ==> s[l] == if inside then 1.0 else 0.0
    ensures Total(s) == if inside then |s| as real else 0.0
  {
    if s != [] {
      TotalOf(s[..|s| - 1], inside);
    }
  }

  // ---------------------------------------------------------------- where rows are sampled

  /** Four heights, a quarter of a pixel apart. */
  function Heights(y: int): seq<real> {
    [y as real, y as real + 0.25, y as real + 0.5, y as real + 0.75]
  }

  /** The length of the inside in column x at these heights. */
  function Samples(es: seq<Edge>, y: int, x: int): (r: seq<real>)
    ensures |r| == 4
  {
    seq(4, l requires 0 <= l < 4 => Cell(Scan(es, Heights(y)[l]), x))
  }

  lemma HeightIs(y: int, l: int)
    requires 0 <= l < 4
    ensures Heights(y)[l] == SubScanline(y, l)
  {
  }

  lemma CoverageIsSamples(es: seq<Edge>, y: int, x: int)
    ensures Coverage(es, y, x, 4) == Total(Samples(es, y, x))
  {
    forall l | 0 <= l < 4 ensures Samples(es, y, x)[l] == Cell(Scan(es, SubScanline(y, l)), x) {
      HeightIs(y, l);
    }
    CoverageIsTotal(es, y, x, Samples(es, y, x));
  }

  /** What a pixel is painted: the mean of the four. */
  function Pixel(es: seq<Edge>, y: int, x: int): real {
    Total(Samples(es, y, x)) / 4.0
  }

  lemma PixelIsCoverage(es: seq<Edge>, y: int, x: int, p: real)
    requires p == Coverage(es, y, x, 4) / 4.0
    ensures p == Pixel(es, y, x)
  {
    CoverageIsSamples(es, y, x);
  }

  /** The clicks of a rectangle. */
  function Rectangle(x0: real, y0: real, x1: real, y1: real): seq<Command> {
    [AddPoint(Point(x0, y0)), AddPoint(Point(x1, y0)), AddPoint(Point(x1, y1)), AddPoint(Point(x0, y1))]
  }

  function RectangleOutline(x0: real, y0: real, x1: real, y1: real): seq<Edge> {
    [Line(Point(x0, y0), Point(x1, y0)), Line(Point(x1, y0), Point(x1, y1)),
     Line(Point(x1, y1), Point(x0, y1)), Line(Point(x0, y1), Point(x0, y0))]
  }

  lemma RectangleIsDrawn(x0: real, y0: real, x1: real, y1: real)
    ensures Outline(DrawAll(Rectangle(x0, y0, x1, y1))) == RectangleOutline(x0, y0, x1, y1)
  {
    var cs := Rectangle(x0, y0, x1, y1);
    DrawAllNext(cs, 0);
    DrawAllNext(cs, 1);
    DrawAllNext(cs, 2);
    DrawAllNext(cs, 3);
    assert cs[..4] == cs && cs[..0] == [];
  }

  lemma SumFour(es: seq<Edge>, f: Edge -> int)
    requires |es| == 4
    ensures Sum(es, f) == f(es[0]) + f(es[1]) + f(es[2]) + f(es[3])
  {
    assert es[1..][1..] == es[2..] && es[2..][1..] == es[3..] && es[3..][1..] == [];
    assert Sum(es[3..], f) == f(es[3]);
    assert Sum(es[2..], f) == f(es[2]) + f(es[3]);
    assert Sum(es[1..], f) == f(es[1]) + f(es[2]) + f(es[3]);
  }

  /** The winding number of a rectangle: it goes round clockwise, which counts -1. */
  lemma RectangleWinding(x0: real, y0: real, x1: real, y1: real, y: real, s: real)
    requires y0 < y1
    ensures WindingNumber(RectangleOutline(x0, y0, x1, y1), y, s) ==
            if y0 < y <= y1 then (if x1 < s then 1 else 0) - (if x0 < s then 1 else 0) else 0
  {
    var es := RectangleOutline(x0, y0, x1, y1);
    SumFour(es, Passes(y, s));
    Upright(x1, y0, y1, y);
    Upright(x0, y1, y0, y);
    assert Passes(y, s)(es[0]) == 0 && Passes(y, s)(es[2]) == 0;
    assert Passes(y, s)(es[1]) == if y0 < y <= y1 && x1 < s then 1 else 0;
    assert Passes(y, s)(es[3]) == if y0 < y <= y1 && x0 < s then -1 else 0;
  }

  lemma Upright(x: real, a: real, b: real, y: real)
    requires a != b
    ensures Meet(Line(Point(x, a), Point(x, b)), y) == x
  {
    var u := (y - a) / (b - a);
    assert u * (x - x) == 0.0;
  }

  function Between(y0: real, y: real, y1: real): real {
    if y0 < y <= y1 then 1.0 else 0.0
  }

  function BetweenAll(y0: real, y1: real, hs: seq<real>): (r: seq<real>)
    ensures |r| == |hs|
  {
    seq(|hs|, l requires 0 <= l < |hs| => Between(y0, hs[l], y1))
  }

  /** A quarter for each of the heights y, y + 1/4, y + 1/2 and y + 3/4 between y0 and y1. */
  function Quarters(y0: real, y1: real, y: int): real {
    (Between(y0, y as real, y1) + Between(y0, y as real + 0.25, y1) +
     Between(y0, y as real + 0.5, y1) + Between(y0, y as real + 0.75, y1)) / 4.0
  }

  lemma FourTerms(a: real, b: real, c: real, d: real)
    ensures Total([a, b, c, d]) == a + b + c + d
  {
    assert [a, b, c, d][..3] == [a, b, c] && [a, b, c][..2] == [a, b] && [a, b][..1] == [a] && [a][..0] == [];
    assert Total([a]) == a;
    assert Total([a, b]) == a + b;
    assert Total([a, b, c]) == a + b + c;
  }

  lemma QuartersAre(y0: real, y1: real, y: int)
    ensures Total(BetweenAll(y0, y1, Heights(y))) / 4.0 == Quarters(y0, y1, y)
  {
    var s := BetweenAll(y0, y1, Heights(y));
    assert s == [s[0], s[1], s[2], s[3]];
    FourTerms(s[0], s[1], s[2], s[3]);
  }

  /** A rectangle over column x: pixel (x, y) gets a quarter for each of these heights. */
  lemma RectanglePixel(x0: real, y0: real, x1: real, y1: real, es: seq<Edge>, y: int, x: int)
    requires y0 < y1 && x0 <= x as real && (x + 1) as real <= x1
    requires multiset(es) == multiset(OrientAll(RectangleOutline(x0, y0, x1, y1)))
    ensures Pixel(es, y, x) == Quarters(y0, y1, y)
  {
    RectangleSamples(x0, y0, x1, y1, es, y, x);
    QuartersAre(y0, y1, y);
  }

  lemma RectangleSamples(x0: real, y0: real, x1: real, y1: real, es: seq<Edge>, y: int, x: int)
    requires y0 < y1 && x0 <= x as real && (x + 1) as real <= x1
    requires multiset(es) == multiset(OrientAll(RectangleOutline(x0, y0, x1, y1)))
    ensures Samples(es, y, x) == BetweenAll(y0, y1, Heights(y))
  {
    forall l | 0 <= l < 4 ensures Samples(es, y, x)[l] == BetweenAll(y0, y1, Heights(y))[l] {
      RectangleCell(x0, y0, x1, y1, es, Heights(y)[l], x);
    }
  }

  lemma RectangleCell(x0: real, y0: real, x1: real, y1: real, es: seq<Edge>, h: real, x: int)
    requires y0 < y1 && x0 <= x as real && (x + 1) as real <= x1
    requires multiset(es) == multiset(OrientAll(RectangleOutline(x0, y0, x1, y1)))
    ensures Cell(Scan(es, h), x) == Between(y0, h, y1)
  {
    var outline := RectangleOutline(x0, y0, x1, y1);
    forall s | x as real < s < (x + 1) as real
      ensures (WindingNumber(outline, h, s) != 0) == (y0 < h <= y1)
    {
      RectangleWinding(x0, y0, x1, y1, h, s);
    }
    CellIsInside(outline, es, h, x, y0 < h <= y1);
  }

  // --------------------------------------------------------------- clicks on the screen

  predicate Visible(p: Point) {
    p.x >= 0.0 && p.y >= 0.0
  }

  ghost predicate ClicksVisible(cs: seq<Command>) {
    forall i :: 0 <= i < |cs| ==> Visible(cs[i].to)
  }

  ghost predicate PathVisible(p: Path) {
    p.Path? ==> OnScreen(p.done) && OnScreen(p.chain) && Visible(p.pen)
  }

  lemma OutlineVisible(p: Path)
    requires PathVisible(p)
    ensures OnScreen(Outline(p))
  {
    if p.Path? && p.chain != [] {
      assert p.chain[|p.chain| - 1] in p.chain;
    }
  }

  lemma DrawVisible(p: Path, c: Command)
    requires PathVisible(p) && Visible(c.to)
    ensures PathVisible(Draw(p, c))
  {
    OutlineVisible(p);
    if p.Path? && p.chain != [] {
      assert p.chain[|p.chain| - 1] in p.chain;
    }
  }

  lemma {:induction false} DrawAllVisible(cs: seq<Command>)
    requires ClicksVisible(cs)
    ensures PathVisible(DrawAll(cs))
  {
    if cs != [] {
      DrawAllVisible(cs[..|cs| - 1]);
      DrawVisible(DrawAll(cs[..|cs| - 1]), cs[|cs| - 1]);
    }
  }

  /** Clicks inside the window give a shape inside the window. */
  lemma ShapeOnScreen(cs: seq<Command>, es: seq<Edge>)
    requires ClicksVisible(cs) && multiset(es) == multiset(OrientAll(Outline(DrawAll(cs))))
    ensures OnScreen(es)
  {
    DrawAllVisible(cs);
    OutlineVisible(DrawAll(cs));
    var outline := Outline(DrawAll(cs));
    var oriented := OrientAll(outline);
    forall e | e in es ensures Visible(e.start) && Visible(e.end) {
      assert e in multiset(oriented);
      var i :| 0 <= i < |oriented| && oriented[i] == e;
      assert outline[i] in outline;
    }
  }

  /** Every pixel is the mean of what the drawing covers of it at four heights. */
  ghost predicate Sampled(drawn: seq<Edge>, top: int, width: nat, rows: seq<seq<real>>) {
    forall i :: 0 <= i < |rows| ==> |rows[i]| == width && SampledRow(drawn, top + i, rows[i])
  }

  ghost predicate SampledRow(drawn: seq<Edge>, y: int, row: seq<real>) {
    forall x :: 0 <= x < |row| ==> row[x] == Pixel(drawn, y, x)
  }

  lemma RowIsSampled(drawn: seq<Edge>, y: int, row: seq<real>)
    requires PaintedRow(drawn, y, row)
    ensures SampledRow(drawn, y, row)
  {
    forall x | 0 <= x < |row| ensures row[x] == Pixel(drawn, y, x) {
      PixelIsCoverage(drawn, y, x, row[x]);
    }
  }

  lemma RowsAreSampled(drawn: seq<Edge>, top: int, width: nat, rows: seq<seq<real>>)
    requires PaintedRows(drawn, top, width, rows)
    ensures Sampled(drawn, top, width, rows)
  {
    forall i | 0 <= i < |rows| ensures SampledRow(drawn, top + i, rows[i]) {
      RowIsSampled(drawn, top + i, rows[i]);
    }
  }

  /** The shape of a drawing as it is finished, whatever order the sort leaves. */
  function Drawn(cs: seq<Command>): seq<Edge> {
    OrientAll(Outline(DrawAll(cs)))
  }

  /** Draw, finish and paint: every pixel has the mean coverage of the drawing, whatever
      order the two sorts pick. */
  method PaintDrawing(cs: seq<Command>, width: nat, unset: real) returns (top: int, rows: seq<seq<real>>)
    requires cs != [] && ClicksVisible(cs)
    ensures Sampled(Drawn(cs), top, width, rows)
    ensures forall y: int, x: int :: !(top <= y < top + |rows|) ==> Pixel(Drawn(cs), y, x) == 0.0
  {
    var contour := Replay(cs);
    var shape := contour.Finish();
    ShapeOnScreen(cs, shape.edges);
    top, rows := PathPaint(shape, width, unset);
    SameRows(shape.edges, Drawn(cs), top, width, rows);
    RowsAreSampled(Drawn(cs), top, width, rows);
    forall y: int, x: int | !(top <= y < top + |rows|) ensures Pixel(Drawn(cs), y, x) == 0.0 {
      NothingOutside(shape, unset, y, x, 4);
      CoverageAnyOrder(shape.edges, Drawn(cs), y, x, 4);
      PixelIsCoverage(Drawn(cs), y, x, 0.0);
    }
  }

  /** Where a column lies under a rectangle, its pixel is painted by a quarter for each of
      the four heights of its row that lies in the rectangle. */
  ghost predicate RectangleRow(x0: real, y0: real, x1: real, y1: real, y: int, row: seq<real>) {
    forall x :: 0 <= x < |row| && x0 <= x as real && (x + 1) as real <= x1 ==> row[x] == Quarters(y0, y1, y)
  }

  ghost predicate RectanglePainted(
      x0: real, y0: real, x1: real, y1: real, top: int, width: nat, rows: seq<seq<real>>)
  {
    forall i :: 0 <= i < |rows| ==> |rows[i]| == width && RectangleRow(x0, y0, x1, y1, top + i, rows[i])
  }

  lemma RowOfRectangle(x0: real, y0: real, x1: real, y1: real, drawn: seq<Edge>, y: int, row: seq<real>)
    requires y0 < y1 && SampledRow(drawn, y, row)
    requires multiset(drawn) == multiset(OrientAll(RectangleOutline(x0, y0, x1, y1)))
    ensures RectangleRow(x0, y0, x1, y1, y, row)
  {
    forall x | 0 <= x < |row| && x0 <= x as real && (x + 1) as real <= x1 ensures row[x] == Quarters(y0, y1, y) {
      RectanglePixel(x0, y0, x1, y1, drawn, y, x);
    }
  }

  lemma RowAt(x0: real, y0: real, x1: real, y1: real, drawn: seq<Edge>, top: int, width: nat, rows: seq<seq<real>>,
              i: nat)
    requires y0 < y1 && Sampled(drawn, top, width, rows) && i < |rows|
    requires multiset(drawn) == multiset(OrientAll(RectangleOutline(x0, y0, x1, y1)))
    ensures |rows[i]| == width && RectangleRow(x0, y0, x1, y1, top + i, rows[i])
  {
    assert SampledRow(drawn, top + i, rows[i]);
    RowOfRectangle(x0, y0, x1, y1, drawn, top + i, rows[i]);
  }

  lemma RectangleRows(
      x0: real, y0: real, x1: real, y1: real, drawn: seq<Edge>, top: int, width: nat, rows: seq<seq<real>>)
    requires y0 < y1 && Sampled(drawn, top, width, rows)
    requires multiset(drawn) == multiset(OrientAll(RectangleOutline(x0, y0, x1, y1)))
    ensures RectanglePainted(x0, y0, x1, y1, top, width, rows)
  {
    forall i | 0 <= i < |rows| ensures |rows[i]| == width && RectangleRow(x0, y0, x1, y1, top + i, rows[i]) {
      RowAt(x0, y0, x1, y1, drawn, top, width, rows, i);
    }
  }

  /** A rectangle, drawn and painted. */
  method PaintRectangle(x0: real, y0: real, x1: real, y1: real, width: nat, unset: real)
    returns (top: int, rows: seq<seq<real>>)
    requires 0.0 <= x0 <= x1 && 0.0 <= y0 < y1
    ensures RectanglePainted(x0, y0, x1, y1, top, width, rows)
  {
    var cs := Rectangle(x0, y0, x1, y1);
    top, rows := PaintDrawing(cs, width, unset);
    RectangleIsDrawn(x0, y0, x1, y1);
    RectangleRows(x0, y0, x1, y1, Drawn(cs), top, width, rows);
  }

  lemma SameRow(a: seq<Edge>, b: seq<Edge>, y: int, row: seq<real>)
    requires multiset(a) == multiset(b) && PaintedRow(a, y, row)
    ensures PaintedRow(b, y, row)
  {
    forall x | 0 <= x < |row| ensures row[x] == Coverage(b, y, x, 4) / 4.0 {
      CoverageAnyOrder(a, b, y, x, 4);
    }
  }

  lemma SameRows(a: seq<Edge>, b: seq<Edge>, top: int, width: nat, rows: seq<seq<real>>)
    requires multiset(a) == multiset(b) && PaintedRows(a, top, width, rows)
    ensures PaintedRows(b, top, width, rows)
  {
    forall i | 0 <= i < |rows| ensures PaintedRow(b, top + i, rows[i]) {
      SameRow(a, b, top + i, rows[i]);
    }
  }
}
