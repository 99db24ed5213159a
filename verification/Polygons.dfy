/**
  The polygon builder and scanline rasteriser of apps/polygons.c, over exact
  real coordinates.
 */
module Polygons {
  import opened Sorting

  datatype Point = Point(x: real, y: real)

  /** `struct edge`; `direction` is set by `path_finish`. */
  datatype Edge = Edge(start: Point, end: Point, direction: int)

  // ------------------------------------------------------------------ the path

  /** What a contour stands for: the closed contours so far, the open chain after
      them, and where the pen was put down for it. */
  datatype Path = NoPath | Path(done: seq<Edge>, chain: seq<Edge>, pen: Point)

  datatype Command = AddPoint(to: Point) | MoveTo(to: Point)

  function Line(from: Point, to: Point): Edge {
    Edge(from, to, 0)
  }

  /** The point a path's next edge starts from. */
  function Tip(chain: seq<Edge>, pen: Point): Point {
    if chain == [] then pen else chain[|chain| - 1].end
  }

  /** The open chain with the edge that closes it. */
  function CloseChain(p: Path): seq<Edge>
    requires p.Path?
  {
    if p.chain == [] then [] else p.chain + [Line(Tip(p.chain, p.pen), p.pen)]
  }

  function Draw(p: Path, c: Command): Path {
    match c
    case AddPoint(to) =>
      if p.NoPath? then Path([], [], to)
      else p.(chain := p.chain + [Line(Tip(p.chain, p.pen), to)])
    case MoveTo(to) =>
      if p.NoPath? then Path([], [], to) else Path(p.done + CloseChain(p), [], to)
  }

  function DrawAll(cs: seq<Command>): Path {
    if cs == [] then NoPath else Draw(DrawAll(cs[..|cs| - 1]), cs[|cs| - 1])
  }

  lemma DrawAllNext(cs: seq<Command>, i: nat)
    requires i < |cs|
    ensures DrawAll(cs[..i + 1]) == Draw(DrawAll(cs[..i]), cs[i])
  {
    assert cs[..i + 1][..i] == cs[..i];
  }

  /** The edges that `path_finish` gives directions to. */
  function Outline(p: Path): seq<Edge> {
    if p.NoPath? then [] else p.done + CloseChain(p)
  }

  // ------------------------------------------------------ chains and closed contours

  /** Each edge starts where the one before it ends, the first at `from`. */
  predicate Linked(es: seq<Edge>, from: Point) {
    es != [] ==>
      es[0].start == from && forall i {:trigger es[i]} :: 0 < i < |es| ==> es[i].start == es[i - 1].end
  }

  predicate Loop(es: seq<Edge>) {
    es != [] && Linked(es, es[0].start) && es[|es| - 1].end == es[0].start
  }

  /** A sequence of closed contours, one after the other. */
  ghost predicate Contours(es: seq<Edge>)
    decreases |es|
  {
    es == [] || exists k :: 0 <= k < |es| && Contours(es[..k]) && Loop(es[k..])
  }

  ghost predicate PathOk(p: Path) {
    p.Path? ==> Contours(p.done) && Linked(p.chain, p.pen)
  }

  lemma ContoursAppend(es: seq<Edge>, loop: seq<Edge>)
    requires Contours(es) && Loop(loop)
    ensures Contours(es + loop)
  {
    var k := |es|;
    assert (es + loop)[..k] == es && (es + loop)[k..] == loop;
  }

  lemma OutlineIsClosed(p: Path)
    requires PathOk(p)
    ensures Contours(Outline(p))
  {
    if p.Path? {
      if p.chain == [] {
        assert Outline(p) == p.done;
      } else {
        var loop := CloseChain(p);
        assert loop[0] == p.chain[0] && loop[0].start == p.pen;
        assert Linked(loop, p.pen);
        ContoursAppend(p.done, CloseChain(p));
      }
    }
  }

  /** Whatever is drawn, the builder holds closed contours and one open chain. */
  lemma {:induction false} DrawKeepsPathOk(p: Path, c: Command)
    requires PathOk(p)
    ensures PathOk(Draw(p, c))
  {
    match c
    case MoveTo(to) => OutlineIsClosed(p);
    case AddPoint(to) =>
      if p.Path? {
        var chain' := p.chain + [Line(Tip(p.chain, p.pen), to)];
        assert forall i :: 0 <= i < |p.chain| ==> chain'[i] == p.chain[i];
        assert Linked(chain', p.pen);
      }
  }

  lemma {:induction false} DrawAllOk(cs: seq<Command>)
    ensures PathOk(DrawAll(cs))
  {
    if cs != [] {
      DrawAllOk(cs[..|cs| - 1]);
      DrawKeepsPathOk(DrawAll(cs[..|cs| - 1]), cs[|cs| - 1]);
    }
  }

  // --------------------------------------------------------------- the balance law

  function Above(p: Point, y: real): int {
    if p.y < y then 1 else 0
  }

  /** How often the undirected edges cross the horizontal at y downwards, less upwards. */
  function Net(es: seq<Edge>, y: real): int {
    if es == [] then 0
    else Above(es[0].start, y) - Above(es[0].end, y) + Net(es[1..], y)
  }

  lemma {:induction false} NetAppend(a: seq<Edge>, b: seq<Edge>, y: real)
    ensures Net(a + b, y) == Net(a, y) + Net(b, y)
  {
    if a == [] {
      assert a + b == b;
    } else {
      assert (a + b)[1..] == a[1..] + b;
      NetAppend(a[1..], b, y);
    }
  }

  /** Along a chain the crossings telescope. */
  lemma {:induction false} NetLinked(es: seq<Edge>, from: Point, y: real)
    requires Linked(es, from)
    ensures Net(es, y) == if es == [] then 0 else Above(from, y) - Above(es[|es| - 1].end, y)
  {
    if es != [] {
      var rest := es[1..];
      assert es[0].start == from;
      assert forall i :: 0 <= i < |rest| ==> rest[i] == es[i + 1];
      NetLinked(rest, es[0].end, y);
    }
  }

  lemma NetLoop(es: seq<Edge>, y: real)
    requires Loop(es)
    ensures Net(es, y) == 0
  {
    NetLinked(es, es[0].start, y);
  }

  lemma {:induction false} NetContours(es: seq<Edge>, y: real)
    requires Contours(es)
    ensures Net(es, y) == 0
    decreases |es|
  {
    if es != [] {
      var k :| 0 <= k < |es| && Contours(es[..k]) && Loop(es[k..]);
      var before, loop := es[..k], es[k..];
      NetContours(before, y);
      NetLoop(loop, y);
      NetAppend(before, loop, y);
      assert es == before + loop;
    }
  }

  // -------------------------------------------------------------- finished shapes

  /** An edge with the lower y first, and the direction it was drawn in. */
  function Orient(e: Edge): Edge {
    if e.start.y < e.end.y then Edge(e.start, e.end, 1) else Edge(e.end, e.start, -1)
  }

  function OrientAll(es: seq<Edge>): (r: seq<Edge>)
    ensures |r| == |es| && forall i :: 0 <= i < |es| ==> r[i] == Orient(es[i])
  {
    seq(|es|, i requires 0 <= i < |es| => Orient(es[i]))
  }

  /** The edge crosses the horizontal at y. */
  predicate Active(e: Edge, y: real) {
    e.start.y < y <= e.end.y
  }

  function Effect(y: real): Edge -> int {
    (e: Edge) => if Active(e, y) then e.direction else 0
  }

  /** A list of oriented edges in scanline order. */
  ghost predicate Scannable(es: seq<Edge>) {
    IsSorted(es, (e: Edge) => e.start.y) && forall e :: e in es ==> e.start.y <= e.end.y
  }

  /** Every horizontal is crossed as often downwards as upwards. */
  ghost predicate Balanced(es: seq<Edge>) {
    forall y :: Sum(es, Effect(y)) == 0
  }

  lemma {:induction false} OrientedEffect(es: seq<Edge>, y: real)
    ensures Sum(OrientAll(es), Effect(y)) == Net(es, y)
  {
    if es != [] {
      assert OrientAll(es)[1..] == OrientAll(es[1..]);
      OrientedEffect(es[1..], y);
    }
  }

  /** Directions balance for every drawing, whatever order the sort leaves. */
  lemma FinishedIsBalanced(p: Path, es: seq<Edge>)
    requires PathOk(p) && multiset(es) == multiset(OrientAll(Outline(p)))
    ensures Balanced(es)
  {
    forall y ensures Sum(es, Effect(y)) == 0 {
      SumPermutation(es, OrientAll(Outline(p)), Effect(y));
      OrientedEffect(Outline(p), y);
      OutlineIsClosed(p);
      NetContours(Outline(p), y);
    }
  }

  /** `struct shape`. */
  datatype Shape = Shape(edges: seq<Edge>, lastY: int)

  /** Conversion of a float to int drops the fraction. */
  function Trunc(r: real): int {
    if r < 0.0 then -((-r).Floor) else r.Floor
  }

  /** The loop that gives every edge its direction (apps/polygons.c:117-126). */
  method OrientInPlace(tmp: array<Edge>)
    modifies tmp
    ensures tmp[..] == OrientAll(old(tmp[..]))
  {
    var i := 0;
    while i < tmp.Length
      invariant 0 <= i <= tmp.Length
      invariant forall k :: 0 <= k < i ==> tmp[k] == Orient(old(tmp[k]))
      invariant forall k :: i <= k < tmp.Length ==> tmp[k] == old(tmp[k])
    {
      if tmp[i].start.y < tmp[i].end.y {
        tmp[i] := tmp[i].(direction := 1);
      } else {
        tmp[i] := Edge(tmp[i].end, tmp[i].start, -1);
      }
      i := i + 1;
    }
  }

  /** The first scanline below every edge (apps/polygons.c:130-133). */
  method LastScanline(es: seq<Edge>) returns (lastY: int)
    ensures lastY >= 0 && forall e :: e in es ==> e.end.y < lastY as real
  {
    lastY := 0;
    var i := 0;
    while i < |es|
      invariant 0 <= i <= |es| && lastY >= 0
      invariant forall k :: 0 <= k < i ==> es[k].end.y < lastY as real
    {
      if es[i].end.y + 1.0 > lastY as real {
        lastY := Trunc(es[i].end.y + 1.0);
      }
      i := i + 1;
    }
  }

  /** `struct contour`, with its growing edge array; `started` stands for shape != NULL,
      `pending` for flags & 1, and edges.Length for nextAlloc. */
  class Contour {
    var started: bool
    var edges: array<Edge>
    var edgeCount: nat
    var pending: bool
    var lastStart: nat

    ghost predicate Valid()
      reads this, edges
    {
      started ==>
        edgeCount < edges.Length && (pending ==> edgeCount + 1 < edges.Length && lastStart == edgeCount) &&
        (!pending ==> lastStart < edgeCount)
    }

    /** The path that the fields represent. */
    ghost function View(): Path
      requires Valid()
      reads this, edges
    {
      if !started then NoPath
      else
        var all := edges[..edgeCount];
        Path(all[..lastStart], all[lastStart..], if pending then edges[edgeCount].start else all[lastStart].start)
    }

    constructor ()
      ensures Valid() && View() == NoPath && fresh(edges)
    {
      started := false;
      edges := new Edge[0];
      edgeCount := 0;
      pending := false;
      lastStart := 0;
    }

    /** `realloc` to twice the size. */
    method Grow()
      requires started && edgeCount < edges.Length
      modifies this`edges
      ensures fresh(edges) && edges.Length == 2 * old(edges.Length)
      ensures edges[..edgeCount] == old(edges[..edgeCount])
    {
      var bigger := new Edge[2 * edges.Length];
      var i := 0;
      while i < edgeCount
        invariant 0 <= i <= edgeCount < edges.Length < bigger.Length
        invariant edges == old(edges)
        invariant bigger[..i] == edges[..i]
      {
        bigger[i] := edges[i];
        i := i + 1;
      }
      edges := bigger;
    }

    /** Store a complete edge after the others. */
    method Append(e: Edge)
      requires Valid() && started && edgeCount + 1 < edges.Length
      modifies this`edgeCount, this`pending, edges
      ensures Valid() && edgeCount == old(edgeCount) + 1 && !pending
      ensures edges[..edgeCount] == old(edges[..edgeCount]) + [e]
    {
      edges[edgeCount] := e;
      edgeCount := edgeCount + 1;
      pending := false;
    }

    /** `add_point`. */
    method AddPoint(to: Point)
      requires Valid()
      modifies this, edges
      ensures Valid() && started && (edges == old(edges) || fresh(edges))
      ensures View() == Draw(old(View()), Command.AddPoint(to))
      ensures old(started) ==> !pending
      decreases if started then 0 else 2
    {
      if !started {
        MoveTo(to);
        return;
      }
      ghost var all := edges[..edgeCount];
      if pending {
        Append(Edge(edges[edgeCount].start, to, 0));
      } else {
        if edgeCount + 1 == edges.Length {
          Grow();
        }
        Append(Edge(edges[edgeCount - 1].end, to, 0));
      }
      AppendSplit(all, edges[edgeCount - 1], lastStart);
    }

    /** The copy in `path_finish`, closing edge included (apps/polygons.c:104-115). */
    method CopyOutline() returns (tmp: array<Edge>)
      requires Valid() && started
      ensures fresh(tmp) && tmp[..] == Outline(View())
    {
      OutlineOfFields(edges[..edgeCount], lastStart, View().pen);
      var size := if pending then edgeCount else edgeCount + 1;
      tmp := new Edge[size];
      var i := 0;
      while i < edgeCount
        invariant 0 <= i <= edgeCount <= tmp.Length
        invariant tmp[..i] == edges[..i]
      {
        tmp[i] := edges[i];
        i := i + 1;
      }
      if !pending {
        tmp[edgeCount] := Line(edges[edgeCount - 1].end, edges[lastStart].start);
      }
      assert tmp[..edgeCount] == edges[..edgeCount];
    }

    /** `path_finish`. */
    method Finish() returns (shape: Shape)
      requires Valid() && started
      ensures Scannable(shape.edges)
      ensures multiset(shape.edges) == multiset(OrientAll(Outline(View())))
      ensures forall e :: e in shape.edges ==> e.end.y < shape.lastY as real
      ensures PathOk(View()) ==> Balanced(shape.edges)
    {
      var tmp := CopyOutline();
      ghost var outline := tmp[..];
      OrientInPlace(tmp);
      var sorted := SortBy(tmp[..], (e: Edge) => e.start.y);
      forall e | e in sorted ensures e.start.y <= e.end.y {
        assert e in multiset(tmp[..]);
        var i :| 0 <= i < tmp.Length && e == tmp[i];
        assert tmp[..][i] == Orient(outline[i]);
      }
      var lastY := LastScanline(sorted);
      shape := Shape(sorted, lastY);
      if PathOk(View()) {
        FinishedIsBalanced(View(), sorted);
      }
    }

    /** `move_to`. */
    method MoveTo(to: Point)
      requires Valid()
      modifies this, edges
      ensures Valid() && started && pending && (edges == old(edges) || fresh(edges))
      ensures View() == Draw(old(View()), Command.MoveTo(to))
      decreases 1
    {
      if !started {
        edges := new Edge[2];
        started, edgeCount, pending, lastStart := true, 0, false, 0;
      } else if !pending && edgeCount != 0 {
        AddPoint(edges[lastStart].start);
      }
      PenDown(to);
    }

    /** The end of `move_to`: the pen goes down at a new place. */
    method PenDown(to: Point)
      requires started && edgeCount < edges.Length && lastStart <= edgeCount
      modifies this, edges
      ensures Valid() && started && pending && (edges == old(edges) || fresh(edges))
      ensures View() == Path(old(edges[..edgeCount]), [], to)
    {
      ghost var all := edges[..edgeCount];
      if edgeCount + 1 == edges.Length {
        Grow();
      }
      edges[edgeCount] := Edge(to, to, 0);
      lastStart := edgeCount;
      pending := true;
      assert edges[..edgeCount] == all;
    }
  }

  /** The edges that `path_finish` copies: all of them, and the closing edge of an open chain. */
  lemma OutlineOfFields(all: seq<Edge>, k: nat, pen: Point)
    requires k <= |all| && (k < |all| ==> pen == all[k].start)
    ensures Outline(Path(all[..k], all[k..], pen)) ==
            all + if k == |all| then [] else [Line(all[|all| - 1].end, pen)]
  {
    assert all == all[..k] + all[k..];
  }

  lemma AppendSplit(all: seq<Edge>, e: Edge, k: nat)
    requires k <= |all|
    ensures (all + [e])[..k] == all[..k] && (all + [e])[k..] == all[k..] + [e]
  {
  }

  /** Any sequence of clicks leaves the builder valid, with the path those clicks draw. */
  method Replay(cs: seq<Command>) returns (c: Contour)
    ensures c.Valid() && c.View() == DrawAll(cs) && PathOk(c.View())
  {
    c := new Contour();
    var i := 0;
    while i < |cs|
      invariant 0 <= i <= |cs| && fresh(c) && fresh(c.edges)
      invariant c.Valid() && c.View() == DrawAll(cs[..i])
    {
      DrawAllNext(cs, i);
      match cs[i] {
        case AddPoint(to) => c.AddPoint(to);
        case MoveTo(to) => c.MoveTo(to);
      }
      i := i + 1;
    }
    assert cs[..i] == cs;
    DrawAllOk(cs);
  }
}
