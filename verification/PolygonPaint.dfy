/**
  Painting a finished shape (apps/polygons.c:88-101, 138-196) up to the coverage
  of each pixel; colours and blending are not part of this model.
 */
module PolygonPaint {
  import opened Polygons
  import opened Sorting

  // ------------------------------------------------------------ edges of a scanline

  /** The edges that cross the horizontal at y, in order. */
  function ActiveEdges(es: seq<Edge>, y: real): (r: seq<Edge>)
    ensures forall e :: e in r ==> e in es && Active(e, y)
  {
    if es == [] then []
    else ActiveEdges(es[..|es| - 1], y) + if Active(es[|es| - 1], y) then [es[|es| - 1]] else []
  }

  /** Nothing is active past an edge that starts at or below y. */
  lemma {:induction false} ActivePrefix(es: seq<Edge>, y: real, i: nat)
    requires i <= |es| && forall k :: i <= k < |es| ==> y <= es[k].start.y
    ensures ActiveEdges(es, y) == ActiveEdges(es[..i], y)
    decreases |es|
  {
    if i == |es| {
      assert es[..i] == es;
    } else {
      ActivePrefix(es[..|es| - 1], y, i);
      assert es[..|es| - 1][..i] == es[..i];
    }
  }

  /** `prune_edges`: the early break loses nothing. */
  method PruneEdges(edges: seq<Edge>, y: real, into: array<Edge>) returns (n: nat)
    requires Scannable(edges) && into.Length == |edges|
    modifies into
    ensures n <= |edges| && into[..n] == ActiveEdges(edges, y)
  {
    n := 0;
    var i := 0;
    while i < |edges|
      invariant 0 <= n <= i <= |edges|
      invariant into[..n] == ActiveEdges(edges[..i], y)
    {
      assert edges[..i + 1][..i] == edges[..i];
      if y > edges[i].start.y && y > edges[i].end.y {
        i := i + 1;
        continue;
      }
      if y <= edges[i].start.y && y <= edges[i].end.y {
        ActivePrefix(edges, y, i);
        return;
      }
      assert edges[i] in edges;
      into[n] := edges[i];
      n := n + 1;
      i := i + 1;
    }
    assert edges[..i] == edges;
  }

  // ------------------------------------------------------------------- crossings

  /** `struct intersection`. */
  datatype Crossing = Crossing(x: real, affect: int)

  /** `edge_at`. */
  function EdgeAt(y: real, e: Edge): real
    requires Active(e, y)
  {
    var u := (y - e.start.y) / (e.end.y - e.start.y);
    e.start.x + u * (e.end.x - e.start.x)
  }

  /** A crossing lies between the ends of its edge. */
  lemma EdgeAtBetween(y: real, e: Edge, lo: real, hi: real)
    requires Active(e, y) && lo <= e.start.x <= hi && lo <= e.end.x <= hi
    ensures lo <= EdgeAt(y, e) <= hi
  {
    var d := e.end.y - e.start.y;
    var u := (y - e.start.y) / d;
    assert u * d == y - e.start.y;
    assert 0.0 <= u <= 1.0 by {
      if u < 0.0 { Product(u, d); }
      if u > 1.0 { Product(1.0 - u, d); }
    }
    Blend(e.start.x - lo, e.end.x - lo, u);
    assert EdgeAt(y, e) - lo == (1.0 - u) * (e.start.x - lo) + u * (e.end.x - lo);
    Blend(hi - e.start.x, hi - e.end.x, u);
    assert hi - EdgeAt(y, e) == (1.0 - u) * (hi - e.start.x) + u * (hi - e.end.x);
  }

  function Max(a: real, b: real): real {
    if a < b then b else a
  }

  lemma Product(a: real, b: real)
    requires a < 0.0 < b
    ensures a * b < 0.0
  {
  }

  lemma Blend(a: real, b: real, u: real)
    requires 0.0 <= a && 0.0 <= b && 0.0 <= u <= 1.0
    ensures 0.0 <= (1.0 - u) * a + u * b
  {
    assert 0.0 <= u * b;
    assert 0.0 <= (1.0 - u) * a;
  }

  function CrossingsAt(es: seq<Edge>, y: real): (r: seq<Crossing>)
    requires forall i :: 0 <= i < |es| ==> Active(es[i], y)
    ensures |r| == |es| && forall i :: 0 <= i < |es| ==> r[i] == Crossing(EdgeAt(y, es[i]), es[i].direction)
  {
    seq(|es|, i requires 0 <= i < |es| => Crossing(EdgeAt(y, es[i]), es[i].direction))
  }

  /** The crossings of a sub-scanline in order. */
  function Scan(es: seq<Edge>, y: real): (r: seq<Crossing>)
    ensures IsSorted(r, (c: Crossing) => c.x)
  {
    SortBy(CrossingsAt(ActiveEdges(es, y), y), (c: Crossing) => c.x)
  }

  function Affect(): Crossing -> int {
    (c: Crossing) => c.affect
  }

  lemma {:induction false} CrossingsBalance(es: seq<Edge>, y: real)
    ensures Sum(CrossingsAt(ActiveEdges(es, y), y), Affect()) == Sum(es, Effect(y))
  {
    if es != [] {
      var init, last := es[..|es| - 1], es[|es| - 1];
      CrossingsBalance(init, y);
      assert es == init + [last];
      SumAppend(init, [last], Effect(y));
      if Active(last, y) {
        CrossingsNext(ActiveEdges(init, y), last, y);
      } else {
        assert ActiveEdges(es, y) == ActiveEdges(init, y);
      }
    }
  }

  lemma CrossingsNext(es: seq<Edge>, e: Edge, y: real)
    requires Active(e, y) && forall i :: 0 <= i < |es| ==> Active(es[i], y)
    ensures Sum(CrossingsAt(es + [e], y), Affect()) == Sum(CrossingsAt(es, y), Affect()) + e.direction
  {
    var cs := [Crossing(EdgeAt(y, e), e.direction)];
    assert CrossingsAt(es + [e], y) == CrossingsAt(es, y) + cs;
    SumAppend(CrossingsAt(es, y), cs, Affect());
  }

  /** On a balanced shape the winding ends where it began. */
  lemma ScanBalance(es: seq<Edge>, y: real)
    requires Balanced(es)
    ensures Sum(Scan(es, y), Affect()) == 0
  {
    SumPermutation(Scan(es, y), CrossingsAt(ActiveEdges(es, y), y), Affect());
    CrossingsBalance(es, y);
  }

  // -------------------------------------------------------------------- coverage

  function AffectAt(s: real): Crossing -> int {
    (c: Crossing) => if c.x < s then c.affect else 0
  }

  /** The winding number at s: the crossings to its left. */
  function Winding(cs: seq<Crossing>, s: real): int {
    Sum(cs, AffectAt(s))
  }

  function Clamp(v: real, lo: real, hi: real): real
  {
    if v < lo then lo else if v > hi then hi else v
  }

  /** The length of the part of [lo, hi) where the winding is not zero, for ordered
      crossings and a winding of `wind` before the first. */
  function Covered(cs: seq<Crossing>, wind: int, lo: real, hi: real): real
    requires lo <= hi
  {
    if cs == [] then if wind != 0 then hi - lo else 0.0
    else
      var cut := Clamp(cs[0].x, lo, hi);
      (if wind != 0 then cut - lo else 0.0) + Covered(cs[1..], wind + cs[0].affect, cut, hi)
  }

  /** Covered is additive over adjacent intervals, ... */
  lemma {:induction false} CoveredSplits(cs: seq<Crossing>, wind: int, lo: real, mid: real, hi: real)
    requires IsSorted(cs, (c: Crossing) => c.x) && lo <= mid <= hi
    ensures Covered(cs, wind, lo, hi) == Covered(cs, wind, lo, mid) + Covered(cs, wind, mid, hi)
  {
    if cs != [] {
      var rest, w := cs[1..], wind + cs[0].affect;
      if cs[0].x <= mid {
        var cut := Clamp(cs[0].x, lo, mid);
        CoveredSplits(rest, w, cut, mid, hi);
      } else {
        CoveredBefore(rest, w, mid, mid);
      }
    }
  }

  lemma {:induction false} CoveredBefore(cs: seq<Crossing>, wind: int, lo: real, hi: real)
    requires lo <= hi && forall c :: c in cs ==> hi <= c.x
    ensures Covered(cs, wind, lo, hi) == if wind != 0 then hi - lo else 0.0
  {
    if cs != [] {
      assert cs[0] in cs;
      CoveredBefore(cs[1..], wind + cs[0].affect, hi, hi);
    }
  }

  lemma {:induction false} CoveredBounds(cs: seq<Crossing>, wind: int, lo: real, hi: real)
    requires lo <= hi
    ensures 0.0 <= Covered(cs, wind, lo, hi) <= hi - lo
  {
    if cs != [] {
      CoveredBounds(cs[1..], wind + cs[0].affect, Clamp(cs[0].x, lo, hi), hi);
    }
  }

  lemma {:induction false} WindingBefore(cs: seq<Crossing>, s: real)
    requires forall c :: c in cs ==> s <= c.x
    ensures Winding(cs, s) == 0
  {
    if cs != [] {
      assert cs[0] in cs;
      WindingBefore(cs[1..], s);
    }
  }

  /** ... is the whole length where the winding is never zero, and nothing where it
      always is: it is the length of the inside. */
  lemma {:induction false} CoveredIsLength(cs: seq<Crossing>, wind: int, lo: real, hi: real, inside: bool)
    requires IsSorted(cs, (c: Crossing) => c.x) && lo <= hi
    requires forall s :: lo < s < hi ==> (wind + Winding(cs, s) != 0) == inside
    ensures Covered(cs, wind, lo, hi) == if inside then hi - lo else 0.0
  {
    if cs == [] {
      if lo < hi {
        assert Winding(cs, (lo + hi) / 2.0) == 0;
      }
    } else {
      var cut := Clamp(cs[0].x, lo, hi);
      var rest := cs[1..];
      if lo < cut {
        var s := (lo + cut) / 2.0;
        assert forall c :: c in cs ==> exists i :: 0 <= i < |cs| && c == cs[i];
        WindingBefore(cs, s);
      }
      forall s | cut < s < hi
        ensures (wind + cs[0].affect + Winding(rest, s) != 0) == inside
      {
        assert Winding(cs, s) == cs[0].affect + Winding(rest, s);
      }
      CoveredIsLength(rest, wind + cs[0].affect, cut, hi, inside);
    }
  }

  // --------------------------------------------------------------- one sub-scanline

  /** The part of pixel column x that a sub-scanline covers. */
  function Cell(cs: seq<Crossing>, x: int): real {
    Covered(cs, 0, x as real, (x + 1) as real)
  }

  /** Crossings to the left of the interval only add to the winding. */
  lemma {:induction false} CoveredSkips(cs: seq<Crossing>, wind: int, lo: real, hi: real, j: nat)
    requires lo <= hi && j <= |cs| && forall i :: 0 <= i < j ==> cs[i].x <= lo
    ensures Covered(cs, wind, lo, hi) == Covered(cs[j..], wind + Sum(cs[..j], Affect()), lo, hi)
    decreases j
  {
    if j == 0 {
      assert cs[j..] == cs;
    } else {
      assert cs[1..][j - 1..] == cs[j..];
      assert cs[..j][1..] == cs[1..][..j - 1];
      CoveredSkips(cs[1..], wind + cs[0].affect, lo, hi, j - 1);
    }
  }

  lemma SumNext(cs: seq<Crossing>, j: nat)
    requires j < |cs|
    ensures Sum(cs[..j + 1], Affect()) == Sum(cs[..j], Affect()) + cs[j].affect
  {
    assert cs[..j + 1] == cs[..j] + [cs[j]];
    SumAppend(cs[..j], [cs[j]], Affect());
  }

  /** Crossings at one place first add up, in any order. */
  lemma CoveredTies(b: seq<Crossing>, k: nat, wind: int, cut: real, hi: real)
    requires k < |b| && cut <= hi && forall i :: 0 <= i <= k ==> b[i].x <= cut
    ensures Covered(b[1..], wind + b[0].affect, cut, hi) == Covered(TakeOut(b, k), wind + b[k].affect, cut, hi)
  {
    var rest := TakeOut(b, k);
    CoveredSkips(b[1..], wind + b[0].affect, cut, hi, k);
    CoveredSkips(rest, wind + b[k].affect, cut, hi, k);
    assert b[1..][k..] == b[k + 1..] == rest[k..];
    assert rest[..k] == b[..k];
    assert b[..k + 1] == [b[0]] + b[1..][..k];
    SumAppend([b[0]], b[1..][..k], Affect());
    SumNext(b, k);
  }

  /** Which of the sorted orders of the crossings `qsort` picks does not matter. */
  lemma {:induction false} CoveredAnyOrder(a: seq<Crossing>, b: seq<Crossing>, wind: int, lo: real, hi: real)
    requires multiset(a) == multiset(b) && IsSorted(a, (c: Crossing) => c.x) && IsSorted(b, (c: Crossing) => c.x)
    requires lo <= hi
    ensures Covered(a, wind, lo, hi) == Covered(b, wind, lo, hi)
    decreases |a|
  {
    if a == [] {
      assert |multiset(b)| == 0;
    } else if hi <= a[0].x {
      FirstIsLeast(a, b);
      CoveredBefore(a, wind, lo, hi);
      CoveredBefore(b, wind, lo, hi);
    } else {
      var k := Position(b, a[0]);
      FirstIsLeast(a, b);
      WithoutOne(a, b, k);
      var cut := Clamp(a[0].x, lo, hi);
      CoveredAnyOrder(a[1..], TakeOut(b, k), wind + a[0].affect, cut, hi);
      CoveredTies(b, k, wind, cut, hi);
    }
  }

  lemma FirstIsLeast(a: seq<Crossing>, b: seq<Crossing>)
    requires a != [] && multiset(a) == multiset(b) && IsSorted(a, (c: Crossing) => c.x)
    ensures (forall c :: c in a ==> a[0].x <= c.x) && forall i :: 0 <= i < |b| ==> a[0].x <= b[i].x
  {
    forall i | 0 <= i < |b| ensures a[0].x <= b[i].x {
      assert b[i] in multiset(a);
    }
  }

  lemma WithoutOne(a: seq<Crossing>, b: seq<Crossing>, k: nat)
    requires multiset(a) == multiset(b) && IsSorted(a, (c: Crossing) => c.x) && IsSorted(b, (c: Crossing) => c.x)
    requires a != [] && k < |b| && b[k] == a[0] && forall i :: 0 <= i < |b| ==> a[0].x <= b[i].x
    ensures multiset(a[1..]) == multiset(TakeOut(b, k))
    ensures IsSorted(a[1..], (c: Crossing) => c.x) && IsSorted(TakeOut(b, k), (c: Crossing) => c.x)
    ensures forall i :: 0 <= i <= k ==> b[i].x == a[0].x
  {
    TakeOutBoth(a, b, k);
    TakeOutSorted(a, 0);
    TakeOutSorted(b, k);
    assert TakeOut(a, 0) == a[1..];
  }

  lemma TakeOutBoth(a: seq<Crossing>, b: seq<Crossing>, k: nat)
    requires a != [] && k < |b| && b[k] == a[0] && multiset(a) == multiset(b)
    ensures multiset(a[1..]) == multiset(TakeOut(b, k))
  {
    TakeOutMultiset(a, 0);
    TakeOutMultiset(b, k);
    assert TakeOut(a, 0) == a[1..];
  }

  lemma TakeOutSorted(s: seq<Crossing>, k: nat)
    requires k < |s| && IsSorted(s, (c: Crossing) => c.x)
    ensures IsSorted(TakeOut(s, k), (c: Crossing) => c.x)
  {
  }

  lemma Position(b: seq<Crossing>, c: Crossing) returns (k: nat)
    requires c in multiset(b)
    ensures k < |b| && b[k] == c
  {
    k :| 0 <= k < |b| && b[k] == c;
  }

  /** The crossings left of a pixel column (apps/polygons.c:170-173). */
  method SkipCrossings(cs: seq<Crossing>, left: real, j0: nat, wind0: int) returns (j: nat, wind: int)
    requires j0 <= |cs| && wind0 == Sum(cs[..j0], Affect())
    requires forall i :: 0 <= i < j0 ==> cs[i].x < left
    ensures j0 <= j <= |cs| && wind == Sum(cs[..j], Affect())
    ensures (forall i :: 0 <= i < j ==> cs[i].x < left) && (j < |cs| ==> left <= cs[j].x)
  {
    j, wind := j0, wind0;
    while j < |cs| && left > cs[j].x
      invariant j0 <= j <= |cs| && wind == Sum(cs[..j], Affect())
      invariant forall i :: 0 <= i < j ==> cs[i].x < left
    {
      SumNext(cs, j);
      wind := wind + cs[j].affect;
      j := j + 1;
    }
  }

  lemma CoveredStep(cs: seq<Crossing>, j: nat, wind: int, last: real, right: real)
    requires j < |cs| && last <= cs[j].x <= right
    ensures Covered(cs[j..], wind, last, right) ==
            (if wind != 0 then cs[j].x - last else 0.0) + Covered(cs[j + 1..], wind + cs[j].affect, cs[j].x, right)
  {
    assert cs[j..][1..] == cs[j + 1..];
  }

  lemma CoveredEnd(cs: seq<Crossing>, j: nat, wind: int, last: real, right: real)
    requires IsSorted(cs, (c: Crossing) => c.x) && j <= |cs| && last <= right && (j < |cs| ==> right <= cs[j].x)
    ensures Covered(cs[j..], wind, last, right) == if wind != 0 then right - last else 0.0
  {
    forall c | c in cs[j..] ensures right <= c.x {
      var i :| 0 <= i < |cs[j..]| && c == cs[j..][i];
      assert c == cs[j + i];
    }
    CoveredBefore(cs[j..], wind, last, right);
  }

  /** The crossings inside a pixel column (apps/polygons.c:174-185). */
  method CoverCell(cs: seq<Crossing>, left: real, right: real, j0: nat, wind0: int)
    returns (j: nat, wind: int, added: real)
    requires IsSorted(cs, (c: Crossing) => c.x) && left <= right
    requires j0 <= |cs| && wind0 == Sum(cs[..j0], Affect()) && (j0 < |cs| ==> left <= cs[j0].x)
    requires forall i :: 0 <= i < j0 ==> cs[i].x < right
    ensures j0 <= j <= |cs| && wind == Sum(cs[..j], Affect())
    ensures forall i :: 0 <= i < j ==> cs[i].x < right
    ensures added == Covered(cs[j0..], wind0, left, right)
  {
    j, wind, added := j0, wind0, 0.0;
    var last := left;
    ghost var whole := Covered(cs[j0..], wind0, left, right);
    while j < |cs| && right > cs[j].x
      invariant j0 <= j <= |cs| && wind == Sum(cs[..j], Affect())
      invariant forall i :: 0 <= i < j ==> cs[i].x < right
      invariant last <= right && (j < |cs| ==> last <= cs[j].x)
      invariant whole == added + Covered(cs[j..], wind, last, right)
    {
      SumNext(cs, j);
      CoveredStep(cs, j, wind, last, right);
      if wind != 0 {
        added := added + (cs[j].x - last);
      }
      last := cs[j].x;
      wind := wind + cs[j].affect;
      j := j + 1;
    }
    CoveredEnd(cs, j, wind, last, right);
    if wind != 0 {
      added := added + (right - last);
    }
  }

  /** One pixel column (apps/polygons.c:170-185). */
  method PaintCell(cs: seq<Crossing>, x: int, j0: nat, wind0: int) returns (j: nat, wind: int, added: real)
    requires IsSorted(cs, (c: Crossing) => c.x) && j0 <= |cs| && wind0 == Sum(cs[..j0], Affect())
    requires forall i :: 0 <= i < j0 ==> cs[i].x < x as real
    ensures j0 <= j <= |cs| && wind == Sum(cs[..j], Affect())
    ensures forall i :: 0 <= i < j ==> cs[i].x < (x + 1) as real
    ensures added == Cell(cs, x)
  {
    j, wind := SkipCrossings(cs, x as real, j0, wind0);
    CoveredSkips(cs, 0, x as real, (x + 1) as real, j);
    j, wind, added := CoverCell(cs, x as real, (x + 1) as real, j, wind);
  }

  /** Past the last crossing of a balanced row nothing is covered. */
  lemma NothingAfterLast(cs: seq<Crossing>, x: int)
    requires Sum(cs, Affect()) == 0 && forall i :: 0 <= i < |cs| ==> cs[i].x <= x as real
    ensures Cell(cs, x) == 0.0
  {
    CoveredSkips(cs, 0, x as real, (x + 1) as real, |cs|);
    assert cs[..|cs|] == cs;
  }

  /** The column loop (apps/polygons.c:167-186): it may stop at the last crossing. */
  method PaintRow(cs: seq<Crossing>, subsamples: array<real>)
    requires IsSorted(cs, (c: Crossing) => c.x) && Sum(cs, Affect()) == 0
    modifies subsamples
    ensures forall x :: 0 <= x < subsamples.Length ==> subsamples[x] == old(subsamples[x]) + Cell(cs, x)
  {
    var wind, j, x := 0, 0, 0;
    while x < subsamples.Length && j < |cs|
      invariant 0 <= x <= subsamples.Length && j <= |cs| && wind == Sum(cs[..j], Affect())
      invariant forall i :: 0 <= i < j ==> cs[i].x < x as real
      invariant forall k :: 0 <= k < x ==> subsamples[k] == old(subsamples[k]) + Cell(cs, k)
      invariant forall k :: x <= k < subsamples.Length ==> subsamples[k] == old(subsamples[k])
      decreases subsamples.Length - x
    {
      var added;
      j, wind, added := PaintCell(cs, x, j, wind);
      subsamples[x] := subsamples[x] + added;
      x := x + 1;
    }
    forall k | x <= k < subsamples.Length ensures Cell(cs, k) == 0.0 {
      NothingAfterLast(cs, k);
    }
  }

  // -------------------------------------------------------------- the whole shape

  /** What the sorted crossings of a sub-scanline can colour lies between these columns. */
  ghost predicate Spans(cs: seq<Crossing>, startX: int, maxX: int) {
    forall x {:trigger Cell(cs, x)} :: x >= 0 && Cell(cs, x) != 0.0 ==> startX <= x < maxX
  }

  lemma SpanOfCrossings(cs: seq<Crossing>, startX: int, maxX: int)
    requires IsSorted(cs, (c: Crossing) => c.x) && Sum(cs, Affect()) == 0
    requires cs != [] ==> startX <= cs[0].x.Floor && cs[|cs| - 1].x.Floor < maxX
    ensures Spans(cs, startX, maxX)
  {
    forall x {:trigger Cell(cs, x)} | x >= 0 && !(startX <= x < maxX) ensures Cell(cs, x) == 0.0 {
      if cs != [] {
        if x < startX {
          forall c | c in cs ensures (x + 1) as real <= c.x {
            var i :| 0 <= i < |cs| && cs[i] == c;
          }
          CoveredBefore(cs, 0, x as real, (x + 1) as real);
        } else {
          NothingAfterLast(cs, x);
        }
      }
    }
  }

  /** All corners have non-negative coordinates, as mouse positions in the window do. */
  ghost predicate OnScreen(es: seq<Edge>) {
    forall e :: e in es ==> e.start.x >= 0.0 && e.end.x >= 0.0 && e.start.y >= 0.0 && e.end.y >= 0.0
  }

  lemma ScanOnScreen(es: seq<Edge>, y: real)
    requires OnScreen(es)
    ensures forall c :: c in Scan(es, y) ==> c.x >= 0.0
  {
    var active := ActiveEdges(es, y);
    var cs := CrossingsAt(active, y);
    forall c | c in Scan(es, y) ensures c.x >= 0.0 {
      assert c in multiset(cs);
      var i :| 0 <= i < |cs| && cs[i] == c;
      assert active[i] in active;
      EdgeAtBetween(y, active[i], 0.0, Max(active[i].start.x, active[i].end.x));
    }
  }

  /** Where the active edges cross (apps/polygons.c:156-159). */
  method Intersect(active: seq<Edge>, y: real) returns (crosses: array<Crossing>)
    requires forall i :: 0 <= i < |active| ==> Active(active[i], y)
    ensures fresh(crosses) && crosses[..] == CrossingsAt(active, y)
  {
    crosses := new Crossing[|active|];
    var j := 0;
    while j < |active|
      invariant 0 <= j <= |active|
      invariant forall i :: 0 <= i < j ==> crosses[i] == CrossingsAt(active, y)[i]
    {
      crosses[j] := Crossing(EdgeAt(y, active[j]), active[j].direction);
      j := j + 1;
    }
  }

  /** The crossings of a sub-scanline, in order (apps/polygons.c:153-162). */
  method FindCrossings(es: seq<Edge>, y: real) returns (cs: seq<Crossing>)
    requires Scannable(es)
    ensures cs == Scan(es, y)
  {
    var intersects := new Edge[|es|];
    var n := PruneEdges(es, y, intersects);
    var crosses := Intersect(intersects[..n], y);
    cs := SortBy(crosses[..], (c: Crossing) => c.x);
  }

  /** One sub-scanline (apps/polygons.c:153-187). */
  method PaintSubScanline(es: seq<Edge>, y: real, subsamples: array<real>, startX: int, maxX: int)
    returns (startX': int, maxX': int)
    requires Scannable(es) && Balanced(es) && OnScreen(es) && startX >= 0
    modifies subsamples
    ensures forall x :: 0 <= x < subsamples.Length ==> subsamples[x] == old(subsamples[x]) + Cell(Scan(es, y), x)
    ensures 0 <= startX' <= startX && maxX <= maxX' && Spans(Scan(es, y), startX', maxX')
  {
    startX', maxX' := startX, maxX;
    var cs := FindCrossings(es, y);
    ScanBalance(es, y);
    ScanOnScreen(es, y);
    if |cs| != 0 {
      assert cs[0] in cs && cs[|cs| - 1] in cs;
      if cs[0].x < startX as real {
        startX' := Trunc(cs[0].x);
      }
      if cs[|cs| - 1].x + 1.0 > maxX as real {
        maxX' := Trunc(cs[|cs| - 1].x + 1.0);
      }
    }
    PaintRow(cs, subsamples);
    SpanOfCrossings(cs, startX', maxX');
  }

  /** The height of a sub-scanline: four to a pixel row. */
  function SubScanline(y: int, l: int): real {
    y as real + l as real * 0.25
  }

  /** What the first n sub-scanlines of pixel row y cover of column x. */
  function Coverage(es: seq<Edge>, y: int, x: int, n: nat): real {
    if n == 0 then 0.0 else Coverage(es, y, x, n - 1) + Cell(Scan(es, SubScanline(y, n - 1)), x)
  }

  /** The sub-scanlines of a pixel row (apps/polygons.c:149-189). */
  method Accumulate(es: seq<Edge>, y: int, subsamples: array<real>) returns (startX: int, maxX: int)
    requires Scannable(es) && Balanced(es) && OnScreen(es)
    requires forall x :: 0 <= x < subsamples.Length ==> subsamples[x] == 0.0
    modifies subsamples
    ensures 0 <= startX
    ensures forall x :: 0 <= x < subsamples.Length ==> subsamples[x] == Coverage(es, y, x, 4)
    ensures forall x :: 0 <= x < subsamples.Length && subsamples[x] != 0.0 ==> startX <= x < maxX
  {
    var width := subsamples.Length;
    startX, maxX := width, 0;
    var subY, l := y as real, 0;
    while l < 4
      invariant 0 <= l <= 4 && subY == SubScanline(y, l) && 0 <= startX
      invariant forall x :: 0 <= x < width ==> subsamples[x] == Coverage(es, y, x, l)
      invariant forall x :: 0 <= x < width && subsamples[x] != 0.0 ==> startX <= x < maxX
    {
      startX, maxX := PaintSubScanline(es, subY, subsamples, startX, maxX);
      subY := subY + 0.25;
      l := l + 1;
    }
  }

  /** The row is painted and the accumulator cleared (apps/polygons.c:190-195):
      clearing [startX, maxX) clears it all. */
  method Flush(subsamples: array<real>, startX: int, maxX: int) returns (row: seq<real>)
    requires 0 <= startX
    requires forall x :: 0 <= x < subsamples.Length && subsamples[x] != 0.0 ==> startX <= x < maxX
    modifies subsamples
    ensures forall x :: 0 <= x < subsamples.Length ==> subsamples[x] == 0.0
    ensures |row| == subsamples.Length
    ensures forall x :: 0 <= x < |row| ==> row[x] == old(subsamples[x]) / 4.0
  {
    var width := subsamples.Length;
    row := seq(width, _ => 0.0);
    var x := startX;
    while x < maxX && x < width
      invariant startX <= x && |row| == width
      invariant forall k :: 0 <= k < width ==> subsamples[k] == if startX <= k < x then 0.0 else old(subsamples[k])
      invariant forall k :: 0 <= k < width ==> row[k] == if startX <= k < x then old(subsamples[k]) / 4.0 else 0.0
    {
      row := row[x := subsamples[x] / 4.0];
      subsamples[x] := 0.0;
      x := x + 1;
    }
  }

  /** Every pixel of the row has the mean of its four sub-scanlines' coverage. */
  ghost predicate PaintedRow(es: seq<Edge>, y: int, row: seq<real>) {
    forall x :: 0 <= x < |row| ==> row[x] == Coverage(es, y, x, 4) / 4.0
  }

  /** One pixel row; the accumulator is clear before and after. */
  method PaintScanline(es: seq<Edge>, y: int, subsamples: array<real>) returns (row: seq<real>)
    requires Scannable(es) && Balanced(es) && OnScreen(es)
    requires forall x :: 0 <= x < subsamples.Length ==> subsamples[x] == 0.0
    modifies subsamples
    ensures forall x :: 0 <= x < subsamples.Length ==> subsamples[x] == 0.0
    ensures |row| == subsamples.Length && PaintedRow(es, y, row)
  {
    var startX, maxX := Accumulate(es, y, subsamples);
    row := Flush(subsamples, startX, maxX);
  }

  ghost predicate PaintedRows(es: seq<Edge>, top: int, width: nat, rows: seq<seq<real>>) {
    forall i :: 0 <= i < |rows| ==> |rows[i]| == width && PaintedRow(es, top + i, rows[i])
  }

  lemma AppendRow(es: seq<Edge>, top: int, width: nat, rows: seq<seq<real>>, row: seq<real>)
    requires PaintedRows(es, top, width, rows) && |row| == width && PaintedRow(es, top + |rows|, row)
    ensures PaintedRows(es, top, width, rows + [row])
  {
    forall i | 0 <= i < |rows + [row]|
      ensures |(rows + [row])[i]| == width && PaintedRow(es, top + i, (rows + [row])[i])
    {
      if i < |rows| {
        assert (rows + [row])[i] == rows[i];
      } else {
        assert (rows + [row])[i] == row;
      }
    }
  }

  /** The first row that is visited; without edges the code reads an edge that was
      never set, which holds anything. */
  function TopRow(shape: Shape, unset: real): int {
    Trunc(if shape.edges == [] then unset else shape.edges[0].start.y)
  }

  method PaintRows(es: seq<Edge>, top: int, bottom: int, subsamples: array<real>) returns (rows: seq<seq<real>>)
    requires Scannable(es) && Balanced(es) && OnScreen(es)
    requires forall x :: 0 <= x < subsamples.Length ==> subsamples[x] == 0.0
    modifies subsamples
    ensures |rows| == (if top <= bottom then bottom - top else 0) && PaintedRows(es, top, subsamples.Length, rows)
  {
    rows := [];
    var y := top;
    while y < bottom
      invariant top <= y && |rows| == y - top && (y == top || y <= bottom)
      invariant forall x :: 0 <= x < subsamples.Length ==> subsamples[x] == 0.0
      invariant PaintedRows(es, top, subsamples.Length, rows)
    {
      var row := PaintScanline(es, y, subsamples);
      AppendRow(es, top, subsamples.Length, rows, row);
      rows := rows + [row];
      y := y + 1;
    }
  }

  /** Painting row by row from the first edge to the last scanline (apps/polygons.c:138-196). */
  method PathPaint(shape: Shape, width: nat, unset: real) returns (top: int, rows: seq<seq<real>>)
    requires Scannable(shape.edges) && Balanced(shape.edges) && OnScreen(shape.edges)
    requires forall e :: e in shape.edges ==> e.end.y < shape.lastY as real
    ensures top == TopRow(shape, unset) && |rows| == if top <= shape.lastY then shape.lastY - top else 0
    ensures PaintedRows(shape.edges, top, width, rows)
  {
    var subsamples := new real[width](_ => 0.0);
    top := Trunc(if |shape.edges| == 0 then unset else shape.edges[0].start.y);
    rows := PaintRows(shape.edges, top, shape.lastY, subsamples);
  }

  lemma {:induction false} NothingActive(es: seq<Edge>, y: real)
    requires forall e :: e in es ==> !Active(e, y)
    ensures ActiveEdges(es, y) == []
  {
    if es != [] {
      assert es[|es| - 1] in es;
      NothingActive(es[..|es| - 1], y);
    }
  }

  /** The rows that are not visited would get nothing: the painted rows are the shape.
      A shape without edges gets nothing in any row. */
  lemma {:induction false} NothingOutside(shape: Shape, unset: real, y: int, x: int, n: nat)
    requires Scannable(shape.edges) && OnScreen(shape.edges) && n <= 4
    requires forall e :: e in shape.edges ==> e.end.y < shape.lastY as real
    requires shape.edges == [] || y < TopRow(shape, unset) || shape.lastY <= y
    ensures Coverage(shape.edges, y, x, n) == 0.0
    decreases n
  {
    if n > 0 {
      NothingOutside(shape, unset, y, x, n - 1);
      var es, s := shape.edges, SubScanline(y, n - 1);
      assert es != [] ==> es[0] in es;
      forall e | e in es ensures !Active(e, s) {
        var i :| 0 <= i < |es| && es[i] == e;
      }
      NothingActive(es, s);
      assert Scan(es, s) == [];
    }
  }

  lemma CellBounds(cs: seq<Crossing>, x: int)
    ensures 0.0 <= Cell(cs, x) <= 1.0
  {
    CoveredBounds(cs, 0, x as real, (x + 1) as real);
  }

  /** A pixel is never painted more than fully. */
  lemma {:induction false} CoverageBounds(es: seq<Edge>, y: int, x: int, n: nat)
    ensures 0.0 <= Coverage(es, y, x, n) <= n as real
  {
    if n > 0 {
      CoverageBounds(es, y, x, n - 1);
      CellBounds(Scan(es, SubScanline(y, n - 1)), x);
    }
  }
}
