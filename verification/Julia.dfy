/**
  The progressive renderer of apps/julia.c: coarse passes that keep the blocks an
  earlier pass has right, then a fine pass row by row from the middle outwards.
  The pixel function and the text label are arbitrary.
 */
module Julia {
  import opened Basics

  type Color = int

  const START_POINT := -4

  /** The corner of the block of size r that holds coordinate v. */
  function Corner(v: nat, r: nat): nat
    requires r > 0
  {
    v / r * r
  }

  /** The corner is the only multiple of r whose block holds v. */
  lemma CornerUnique(v: nat, r: nat, i: nat)
    requires r > 0 && i * r <= v < i * r + r
    ensures Corner(v, r) == i * r
  {
    var q := v / r;
    ProductStep(q, r);
    ProductStep(i, r);
    if q < i {
      ProductMonotone(q + 1, i, r);
    } else if q > i {
      ProductMonotone(i + 1, q, r);
    }
  }

  /** A block whose indices are even has the corner of the block twice its size, so
      it already shows the right colour. */
  lemma EvenBlockKept(v: nat, r: nat, i: nat)
    requires r > 0 && i % 2 == 0 && i * r <= v < i * r + r
    ensures Corner(v, 2 * r) == Corner(v, r) == i * r
  {
    CornerUnique(v, r, i);
    var k := i / 2;
    assert i * r == k * (2 * r);
    CornerUnique(v, 2 * r, k);
  }

  /** The row that step n of the fine pass draws. */
  function RowAt(height: nat, n: nat): int {
    if n % 2 == 1 then height / 2 + n / 2 else height / 2 - n / 2 - 1
  }

  /** One of the first n steps of the fine pass draws row y. */
  ghost predicate Drawn(height: nat, n: nat, y: int) {
    exists k :: 0 <= k < n && RowAt(height, k) == y
  }

  predicate NearMiddle(height: nat, n: nat, y: int) {
    height / 2 - (n + 1) / 2 <= y < height / 2 + n / 2
  }

  /** The rows drawn so far lie together around the middle. */
  lemma DrawnRange(height: nat, n: nat, y: int)
    ensures Drawn(height, n, y) <==> NearMiddle(height, n, y)
  {
    if NearMiddle(height, n, y) {
      var k := if y >= height / 2 then 2 * (y - height / 2) + 1 else 2 * (height / 2 - 1 - y);
      assert 0 <= k < n && RowAt(height, k) == y;
    }
  }

  /** The fine pass draws every row exactly once if and only if the height is even;
      for an odd height its last step leaves the picture and the last row is missed. */
  lemma FinePassComplete(height: nat)
    ensures (forall y :: 0 <= y < height ==> Drawn(height, height, y)) <==> height % 2 == 0
    ensures forall j, k :: 0 <= j < k < height ==> RowAt(height, j) != RowAt(height, k)
    ensures height % 2 == 1 ==> RowAt(height, height - 1) == -1
  {
    forall y ensures Drawn(height, height, y) <==> NearMiddle(height, height, y) {
      DrawnRange(height, height, y);
    }
    if height % 2 == 1 {
      assert !Drawn(height, height, height - 1);
    }
  }

  /** The block size of a coarse pass. */
  function Resolution(n: int): nat
    requires START_POINT <= n < 0
  {
    if n == -4 then 64 else if n == -3 then 32 else if n == -2 then 16 else 8
  }

  class Renderer {
    const width: nat
    const height: nat
    const colorAt: (int, int) -> Color
    /** What a label makes of a pixel: the last one, or the one before the fine pass. */
    const caption: (bool, int, int, Color) -> Color
    const canvas: array2<Color>
    var stepRes: nat
    var stepN: int
    var stepY: nat
    var stepI: nat
    var processing: bool
    /** The rows outside the picture that were drawn to. */
    var stray: seq<int>

    constructor (width: nat, height: nat, colorAt: (int, int) -> Color, caption: (bool, int, int, Color) -> Color)
      ensures this.width == width && this.height == height && this.colorAt == colorAt && this.caption == caption
      ensures Sized() && fresh(canvas)
    {
      this.width, this.height, this.colorAt, this.caption := width, height, colorAt, caption;
      canvas := new Color[height, width];
      stepRes, stepN, stepY, stepI, processing, stray := 64, START_POINT, 0, 0, false, [];
    }

    ghost predicate Sized()
      reads this
    {
      canvas.Length0 == height && canvas.Length1 == width
    }

    /** The colour of the corner of a pixel's block of size r. */
    function CoarseColor(x: nat, y: nat, r: nat): Color
      requires r > 0
    {
      colorAt(Corner(x, r), Corner(y, r))
    }

    /** `do_line`. */
    method DoLine(j: int)
      requires Sized()
      modifies canvas, this`stray
      ensures 0 <= j < height ==> stray == old(stray)
      ensures !(0 <= j < height) ==> stray == old(stray) + [j]
      ensures forall x, y :: 0 <= x < width && 0 <= y < height ==>
                canvas[y, x] == if y == j then colorAt(x, y) else old(canvas[y, x])
    {
      if !(0 <= j < height) {
        stray := stray + [j];
        return;
      }
      var i := 0;
      while i < width
        invariant 0 <= i <= width && stray == old(stray)
        invariant forall x, y :: 0 <= x < width && 0 <= y < height ==>
                    canvas[y, x] == if y == j && x < i then colorAt(x, y) else old(canvas[y, x])
      {
        canvas[j, i] := colorAt(i, j);
        i := i + 1;
      }
    }

    /** One block in one colour, clipped to the picture (apps/julia.c:347-351). */
    method PaintBlock(x0: nat, y0: nat, r: nat, c: Color)
      requires Sized()
      modifies canvas
      ensures forall x, y :: 0 <= x < width && 0 <= y < height ==>
                canvas[y, x] == if y0 <= y < y0 + r && x0 <= x < x0 + r then c else old(canvas[y, x])
    {
      var dy := 0;
      while dy < r && dy + y0 < height
        invariant 0 <= dy <= r
        invariant forall x, y :: 0 <= x < width && 0 <= y < height ==>
                    canvas[y, x] == if y0 <= y < y0 + dy && x0 <= x < x0 + r then c else old(canvas[y, x])
      {
        PaintBlockLine(x0, y0 + dy, r, c);
        dy := dy + 1;
      }
    }

    method PaintBlockLine(x0: nat, j: nat, r: nat, c: Color)
      requires Sized() && j < height
      modifies canvas
      ensures forall x, y :: 0 <= x < width && 0 <= y < height ==>
                canvas[y, x] == if y == j && x0 <= x < x0 + r then c else old(canvas[y, x])
    {
      var dx := 0;
      while dx < r && dx + x0 < width
        invariant 0 <= dx <= r
        invariant forall x, y :: 0 <= x < width && 0 <= y < height ==>
                    canvas[y, x] == if y == j && x0 <= x < x0 + dx then c else old(canvas[y, x])
      {
        canvas[j, x0 + dx] := c;
        dx := dx + 1;
      }
    }

    /** `draw_label`; its text tells the last label from the one before the fine pass. */
    method DrawLabel(last: bool)
      requires Sized()
      modifies canvas
      ensures forall x, y :: 0 <= x < width && 0 <= y < height ==>
                canvas[y, x] == caption(last, x, y, old(canvas[y, x]))
    {
      var j := 0;
      while j < height
        invariant 0 <= j <= height
        invariant forall x, y :: 0 <= x < width && 0 <= y < height ==>
                    canvas[y, x] == if y < j then caption(last, x, y, old(canvas[y, x])) else old(canvas[y, x])
      {
        var i := 0;
        while i < width
          invariant 0 <= i <= width
          invariant forall x, y :: 0 <= x < width && 0 <= y < height ==>
                      canvas[y, x] == if y < j || (y == j && x < i) then caption(last, x, y, old(canvas[y, x]))
                                      else old(canvas[y, x])
        {
          canvas[j, i] := caption(last, i, j, canvas[j, i]);
          i := i + 1;
        }
        j := j + 1;
      }
    }

    /** One block of a row (apps/julia.c:344-351): the earlier pass has already coloured
        the blocks at even places. */
    method DrawBlock(i: nat, x0: nat)
      requires Sized() && stepRes > 0 && stepY == stepI * stepRes && x0 == i * stepRes
      requires stepN != START_POINT ==>
                 forall x, y :: x0 <= x < width && stepY <= y < height && y < stepY + stepRes ==>
                   canvas[y, x] == CoarseColor(x, y, 2 * stepRes)
      modifies canvas
      ensures forall x, y :: x0 <= x < width && x < x0 + stepRes && stepY <= y < height && y < stepY + stepRes ==>
                canvas[y, x] == CoarseColor(x, y, stepRes)
      ensures forall x, y :: 0 <= x < width && 0 <= y < height ==>
                (x0 <= x < x0 + stepRes && stepY <= y < stepY + stepRes) || canvas[y, x] == old(canvas[y, x])
    {
      var skipped := stepN != START_POINT && stepI % 2 == 0 && i % 2 == 0;
      if !skipped {
        PaintBlock(x0, stepY, stepRes, colorAt(x0, stepY));
      }
      forall x: nat, y: nat | x0 <= x < x0 + stepRes && stepY <= y < stepY + stepRes
        ensures CoarseColor(x, y, stepRes) == colorAt(x0, stepY)
        ensures skipped ==> CoarseColor(x, y, 2 * stepRes) == colorAt(x0, stepY)
      {
        CornerUnique(x, stepRes, i);
        CornerUnique(y, stepRes, stepI);
        if skipped {
          EvenBlockKept(x, stepRes, i);
          EvenBlockKept(y, stepRes, stepI);
        }
      }
    }

    /** One row of blocks (apps/julia.c:343-352). */
    method DrawBlockRow()
      requires Sized() && stepRes > 0 && stepY == stepI * stepRes
      requires stepN != START_POINT ==>
                 forall x, y :: 0 <= x < width && stepY <= y < height && y < stepY + stepRes ==>
                   canvas[y, x] == CoarseColor(x, y, 2 * stepRes)
      modifies canvas
      ensures forall x, y :: 0 <= x < width && stepY <= y < height && y < stepY + stepRes ==>
                canvas[y, x] == CoarseColor(x, y, stepRes)
      ensures forall x, y :: 0 <= x < width && 0 <= y < height && !(stepY <= y < stepY + stepRes) ==>
                canvas[y, x] == old(canvas[y, x])
    {
      var x0, i := 0, 0;
      while x0 < width
        invariant x0 == i * stepRes
        invariant forall x, y :: 0 <= x < width && x < x0 && stepY <= y < height && y < stepY + stepRes ==>
                    canvas[y, x] == CoarseColor(x, y, stepRes)
        invariant forall x, y :: 0 <= x < width && 0 <= y < height && (x >= x0 || !(stepY <= y < stepY + stepRes)) ==>
                    canvas[y, x] == old(canvas[y, x])
        decreases width - x0
      {
        DrawBlock(i, x0);
        ProductStep(i, stepRes);
        x0, i := x0 + stepRes, i + 1;
      }
    }

    /** During the coarse passes every pixel shows the corner of its block, of this
        pass's size above stepY and of the last pass's size below. */
    ghost predicate CoarsePhase()
      reads this, canvas
    {
      Sized() && START_POINT <= stepN < 0 && stepRes == Resolution(stepN) && stepY == stepI * stepRes && stray == [] &&
      forall x, y :: 0 <= x < width && 0 <= y < height ==>
        (y < stepY ==> canvas[y, x] == CoarseColor(x, y, stepRes)) &&
        (stepY <= y && stepN > START_POINT ==> canvas[y, x] == CoarseColor(x, y, 2 * stepRes))
    }

    /** During the fine pass the rows drawn so far are final, and the others still show
        the last coarse pass under the first label. */
    ghost predicate FinePhase()
      reads this, canvas
    {
      Sized() && 1 <= stepN <= height && stray == StrayAfter(stepN) &&
      forall x, y :: 0 <= x < width && 0 <= y < height ==>
        canvas[y, x] == if NearMiddle(height, stepN, y) then colorAt(x, y)
                        else caption(false, x, y, CoarseColor(x, y, 8))
    }

    /** The rows outside the picture that n steps of the fine pass draw to. */
    function StrayAfter(n: nat): seq<int> {
      if n == height && height % 2 == 1 then [-1] else []
    }

    /** What the finished picture shows: the pixel function under the label; but for an
        odd height the last row still shows blocks. */
    function Final(x: nat, y: nat): Color {
      if height % 2 == 0 || y + 1 < height then caption(true, x, y, colorAt(x, y))
      else caption(true, x, y, caption(false, x, y, CoarseColor(x, y, 8)))
    }

    ghost predicate Finished()
      reads this, canvas
    {
      Sized() && !processing && stray == StrayAfter(height) &&
      forall x, y :: 0 <= x < width && 0 <= y < height ==> canvas[y, x] == Final(x, y)
    }

    /** The end of a coarse pass (apps/julia.c:322-330): every pixel shows its block's corner. */
    method EndPass()
      requires CoarsePhase() && stepY > height
      modifies this
      ensures processing == old(processing)
      ensures stepN == old(stepN) + 1
      ensures stepN < 0 ==> CoarsePhase() && stepY == 0
      ensures Sized() && stray == [] && old(stepRes) == Resolution(old(stepN))
      ensures (old(stepN), old(stepRes)) in {(-4, 64), (-3, 32), (-2, 16), (-1, 8)}
      ensures forall x, y :: 0 <= x < width && 0 <= y < height ==> canvas[y, x] == CoarseColor(x, y, old(stepRes))
    {
      stepRes := stepRes / 2;
      stepY, stepI := 0, 0;
      stepN := stepN + 1;
    }

    /** One row of a coarse pass (apps/julia.c:342-355). */
    method CoarseStep()
      requires CoarsePhase() && stepY <= height
      modifies this, canvas
      ensures CoarsePhase() && processing == old(processing) && stepN == old(stepN) && stepY > old(stepY)
    {
      DrawBlockRow();
      stepI := stepI + 1;
      stepY := stepY + stepRes;
    }

    lemma RowsGrow(n: nat, y: int)
      requires n < height
      ensures NearMiddle(height, n + 1, y) <==> NearMiddle(height, n, y) || y == RowAt(height, n)
      ensures !NearMiddle(height, 0, y)
      ensures 0 <= RowAt(height, n) < height <==> !(n == height - 1 && height % 2 == 1)
      ensures n == height - 1 && height % 2 == 1 ==> RowAt(height, n) == -1
    {
    }

    /** One row of the fine pass (apps/julia.c:356-362). */
    method FineStep()
      requires Sized() && 0 <= stepN < height && stray == []
      requires forall x, y :: 0 <= x < width && 0 <= y < height ==>
                 canvas[y, x] == if NearMiddle(height, stepN, y) then colorAt(x, y)
                                 else caption(false, x, y, CoarseColor(x, y, 8))
      modifies this, canvas
      ensures FinePhase() && processing == old(processing) && stepN == old(stepN) + 1
    {
      forall y: int {
        RowsGrow(stepN, y);
      }
      if stepN % 2 == 1 {
        DoLine(height / 2 + stepN / 2);
      } else {
        DoLine(height / 2 - stepN / 2 - 1);
      }
      stepN := stepN + 1;
    }

    /** `step_once`. */
    method StepOnce()
      requires processing && (CoarsePhase() || FinePhase())
      modifies this, canvas
      ensures if processing then CoarsePhase() || FinePhase() else Finished()
      ensures processing ==>
                stepN > old(stepN) || (stepN == old(stepN) < 0 && stepY > old(stepY) && old(stepY) <= height)
    {
      if stepN < 0 && stepY > height {
        EndPass();
      }
      if stepN >= height {
        processing := false;
        DrawLabel(true);
        return;
      }
      if stepN == 0 {
        DrawLabel(false);
      }
      if stepN < 0 {
        CoarseStep();
      } else {
        FineStep();
      }
    }

    /** `start_processing` up to its first step. */
    method StartProcessing()
      requires Sized()
      modifies this, canvas
      ensures processing && CoarsePhase()
    {
      stepN := START_POINT;
      stepY, stepI, stepRes := 0, 0, 64;
      processing, stray := true, [];
      var j := 0;
      while j < height
        invariant 0 <= j <= height && Sized() && processing && stray == []
        invariant stepN == START_POINT && stepY == 0 && stepI == 0 && stepRes == 64
      {
        var i := 0;
        while i < width
          invariant 0 <= i <= width && processing && stray == []
          invariant stepN == START_POINT && stepY == 0 && stepI == 0 && stepRes == 64
        {
          canvas[j, i] := 0;
          i := i + 1;
        }
        j := j + 1;
      }
    }

    /** A whole rendering: it ends, and the picture is the pixel function everywhere, for
        every even height. */
    method Render()
      requires Sized()
      modifies this, canvas
      ensures Finished()
    {
      StartProcessing();
      while processing
        invariant if processing then CoarsePhase() || FinePhase() else Finished()
        decreases if processing then 1 else 0, height - stepN, height + 64 - stepY
      {
        StepOnce();
      }
    }
  }
}
