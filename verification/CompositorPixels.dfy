/**
  Painting, hit testing and damage, for windows that are not rotated, animated or
  being resized by the mouse.
 */
module CompositorPixels {
  import opened Basics
  import opened CompositorState
  import opened CompositorInvariant

  type Color = int

  const BLACK: Color := 0

  /** What drawing pixel (x, y) of a window over a colour gives: any blending of any content. */
  type Brush = (Wid, int, int, Color) -> Color

  predicate Covers(d: Desktop, w: Wid, px: int, py: int) {
    w in d.heap && Shown(d.heap[w]) && Inside(Frame(d.heap[w]), px, py)
  }

  function CoversAt(d: Desktop, px: int, py: int): Wid -> bool {
    (w: Wid) => Covers(d, w, px, py)
  }

  /** The windows over a pixel, from back to front. */
  function Layers(d: Desktop, px: int, py: int): seq<Wid> {
    Select(PaintOrder(d), CoversAt(d, px, py))
  }

  function Paint(d: Desktop, brush: Brush, layers: seq<Wid>, px: int, py: int, base: Color): Color
    requires forall w :: w in layers ==> w in d.heap
  {
    if layers == [] then base
    else
      var w := layers[|layers| - 1];
      brush(w, px - d.heap[w].x, py - d.heap[w].y, Paint(d, brush, layers[..|layers| - 1], px, py, base))
  }

  /** The background is cleared before painting, unless there is a bottom window that is
      not in an animation (apps/compositor.c:971-973). */
  predicate Cleared(d: Desktop) {
    d.bottom.Some? && d.bottom.value in d.heap ==> d.heap[d.bottom.value].effect != NoEffect
  }

  /** `yutani_blit_windows` at one pixel; `stale` is what the pixel held before. */
  function Composite(d: Desktop, brush: Brush, stale: Color, px: int, py: int): Color {
    Paint(d, brush, Layers(d, px, py), px, py, if Cleared(d) then BLACK else stale)
  }

  /** The pixel is in a rectangle that was queued between d and e. */
  ghost predicate Damaged(d: Desktop, e: Desktop, px: int, py: int) {
    exists i :: |d.updates| <= i < |e.updates| && Inside(e.updates[i], px, py)
  }

  // ------------------------------------------------------------------ list lemmas

  lemma {:induction false} SelectConcat(a: seq<Wid>, b: seq<Wid>, keep: Wid -> bool)
    ensures Select(a + b, keep) == Select(a, keep) + Select(b, keep)
  {
    if b == [] {
      assert a + b == a;
    } else {
      assert (a + b)[..|a + b| - 1] == a + b[..|b| - 1];
      SelectConcat(a, b[..|b| - 1], keep);
    }
  }

  lemma {:induction false} SelectWithout(s: seq<Wid>, w: Wid, keep: Wid -> bool)
    requires !keep(w)
    ensures Select(Without(s, w), keep) == Select(s, keep)
  {
    if s != [] {
      var init, last := s[..|s| - 1], s[|s| - 1];
      assert s == init + [last];
      SelectWithout(init, w, keep);
      SelectConcat(init, [last], keep);
      if last == w {
        assert Select([last], keep) == [];
        assert Select(init, keep) + [] == Select(init, keep);
      } else {
        SelectConcat(Without(init, w), [last], keep);
      }
    }
  }

  lemma SelectToEnd(s: seq<Wid>, w: Wid, keep: Wid -> bool)
    requires !keep(w)
    ensures Select(ToEnd(s, w), keep) == Select(s, keep)
  {
    SelectWithout(s, w, keep);
    SelectConcat(Without(s, w), [w], keep);
    assert Select([w], keep) == [];
  }

  function Slot(o: Option<Wid>): seq<Wid> {
    if o.Some? then [o.value] else []
  }

  lemma SelectPaintOrder(d: Desktop, keep: Wid -> bool)
    ensures Select(PaintOrder(d), keep) ==
            Select(Slot(d.bottom), keep) + Select(d.mid, keep) + Select(d.overlay, keep) + Select(d.menu, keep) +
            Select(Slot(d.top), keep)
  {
    var b, t := Slot(d.bottom), Slot(d.top);
    SelectConcat(b, d.mid, keep);
    SelectConcat(b + d.mid, d.overlay, keep);
    SelectConcat(b + d.mid + d.overlay, d.menu, keep);
    SelectConcat(b + d.mid + d.overlay + d.menu, t, keep);
  }

  lemma {:induction false} PaintAgree(
      d: Desktop, e: Desktop, brush: Brush, layers: seq<Wid>, px: int, py: int, base: Color)
    requires forall w :: w in layers ==>
               w in d.heap && w in e.heap && d.heap[w].x == e.heap[w].x && d.heap[w].y == e.heap[w].y
    ensures Paint(d, brush, layers, px, py, base) == Paint(e, brush, layers, px, py, base)
  {
    if layers != [] {
      PaintAgree(d, e, brush, layers[..|layers| - 1], px, py, base);
    }
  }

  // ----------------------------------------------------------------- hit testing

  /** The opacity of a pixel of a window's buffer. */
  type Alpha = (Wid, int, int) -> int

  /** `check_top_at`. */
  predicate Hit(d: Desktop, alpha: Alpha, w: Wid, px: int, py: int) {
    Covers(d, w, px, py) && alpha(w, px - d.heap[w].x, py - d.heap[w].y) >= d.heap[w].alphaThreshold
  }

  function HitAt(d: Desktop, alpha: Alpha, px: int, py: int): Wid -> bool {
    (w: Wid) => Hit(d, alpha, w, px, py)
  }

  /** The last window painted at a pixel among those that are hit. */
  function LastPaintedHit(d: Desktop, alpha: Alpha, px: int, py: int): Option<Wid> {
    Last(Select(PaintOrder(d), HitAt(d, alpha, px, py)))
  }

  /** Searching a list from its end. */
  method LastHitOf(d: Desktop, s: seq<Wid>, alpha: Alpha, px: int, py: int) returns (r: Option<Wid>)
    ensures r == Last(Select(s, HitAt(d, alpha, px, py)))
  {
    var i := |s|;
    assert s[..i] == s;
    while i > 0
      invariant 0 <= i <= |s|
      invariant Last(Select(s, HitAt(d, alpha, px, py))) ==
                Last(Select(s[..i], HitAt(d, alpha, px, py)))
    {
      i := i - 1;
      assert s[..i + 1][..i] == s[..i];
      if Hit(d, alpha, s[i], px, py) {
        return Some(s[i]);
      }
    }
    return None;
  }

  lemma LastNone(s: seq<Wid>, keep: Wid -> bool)
    ensures Last(Select(s, keep)).None? <==> forall w :: w in s ==> !keep(w)
  {
    var r := Select(s, keep);
    assert r != [] ==> r[|r| - 1] in r;
  }

  lemma LastOfConcat(a: seq<Wid>, b: seq<Wid>)
    ensures Last(a + b) == if b == [] then Last(a) else Last(b)
  {
  }

  /** `top_at`: from the top slot down, the first hit is the last window painted. */
  method TopAt(d: Desktop, alpha: Alpha, px: int, py: int) returns (r: Option<Wid>)
    ensures r == LastPaintedHit(d, alpha, px, py)
    ensures r.None? <==> forall w :: w in PaintOrder(d) ==> !Hit(d, alpha, w, px, py)
  {
    ghost var keep := HitAt(d, alpha, px, py);
    LastNone(PaintOrder(d), keep);
    ghost var b, mid, overlay, menu, t :=
      Select(Slot(d.bottom), keep), Select(d.mid, keep), Select(d.overlay, keep), Select(d.menu, keep),
      Select(Slot(d.top), keep);
    SelectPaintOrder(d, keep);
    LastOfConcat(b + mid + overlay + menu, t);
    LastOfConcat(b + mid + overlay, menu);
    LastOfConcat(b + mid, overlay);
    LastOfConcat(b, mid);
    r := LastHitOf(d, Slot(d.top), alpha, px, py);
    if r.Some? { return; }
    r := LastHitOf(d, d.menu, alpha, px, py);
    if r.Some? { return; }
    r := LastHitOf(d, d.overlay, alpha, px, py);
    if r.Some? { return; }
    r := LastHitOf(d, d.mid, alpha, px, py);
    if r.Some? { return; }
    r := LastHitOf(d, Slot(d.bottom), alpha, px, py);
  }

  // --------------------------------------------------------------------- damage

  /** A queued rectangle damages its pixels. */
  lemma MarkDamages(d: Desktop, e: Desktop, w: Wid, px: int, py: int)
    requires w in e.heap && d.updates <= e.updates && Covers(e, w, px, py)
    ensures Damaged(d, Mark(e, w), px, py)
  {
    assert Mark(e, w).updates[|e.updates|] == Frame(e.heap[w]);
  }

  /** What is damaged stays so while rectangles are only added. */
  lemma DamageStays(d: Desktop, e: Desktop, f: Desktop, px: int, py: int)
    requires e.updates <= f.updates
    ensures Damaged(d, e, px, py) ==> Damaged(d, f, px, py)
    ensures d.updates <= e.updates && Damaged(e, f, px, py) ==> Damaged(d, f, px, py)
  {
    if Damaged(d, e, px, py) {
      var i :| |d.updates| <= i < |e.updates| && Inside(e.updates[i], px, py);
      assert f.updates[i] == e.updates[i];
    }
  }

  /** The same windows in the same places and order. */
  predicate SameScene(d: Desktop, e: Desktop) {
    d.heap == e.heap && d.bottom == e.bottom && d.mid == e.mid && d.overlay == e.overlay && d.menu == e.menu &&
    d.top == e.top
  }

  lemma SceneComposite(d: Desktop, e: Desktop, brush: Brush, stale: Color, px: int, py: int)
    requires SameScene(d, e)
    ensures Layers(d, px, py) == Layers(e, px, py)
    ensures Composite(d, brush, stale, px, py) == Composite(e, brush, stale, px, py)
  {
    SelectAgree(PaintOrder(d), CoversAt(d, px, py), CoversAt(e, px, py));
    SameLayers(d, e, brush, stale, px, py);
  }

  /** Two desktops show the same at a pixel when the same windows cover it from the same places. */
  lemma SameLayers(d: Desktop, e: Desktop, brush: Brush, stale: Color, px: int, py: int)
    requires Layers(d, px, py) == Layers(e, px, py) && Cleared(d) == Cleared(e)
    requires forall w :: w in Layers(d, px, py) ==> d.heap[w].x == e.heap[w].x && d.heap[w].y == e.heap[w].y
    ensures Composite(d, brush, stale, px, py) == Composite(e, brush, stale, px, py)
  {
    PaintAgree(d, e, brush, Layers(d, px, py), px, py, if Cleared(d) then BLACK else stale);
  }

  lemma PutComposite(d: Desktop, w: Wid, win: Window, brush: Brush, stale: Color, px: int, py: int)
    requires !Covers(d, w, px, py) && !Covers(Put(d, w, win), w, px, py)
    requires Cleared(d) == Cleared(Put(d, w, win))
    ensures Composite(d, brush, stale, px, py) == Composite(Put(d, w, win), brush, stale, px, py)
  {
    var e := Put(d, w, win);
    SelectAgree(PaintOrder(d), CoversAt(d, px, py), CoversAt(e, px, py));
    SameLayers(d, e, brush, stale, px, py);
  }

  /** Every pixel that a move changes is damaged. */
  lemma MoveDamage(d: Desktop, w: Wid, x: int, y: int, brush: Brush, stale: Color, px: int, py: int)
    requires w in d.heap
    requires Composite(d, brush, stale, px, py) != Composite(Move(d, w, x, y), brush, stale, px, py)
    ensures Damaged(d, Move(d, w, x, y), px, py)
  {
    var m := Mark(d, w);
    var win := d.heap[w].(x := x, y := y);
    var d1 := Put(m, w, win);
    if Covers(d, w, px, py) {
      MarkDamages(d, d, w, px, py);
      DamageStays(d, m, Mark(d1, w), px, py);
    } else if Covers(d1, w, px, py) {
      MarkDamages(d, d1, w, px, py);
    } else {
      SceneComposite(d, m, brush, stale, px, py);
      PutComposite(m, w, win, brush, stale, px, py);
      SceneComposite(d1, Mark(d1, w), brush, stale, px, py);
    }
  }

  /** Whatever the windows show, every pixel that differs is damaged. */
  ghost predicate ChangesAreDamaged(d: Desktop, e: Desktop) {
    forall brush: Brush, stale: Color, px: int, py: int ::
      Composite(d, brush, stale, px, py) != Composite(e, brush, stale, px, py) ==> Damaged(d, e, px, py)
  }

  lemma MoveIsDamaged(d: Desktop, w: Wid, x: int, y: int)
    requires w in d.heap
    ensures ChangesAreDamaged(d, Move(d, w, x, y))
  {
    var e := Move(d, w, x, y);
    forall brush: Brush, stale: Color, px: int, py: int |
        Composite(d, brush, stale, px, py) != Composite(e, brush, stale, px, py)
      ensures Damaged(d, e, px, py)
    {
      MoveDamage(d, w, x, y, brush, stale, px, py);
    }
  }

  /** The pixels of w are damaged, and no others. */
  ghost predicate DamagesExactly(d: Desktop, e: Desktop, w: Wid) {
    forall px: int, py: int :: Damaged(d, e, px, py) <==> Covers(e, w, px, py)
  }

  lemma MarkDamagesExactly(d: Desktop, w: Wid)
    requires w in d.heap
    ensures DamagesExactly(d, Mark(d, w), w)
  {
    forall px: int, py: int ensures Damaged(d, Mark(d, w), px, py) <==> Covers(Mark(d, w), w, px, py) {
      DamageOfMark(d, d, w, px, py);
    }
  }

  /** Raising a window that does not cover a pixel leaves its layers alone. */
  lemma RaiseLayers(d: Desktop, w: Wid, px: int, py: int)
    requires !Covers(d, w, px, py)
    ensures Layers(Raise(d, w), px, py) == Layers(d, px, py)
  {
    var keep := CoversAt(d, px, py);
    var e := Raise(d, w);
    SelectAgree(PaintOrder(e), keep, CoversAt(e, px, py));
    SelectPaintOrder(d, keep);
    SelectPaintOrder(e, keep);
    SelectToEnd(d.mid, w, keep);
    SelectToEnd(d.overlay, w, keep);
    SelectToEnd(d.menu, w, keep);
  }

  lemma RaiseComposite(d: Desktop, w: Wid, brush: Brush, stale: Color, px: int, py: int)
    requires !Covers(d, w, px, py)
    ensures Composite(d, brush, stale, px, py) == Composite(Raise(d, w), brush, stale, px, py)
  {
    RaiseLayers(d, w, px, py);
    SameLayers(d, Raise(d, w), brush, stale, px, py);
  }

  /** Every pixel that a change of focus changes is damaged. */
  lemma FocusDamage(d: Desktop, target: Option<Wid>, brush: Brush, stale: Color, px: int, py: int)
    requires Closed(d) && (target.Some? ==> target.value in d.heap && !d.heap[target.value].minimized)
    requires Composite(d, brush, stale, px, py) != Composite(Focus(d, target), brush, stale, px, py)
    ensures Damaged(d, Focus(d, target), px, py)
  {
    var t := if target.Some? then target else d.bottom;
    var d2 := d.(focused := t);
    SceneComposite(d, d2, brush, stale, px, py);
    if t.Some? {
      var r := Raise(d2, t.value);
      SceneComposite(r, Mark(r, t.value), brush, stale, px, py);
      if Covers(d2, t.value, px, py) {
        MarkDamages(d, r, t.value, px, py);
      } else {
        RaiseComposite(d2, t.value, brush, stale, px, py);
      }
    }
  }

  /** Taking a window off leaves the layers of pixels it does not cover alone. */
  lemma DetachLayers(d: Desktop, w: Wid, px: int, py: int)
    requires w in d.heap && !Covers(d, w, px, py)
    ensures Layers(Detach(d, w), px, py) == Layers(d, px, py)
  {
    var keep := CoversAt(d, px, py);
    var e := Detach(d, w);
    SelectAgree(PaintOrder(e), keep, CoversAt(e, px, py));
    SelectPaintOrder(d, keep);
    SelectPaintOrder(e, keep);
    SelectWithout(d.mid, w, keep);
    SelectWithout(d.overlay, w, keep);
    SelectWithout(d.menu, w, keep);
    assert d.bottom == Some(w) ==> Select(Slot(d.bottom), keep) == [];
    assert d.top == Some(w) ==> Select(Slot(d.top), keep) == [];
  }

  /** The one way in which taking a window off clears the background. */
  predicate Uncovers(d: Desktop, w: Wid)
    requires w in d.heap
  {
    d.bottom == Some(w) && d.heap[w].effect == NoEffect
  }

  lemma DetachCleared(d: Desktop, w: Wid)
    requires w in d.heap
    ensures Cleared(Detach(d, w)) <==> Cleared(d) || Uncovers(d, w)
  {
  }

  lemma DetachDamage(d: Desktop, w: Wid, brush: Brush, stale: Color, px: int, py: int)
    requires w in d.heap && (Uncovers(d, w) ==> stale == BLACK)
    ensures var e := Mark(Detach(d, w), w);
            Composite(d, brush, stale, px, py) != Composite(e, brush, stale, px, py) ==> Damaged(d, e, px, py)
  {
    var f := Detach(d, w);
    SceneComposite(f, Mark(f, w), brush, stale, px, py);
    if Covers(d, w, px, py) {
      MarkDamages(d, f, w, px, py);
    } else {
      DetachLayers(d, w, px, py);
      DetachCleared(d, w);
      PaintAgree(d, f, brush, Layers(d, px, py), px, py, if Cleared(d) then BLACK else stale);
    }
  }

  lemma RefocusDamage(d: Desktop, brush: Brush, stale: Color, px: int, py: int)
    requires Tidy(d) && Closed(d)
    ensures d.updates <= Refocus(d).updates
    ensures Composite(d, brush, stale, px, py) != Composite(Refocus(d), brush, stale, px, py) ==>
              Damaged(d, Refocus(d), px, py)
  {
    SuccessorShown(d);
    var d' := d.(focused := None);
    SceneComposite(d, d', brush, stale, px, py);
    FocusUpdates(d', Successor(d));
    if Composite(d', brush, stale, px, py) != Composite(Refocus(d), brush, stale, px, py) {
      FocusDamage(d', Successor(d), brush, stale, px, py);
      var i :| |d'.updates| <= i < |Refocus(d).updates| && Inside(Refocus(d).updates[i], px, py);
    }
  }

  lemma FocusUpdates(d: Desktop, target: Option<Wid>)
    requires Closed(d) && (target.Some? ==> target.value in d.heap)
    ensures d.updates <= Focus(d, target).updates
  {
  }

  /** Where closing a window queues damage: its own place, and that of the window
      that gets its focus. */
  predicate CloseQueues(d: Desktop, w: Wid, px: int, py: int)
    requires w in d.heap
  {
    Covers(d, w, px, py) ||
    (d.focused == Some(w) && var next := Successor(Detach(d, w)); next.Some? && Covers(d, next.value, px, py))
  }

  /** One more rectangle damages what was damaged and its own pixels. */
  lemma DamageOfMark(d: Desktop, e: Desktop, w: Wid, px: int, py: int)
    requires w in e.heap && d.updates <= e.updates
    ensures Damaged(d, Mark(e, w), px, py) <==> Damaged(d, e, px, py) || Covers(e, w, px, py)
  {
    DamageStays(d, e, Mark(e, w), px, py);
    if Covers(e, w, px, py) {
      MarkDamages(d, e, w, px, py);
    }
    if Damaged(d, Mark(e, w), px, py) {
      var i :| |d.updates| <= i < |Mark(e, w).updates| && Inside(Mark(e, w).updates[i], px, py);
      assert i < |e.updates| ==> e.updates[i] == Mark(e, w).updates[i];
    }
  }

  lemma SameUpdates(d: Desktop, e: Desktop, f: Desktop, px: int, py: int)
    requires e.updates == f.updates
    ensures Damaged(d, e, px, py) <==> Damaged(d, f, px, py)
  {
  }

  /** Handing on the focus marks the window that gets it. */
  lemma RefocusQueues(d: Desktop, e: Desktop, px: int, py: int)
    requires Closed(e) && d.updates <= e.updates
    requires HeirShown(e)
    ensures Damaged(d, Refocus(e), px, py) <==>
            Damaged(d, e, px, py) || (Successor(e).Some? && Covers(e, Successor(e).value, px, py))
  {
    if Successor(e).Some? {
      var t := Successor(e);
      var r := Raise(e.(focused := t), t.value);
      assert Refocus(e) == Mark(r, t.value);
      DamageOfMark(d, r, t.value, px, py);
      SameUpdates(d, e, r, px, py);
    } else {
      SameUpdates(d, e, Refocus(e), px, py);
    }
  }

  /** Taking a window off hides no other, and not even itself. */
  lemma DetachCovers(d: Desktop, w: Wid, v: Wid, px: int, py: int)
    requires w in d.heap
    ensures Covers(Mark(Detach(d, w), w), v, px, py) <==> Covers(d, v, px, py)
    ensures Covers(Detach(d, w), v, px, py) <==> Covers(d, v, px, py)
  {
  }

  lemma DetachQueues(d: Desktop, w: Wid, px: int, py: int)
    requires w in d.heap
    ensures d.updates <= Mark(Detach(d, w), w).updates
    ensures Damaged(d, Mark(Detach(d, w), w), px, py) <==> Covers(d, w, px, py)
  {
    DetachCovers(d, w, w, px, py);
    DamageOfMark(d, Detach(d, w), w, px, py);
  }

  lemma HeirReady(d: Desktop, w: Wid)
    requires Tidy(d) && w in d.windows && w in d.heap
    ensures var e := Mark(Detach(d, w), w);
            Closed(e) && HeirShown(e)
  {
    var e := Mark(Detach(d, w), w);
    DetachTidy(d, w);
    MarkTidy(Detach(d, w), w);
    TidyIsClosed(e);
    SuccessorShown(e);
  }

  lemma CloseQueuesExactly(d: Desktop, w: Wid, px: int, py: int)
    requires Tidy(d) && w in d.windows && w in d.heap && Closed(d)
    ensures Damaged(d, Close(d, w), px, py) <==> CloseQueues(d, w, px, py)
  {
    var e := Mark(Detach(d, w), w);
    DetachQueues(d, w, px, py);
    if d.focused == Some(w) {
      HeirReady(d, w);
      RefocusQueues(d, e, px, py);
      if Successor(e).Some? {
        DetachCovers(d, w, Successor(e).value, px, py);
      }
      SameUpdates(d, Refocus(e), Close(d, w), px, py);
    } else {
      SameUpdates(d, e, Close(d, w), px, py);
    }
  }

  /** Every pixel that closing a window changes is damaged, if it does not clear the
      background or the pixel held black. */
  lemma CloseChange(d: Desktop, w: Wid, brush: Brush, stale: Color, px: int, py: int)
    requires Tidy(d) && w in d.windows && w in d.heap && Closed(d)
    requires Uncovers(d, w) ==> stale == BLACK
    requires Composite(d, brush, stale, px, py) != Composite(Close(d, w), brush, stale, px, py)
    ensures Damaged(d, Close(d, w), px, py)
  {
    var e := Mark(Detach(d, w), w);
    DetachDamage(d, w, brush, stale, px, py);
    if d.focused == Some(w) {
      DetachTidy(d, w);
      MarkTidy(Detach(d, w), w);
      RefocusDamage(e, brush, stale, px, py);
      SceneComposite(Refocus(e), Close(d, w), brush, stale, px, py);
      DamageStays(d, e, Close(d, w), px, py);
      SameUpdates(e, Refocus(e), Close(d, w), px, py);
    } else {
      SceneComposite(e, Close(d, w), brush, stale, px, py);
      DamageStays(d, e, Close(d, w), px, py);
    }
  }

  /** Windows that are transparent throughout. */
  function Transparent(): Brush {
    (w: Wid, x: int, y: int, under: Color) => under
  }

  lemma {:induction false} TransparentPaint(d: Desktop, layers: seq<Wid>, px: int, py: int, base: Color)
    requires forall w :: w in layers ==> w in d.heap
    ensures Paint(d, Transparent(), layers, px, py, base) == base
  {
    if layers != [] {
      TransparentPaint(d, layers[..|layers| - 1], px, py, base);
    }
  }

  /** Where that bites: without a bottom window the background is cleared, which changes
      every pixel that held anything but black and shows through. */
  lemma CloseBottomClears(d: Desktop, w: Wid, stale: Color, px: int, py: int)
    requires Tidy(d) && w in d.windows && w in d.heap && Closed(d) && Uncovers(d, w) && stale != BLACK
    ensures Composite(d, Transparent(), stale, px, py) != Composite(Close(d, w), Transparent(), stale, px, py)
  {
    TransparentPaint(d, Layers(d, px, py), px, py, stale);
    BottomGone(d, w);
    TransparentPaint(Close(d, w), Layers(Close(d, w), px, py), px, py, BLACK);
  }

  lemma BottomGone(d: Desktop, w: Wid)
    requires Tidy(d) && w in d.windows && w in d.heap && Closed(d) && d.bottom == Some(w)
    ensures Close(d, w).bottom.None?
  {
    HeirReady(d, w);
  }

  /** Whatever the windows show, closing one damages every pixel that it changes: this
      holds at a pixel if and only if the window is not the bottom one, or is in an
      animation, or the pixel held black, or it lies in a rectangle that is queued anyway. */
  lemma CloseDamage(d: Desktop, w: Wid, stale: Color, px: int, py: int)
    requires Tidy(d) && w in d.windows && w in d.heap && Closed(d)
    ensures (forall brush: Brush ::
               Composite(d, brush, stale, px, py) != Composite(Close(d, w), brush, stale, px, py) ==>
                 Damaged(d, Close(d, w), px, py)) <==>
            (d.bottom != Some(w) || d.heap[w].effect != NoEffect || stale == BLACK || CloseQueues(d, w, px, py))
  {
    CloseQueuesExactly(d, w, px, py);
    if Uncovers(d, w) && stale != BLACK {
      CloseBottomClears(d, w, stale, px, py);
    } else {
      forall brush: Brush | Composite(d, brush, stale, px, py) != Composite(Close(d, w), brush, stale, px, py)
        ensures Damaged(d, Close(d, w), px, py)
      {
        CloseChange(d, w, brush, stale, px, py);
      }
    }
  }
}
