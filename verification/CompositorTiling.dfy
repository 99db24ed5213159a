/**
  Tiling (apps/compositor.c:1596-1666, 1747-1754, 3028-3036): the cells of a grid
  fill the work area, and untiling gives back the geometry from before.
 */
module CompositorTiling {
  import opened Basics
  import opened CompositorState
  import opened CompositorInvariant
  import opened CompositorSteps

  /** The largest index whose cell starts at or before v. */
  function Column(v: nat, size: nat, count: nat): nat
    requires size > 0 && count > 0
  {
    if v / size < count then v / size else count - 1
  }

  /** r ends where the work area or its neighbour demands. */
  ghost predicate CellFits(
      r: Rect, screenWidth: nat, screenHeight: nat, panel: int, columns: int, rows: int, cx: int, cy: int)
    requires columns > 0 && rows > 0
  {
    (cx == 0 ==> r.x == 0) && (cx == columns - 1 ==> r.x + r.width == screenWidth) &&
    (cy == 0 ==> r.y == panel) && (cy == rows - 1 ==> r.y + r.height == screenHeight) &&
    (cx + 1 < columns ==>
       TileRect(screenWidth, screenHeight, panel, columns, rows, cx + 1, cy).x == r.x + r.width - 1) &&
    (cy + 1 < rows ==>
       TileRect(screenWidth, screenHeight, panel, columns, rows, cx, cy + 1).y == r.y + r.height - 1)
  }

  /** Along each axis the cells start at the near edge, end at the far edge, and
      overlap their neighbours by one pixel. */
  lemma TileEdges(screenWidth: nat, screenHeight: nat, panel: nat, columns: nat, rows: nat, cx: nat, cy: nat)
    requires panel <= screenHeight < 0x1_0000_0000 && 0 < columns && 0 < rows && cx < columns && cy < rows
    ensures CellFits(TileRect(screenWidth, screenHeight, panel, columns, rows, cx, cy),
                     screenWidth, screenHeight, panel, columns, rows, cx, cy)
  {
    TileX(screenWidth, screenHeight, panel, columns, rows, cx, cy);
    TileY(screenWidth, screenHeight, panel, columns, rows, cx, cy);
  }

  /** The horizontal extent of a cell. */
  lemma TileX(screenWidth: nat, screenHeight: nat, panel: nat, columns: nat, rows: nat, cx: nat, cy: nat)
    requires 0 < columns && 0 < rows && cx < columns
    ensures var r := TileRect(screenWidth, screenHeight, panel, columns, rows, cx, cy);
            (cx == 0 ==> r.x == 0) && (cx == columns - 1 ==> r.x + r.width == screenWidth) &&
            (cx + 1 < columns ==>
               TileRect(screenWidth, screenHeight, panel, columns, rows, cx + 1, cy).x == r.x + r.width - 1)
  {
    ProductStep(cx, screenWidth / columns);
  }

  /** The vertical extent. */
  lemma TileY(screenWidth: nat, screenHeight: nat, panel: nat, columns: nat, rows: nat, cx: nat, cy: nat)
    requires panel <= screenHeight < 0x1_0000_0000 && 0 < columns && 0 < rows && cy < rows
    ensures var r := TileRect(screenWidth, screenHeight, panel, columns, rows, cx, cy);
            (cy == 0 ==> r.y == panel) && (cy == rows - 1 ==> r.y + r.height == screenHeight) &&
            (cy + 1 < rows ==>
               TileRect(screenWidth, screenHeight, panel, columns, rows, cx, cy + 1).y == r.y + r.height - 1)
  {
    assert Unsigned(screenHeight - panel) == screenHeight - panel;
    ProductStep(cy, (screenHeight - panel) / rows);
  }

  lemma QuotientBounds(a: nat, b: nat)
    requires b > 0
    ensures a / b * b <= a < a / b * b + b
  {
  }

  /** The cell of a pixel along one axis: count cells of length size / count each,
      the last one taking the rest. */
  lemma CellOf(size: nat, count: nat, v: nat) returns (c: nat)
    requires 0 < count <= size && v < size
    ensures c < count
    ensures size / count * c <= v < if c == count - 1 then size else size / count * (c + 1)
  {
    var s := size / count;
    QuotientBounds(size, count);
    assert s > 0;
    c := Column(v, s, count);
    QuotientBounds(v, s);
    if v / s >= count {
      ProductMonotone(count - 1, v / s, s);
    } else {
      ProductStep(c, s);
    }
  }

  /** The cells cover the work area, and nothing else. */
  lemma TilesCover(screenWidth: nat, screenHeight: nat, panel: nat, columns: nat, rows: nat, px: int, py: int)
    requires panel <= screenHeight < 0x1_0000_0000
    requires 0 < columns <= screenWidth && 0 < rows <= screenHeight - panel
    ensures (exists cx: nat, cy: nat :: cx < columns && cy < rows &&
               Inside(TileRect(screenWidth, screenHeight, panel, columns, rows, cx, cy), px, py))
            <==> (0 <= px < screenWidth && panel <= py < screenHeight)
  {
    if 0 <= px < screenWidth && panel <= py < screenHeight {
      var cx, cy := TileAt(screenWidth, screenHeight, panel, columns, rows, px, py);
    }
    if cx: nat, cy: nat :|
      cx < columns && cy < rows && Inside(TileRect(screenWidth, screenHeight, panel, columns, rows, cx, cy), px, py)
    {
      TileInArea(screenWidth, screenHeight, panel, columns, rows, cx, cy, px, py);
    }
  }

  lemma TileAt(screenWidth: nat, screenHeight: nat, panel: nat, columns: nat, rows: nat, px: int, py: int)
    returns (cx: nat, cy: nat)
    requires panel <= screenHeight < 0x1_0000_0000
    requires 0 < columns <= screenWidth && 0 < rows <= screenHeight - panel
    requires 0 <= px < screenWidth && panel <= py < screenHeight
    ensures cx < columns && cy < rows
    ensures Inside(TileRect(screenWidth, screenHeight, panel, columns, rows, cx, cy), px, py)
  {
    cx := CellOf(screenWidth, columns, px);
    cy := CellOf(screenHeight - panel, rows, py - panel);
    ProductStep(cx, screenWidth / columns);
    ProductStep(cy, (screenHeight - panel) / rows);
  }

  lemma TileInArea(
      screenWidth: nat, screenHeight: nat, panel: nat, columns: nat, rows: nat, cx: nat, cy: nat, px: int, py: int)
    requires panel <= screenHeight < 0x1_0000_0000
    requires 0 < columns <= screenWidth && 0 < rows <= screenHeight - panel && cx < columns && cy < rows
    requires Inside(TileRect(screenWidth, screenHeight, panel, columns, rows, cx, cy), px, py)
    ensures 0 <= px < screenWidth && panel <= py < screenHeight
  {
    CellInside(screenWidth, columns, cx);
    CellInside(screenHeight - panel, rows, cy);
  }

  lemma CellInside(size: nat, count: nat, c: nat)
    requires 0 < count <= size && c < count
    ensures var s := size / count;
            0 <= s * c <= size && s > 0 && (c > 0 ==> s * c >= 1) && (c < count - 1 ==> s * c + s <= size)
  {
    var s := size / count;
    QuotientBounds(size, count);
    ProductMonotone(c, count, s);
    if c > 0 {
      ProductMonotone(1, c, s);
    }
    if c < count - 1 {
      ProductMonotone(c + 1, count, s);
      ProductStep(c, s);
    }
  }

  // ------------------------------------------------------------------- untiling

  /** If w is tiled, it stays tiled and remembers the same geometry. */
  ghost predicate StaysTiled(d: Desktop, e: Desktop, w: Wid) {
    w in d.heap && d.heap[w].tiled ==> w in e.heap && e.heap[w].tiled && e.heap[w].untiled == d.heap[w].untiled
  }

  /** All tiled windows do. */
  ghost predicate KeepsTiling(d: Desktop, e: Desktop) {
    forall w :: StaysTiled(d, e, w)
  }

  /** Every window keeps its tiling fields. */
  ghost predicate SameTiling(d: Desktop, e: Desktop) {
    forall w :: w in d.heap ==>
      w in e.heap && e.heap[w].tiled == d.heap[w].tiled && e.heap[w].untiled == d.heap[w].untiled
  }

  lemma FocusTiling(d: Desktop, target: Option<Wid>)
    requires Closed(d) && (target.Some? ==> target.value in d.heap)
    ensures SameTiling(d, Focus(d, target))
  {
    if target != d.focused {
      var d1 := if target.Some? then Restore(d, target.value) else d;
      assert SameTiling(d, d1);
      var t := if target.Some? then target else d1.bottom;
      if t.Some? {
        assert SameTiling(d1, Raise(d1.(focused := t), t.value));
      }
    }
  }

  lemma RefocusTiling(d: Desktop)
    requires Closed(d)
    ensures SameTiling(d, Refocus(d))
  {
    assert d.menu != [] ==> d.menu[|d.menu| - 1] in d.menu;
    assert d.mid != [] ==> d.mid[|d.mid| - 1] in d.mid;
    FocusTiling(d.(focused := None), Successor(d));
  }

  lemma DetachTiling(d: Desktop, w: Wid)
    requires w in d.heap && Closed(d)
    ensures SameTiling(d, Mark(Detach(d, w), w)) && Closed(Mark(Detach(d, w), w))
  {
  }

  lemma CloseTiling(d: Desktop, w: Wid)
    requires w in d.heap && Closed(d)
    ensures SameTiling(d, Close(d, w))
  {
    DetachTiling(d, w);
    if d.focused == Some(w) {
      RefocusTiling(Mark(Detach(d, w), w));
    }
  }

  lemma MinimizedTiling(d: Desktop, w: Wid)
    requires w in d.heap && Closed(d)
    ensures var d1 := Detach(d, w);
            var d2 := Put(d1, w, d1.heap[w].(minimized := true, effect := NoEffect));
            SameTiling(d, d2) && Closed(d2)
  {
  }

  lemma FinishMinimizeTiling(d: Desktop, w: Wid)
    requires w in d.heap && Closed(d)
    ensures SameTiling(d, FinishMinimize(d, w))
  {
    if !d.heap[w].minimized {
      var d1 := Detach(d, w);
      var d2 := Put(d1, w, d1.heap[w].(minimized := true, effect := NoEffect));
      MinimizedTiling(d, w);
      if d.focused == Some(w) {
        RefocusTiling(d2);
      }
    }
  }

  lemma {:induction false} CloseAllTiling(d: Desktop, ws: seq<Wid>)
    requires Tidy(d) && NoDup(ws) && forall w :: w in ws ==> w in d.windows
    ensures SameTiling(d, CloseAll(d, ws))
    decreases |ws|
  {
    if ws != [] {
      var w := ws[|ws| - 1];
      CloseTidy(d, w);
      CloseTiling(d, w);
      CloseAllTiling(Close(d, w), ws[..|ws| - 1]);
    }
  }

  lemma {:induction false} MinimizeAllTiling(d: Desktop, ws: seq<Wid>)
    requires Tidy(d) && forall w :: w in ws ==> w in d.windows
    ensures SameTiling(d, MinimizeAll(d, ws))
    decreases |ws|
  {
    if ws != [] {
      var w := ws[|ws| - 1];
      TidyIsClosed(d);
      FinishMinimizeTidy(d, w);
      FinishMinimizeTiling(d, w);
      MinimizeAllTiling(FinishMinimize(d, w), ws[..|ws| - 1]);
    }
  }

  lemma UnorderTiling(d: Desktop, w: Wid)
    requires w in d.heap
    ensures SameTiling(d, Unorder(d, w))
  {
  }

  lemma SettleTiling(d: Desktop, w: Wid, z: nat)
    requires w in d.heap
    ensures SameTiling(d, Settle(d, w, z))
  {
  }

  lemma ReorderTiling(d: Desktop, w: Wid, z: nat)
    requires Closed(d) && w in d.heap
    ensures SameTiling(d, Reorder(d, w, z))
  {
    UnorderTiling(d, w);
    var d1 := Unorder(d, w);
    if OwnerOf(z) == TopSlot && d1.top.Some? {
      UnorderTiling(d1, d1.top.value);
      d1 := Unorder(d1, d1.top.value);
    } else if OwnerOf(z) == BottomSlot && d1.bottom.Some? {
      UnorderTiling(d1, d1.bottom.value);
      d1 := Unorder(d1, d1.bottom.value);
    }
    SettleTiling(d1, w, z);
    assert Reorder(d, w, z) == Settle(d1, w, z);
  }

  lemma MoveTiling(d: Desktop, w: Wid, x: int, y: int)
    requires w in d.heap
    ensures SameTiling(d, Move(d, w, x, y))
  {
  }

  lemma TileTiling(d: Desktop, w: Wid, columns: int, rows: int, cx: int, cy: int)
    requires w in d.heap && Closed(d) && columns > 0 && rows > 0
    ensures KeepsTiling(d, Tile(d, w, columns, rows, cx, cy))
  {
    var win := d.heap[w];
    var cell := TileRect(d.screenWidth, d.screenHeight, PanelHeight(d), columns, rows, cx, cy);
    MoveTiling(if win.tiled then d else Put(d, w, win.(tiled := true, untiled := Frame(win))), w, cell.x, cell.y);
  }

  lemma FlipTiling(d: Desktop, w: Wid)
    requires w in d.heap
    ensures SameTiling(d, Flip(d, w)) && SameTiling(d, Accept(d, w))
  {
  }

  lemma DoneTiling(d: Desktop, w: Wid, width: int, height: int)
    requires w in d.heap
    ensures SameTiling(d, Done(d, w, width, height))
  {
  }

  lemma MarkForCloseTiling(d: Desktop, w: Wid)
    requires w in d.heap && Closed(d)
    ensures SameTiling(d, MarkForClose(d, w))
  {
    CloseTiling(d, w);
  }

  lemma StepWindowTiling(d: Desktop, w: Wid, e: Event)
    requires Tidy(d) && Allowed(d, e) && w in d.windows && w in d.heap && !e.Maximize?
    ensures KeepsTiling(d, StepWindow(d, w, e))
  {
    TidyIsClosed(d);
    match e
    case FlipWindow(_) => FlipTiling(d, w);
    case MoveWindow(_, x, y) => MoveTiling(d, w, x, y);
    case CloseWindow(_) => MarkForCloseTiling(d, w);
    case StackWindow(_, z) => ReorderTiling(d, w, Short(z));
    case ResizeAccept(_) => FlipTiling(d, w);
    case ResizeDone(_, width, height) => DoneTiling(d, w, width, height);
    case FocusWindow(_) => FocusTiling(d, Some(w));
    case _ =>
  }

  lemma PhaseTiling(d: Desktop, e: Desktop, removed: seq<Wid>, minimized: seq<Wid>)
    requires Tidy(e) && SameTiling(d, e) && NoDup(removed)
    requires (forall w :: w in removed ==> w in e.windows)
    requires forall w :: w in minimized ==> w in e.windows && w !in removed
    ensures SameTiling(d, MinimizeAll(CloseAll(e, removed), minimized))
  {
    CloseAllTiling(e, removed);
    MinimizeAllTiling(CloseAll(e, removed), minimized);
  }

  lemma RedrawTiling(d: Desktop, expired: set<Wid>)
    requires Tidy(d)
    ensures SameTiling(d, RedrawStep(d, expired))
  {
    ToRemoveNoDup(d, expired);
    ToMinimizeNoDup(d, expired);
    EndEffectsTidy(d, expired);
    PhaseTiling(d, EndEffects(d, expired), ToRemove(d, expired), ToMinimize(d, expired));
  }

  lemma CreateTiling(d: Desktop, width: int, height: int, style: Style)
    requires Tidy(d)
    ensures SameTiling(d, Create(d, width, height, style))
  {
  }

  lemma NewTiling(d: Desktop, width: int, height: int, style: Style)
    requires Tidy(d)
    ensures var c := Create(d, width, height, style);
            Closed(c) && SameTiling(d, c) && SameTiling(d, Focus(c, Some(d.nextWid)))
  {
    var c := Create(d, width, height, style);
    CreateTiling(d, width, height, style);
    CreateTidy(d, width, height, style);
    TidyIsClosed(c);
    FocusTiling(c, Some(d.nextWid));
  }

  /** Toggling one window leaves the others alone. */
  lemma ToggleTiling(d: Desktop, v: Wid, w: Wid)
    requires v in d.heap && Closed(d) && v != w
    ensures StaysTiled(d, Untile(d, v), w) && StaysTiled(d, Tile(d, v, 1, 1, 0, 0), w)
  {
    TileTiling(d, v, 1, 1, 0, 0);
  }

  lemma InputTiling(d: Desktop, e: Event)
    requires Tidy(d) && Allowed(d, e) && (e.New? || e.FocusAt? || e.TileFocused?)
    ensures KeepsTiling(d, Step(d, e))
  {
    TidyIsClosed(d);
    match e
    case New(width, height, style, _) => NewTiling(d, width, height, style);
    case FocusAt(hit) => FocusTiling(d, hit);
    case TileFocused(columns, rows, cx, cy) =>
      if d.focused.None? {
        FocusTiling(d, d.bottom);
      } else {
        TileTiling(d, d.focused.value, columns, rows, cx, cy);
      }
  }

  /** Only a maximise request about a window ends its tiling. */
  lemma StepTiling(d: Desktop, e: Event, w: Wid)
    requires Tidy(d) && Allowed(d, e) && e != Maximize(w)
    ensures StaysTiled(d, Step(d, e), w)
  {
    TidyIsClosed(d);
    if e.New? || e.FocusAt? || e.TileFocused? {
      InputTiling(d, e);
    } else if e.Redraw? {
      RedrawTiling(d, e.expired);
    } else if e.w in d.windows {
      if e.Maximize? {
        ToggleTiling(d, e.w, w);
      } else {
        StepWindowTiling(d, e.w, e);
      }
    }
  }

  /** No request of the run toggles the tiling of w. */
  predicate NoToggle(es: seq<Event>, w: Wid) {
    forall i :: 0 <= i < |es| ==> es[i] != Maximize(w)
  }

  lemma {:induction false} RunTiling(d: Desktop, es: seq<Event>, w: Wid)
    requires Tidy(d) && AllowedRun(d, es) && NoToggle(es, w)
    ensures StaysTiled(d, Run(d, es), w)
    decreases |es|
  {
    if es != [] {
      StepTiling(d, es[0], w);
      RunTiling(Step(d, es[0]), es[1..], w);
    }
  }

  lemma TileRemembers(d: Desktop, w: Wid, columns: int, rows: int, cx: int, cy: int)
    requires w in d.heap && Closed(d) && !d.heap[w].tiled && columns > 0 && rows > 0
    ensures var t := Tile(d, w, columns, rows, cx, cy);
            w in t.heap && t.heap[w].tiled && t.heap[w].untiled == Frame(d.heap[w])
  {
  }

  /** The geometry that untiling goes back to, and the size it offers. */
  ghost predicate GoesBackTo(e: Desktop, w: Wid, frame: Rect) {
    w in e.heap && e.heap[w].tiled &&
    Untile(e, w).heap[w].x == frame.x && Untile(e, w).heap[w].y == frame.y &&
    e.heap[w].untiled.width == frame.width && e.heap[w].untiled.height == frame.height
  }

  lemma RemembersToTheEnd(t: Desktop, w: Wid, frame: Rect, es: seq<Event>)
    requires Tidy(t) && AllowedRun(t, es) && NoToggle(es, w)
    requires w in t.heap && t.heap[w].tiled && t.heap[w].untiled == frame
    ensures GoesBackTo(Run(t, es), w, frame)
  {
    RunTiling(t, es, w);
  }

  /** Tile a window, then let anything happen, further tilings, moves and resizes
      included: untiling moves it back to where it was and offers its old size. */
  lemma UntileRestores(d: Desktop, w: Wid, columns: int, rows: int, cx: int, cy: int, es: seq<Event>)
    requires Tidy(d) && w in d.windows && w in d.heap && !d.heap[w].tiled && columns > 0 && rows > 0
    requires Tidy(Tile(d, w, columns, rows, cx, cy)) && AllowedRun(Tile(d, w, columns, rows, cx, cy), es)
    requires NoToggle(es, w)
    ensures GoesBackTo(Run(Tile(d, w, columns, rows, cx, cy), es), w, Frame(d.heap[w]))
  {
    TidyIsClosed(d);
    TileRemembers(d, w, columns, rows, cx, cy);
    RemembersToTheEnd(Tile(d, w, columns, rows, cx, cy), w, Frame(d.heap[w]), es);
  }
}
