/**
  Damage covers change, event by event: for which events every pixel that may differ
  lies in a rectangle that was queued (apps/compositor.c).
 */
module CompositorDamage {
  import opened Basics
  import opened CompositorState
  import opened CompositorInvariant
  import opened CompositorSteps
  import opened CompositorPixels

  /** The same windows lie over a pixel, from the same places. */
  ghost predicate SamePile(d: Desktop, e: Desktop, px: int, py: int) {
    Layers(d, px, py) == Layers(e, px, py) &&
    forall w :: w in Layers(d, px, py) ==> d.heap[w].x == e.heap[w].x && d.heap[w].y == e.heap[w].y
  }

  /** Damage is only added, and wherever other windows lie there is some. */
  ghost predicate Repaired(d: Desktop, e: Desktop) {
    d.updates <= e.updates && forall px: int, py: int :: Damaged(d, e, px, py) || SamePile(d, e, px, py)
  }

  // ------------------------------------------------------------ what it comes down to

  /** Where nothing is queued, a pixel changes only because the background is cleared
      in one of the two pictures. */
  lemma RepairedChange(d: Desktop, e: Desktop, brush: Brush, stale: Color, px: int, py: int)
    requires Repaired(d, e) && (Cleared(d) == Cleared(e) || stale == BLACK)
    requires Composite(d, brush, stale, px, py) != Composite(e, brush, stale, px, py)
    ensures Damaged(d, e, px, py)
  {
    if SamePile(d, e, px, py) {
      PaintAgree(d, e, brush, Layers(d, px, py), px, py, if Cleared(d) then BLACK else stale);
    }
  }

  /** Clearing it shows wherever the windows are transparent. */
  lemma ClearingShows(d: Desktop, e: Desktop, stale: Color, px: int, py: int)
    requires Cleared(d) != Cleared(e) && stale != BLACK
    ensures Composite(d, Transparent(), stale, px, py) != Composite(e, Transparent(), stale, px, py)
  {
    TransparentPaint(d, Layers(d, px, py), px, py, if Cleared(d) then BLACK else stale);
    TransparentPaint(e, Layers(e, px, py), px, py, if Cleared(e) then BLACK else stale);
  }

  lemma RepairedTrans(a: Desktop, b: Desktop, c: Desktop)
    requires Repaired(a, b) && Repaired(b, c)
    ensures Repaired(a, c)
  {
    forall px: int, py: int ensures Damaged(a, c, px, py) || SamePile(a, c, px, py) {
      DamageStays(a, b, c, px, py);
    }
  }

  lemma SceneRepaired(d: Desktop, e: Desktop)
    requires SameScene(d, e) && d.updates <= e.updates
    ensures Repaired(d, e)
  {
    forall px: int, py: int ensures SamePile(d, e, px, py) {
      SceneComposite(d, e, Transparent(), BLACK, px, py);
    }
  }

  // ------------------------------------------------------------------- the operations

  /** A window that keeps its place. */
  lemma PutRepaired(d: Desktop, w: Wid, win: Window)
    requires w in d.heap && Frame(win) == Frame(d.heap[w]) && Shown(win) == Shown(d.heap[w])
    ensures Repaired(d, Put(d, w, win))
  {
    var e := Put(d, w, win);
    forall px: int, py: int ensures SamePile(d, e, px, py) {
      SelectAgree(PaintOrder(d), CoversAt(d, px, py), CoversAt(e, px, py));
    }
  }

  /** A pixel that the window covers neither before nor after. */
  lemma PutElsewhere(d: Desktop, w: Wid, win: Window, px: int, py: int)
    requires !Covers(d, w, px, py) && !Covers(Put(d, w, win), w, px, py)
    ensures SamePile(d, Put(d, w, win), px, py)
  {
    SelectAgree(PaintOrder(d), CoversAt(d, px, py), CoversAt(Put(d, w, win), px, py));
  }

  /** A window that is changed between two marks. */
  lemma ReplaceRepaired(d: Desktop, w: Wid, win: Window)
    requires w in d.heap
    ensures Repaired(d, Mark(Put(Mark(d, w), w, win), w))
  {
    var m := Mark(d, w);
    var p := Put(m, w, win);
    var e := Mark(p, w);
    forall px: int, py: int ensures Damaged(d, e, px, py) || SamePile(d, e, px, py) {
      if Covers(d, w, px, py) {
        MarkDamages(d, d, w, px, py);
        DamageStays(d, m, e, px, py);
      } else if Covers(p, w, px, py) {
        MarkDamages(d, p, w, px, py);
      } else {
        SceneRepaired(d, m);
        SceneComposite(d, m, Transparent(), BLACK, px, py);
        PutElsewhere(m, w, win, px, py);
        SceneComposite(p, e, Transparent(), BLACK, px, py);
      }
    }
  }

  lemma MoveRepaired(d: Desktop, w: Wid, x: int, y: int)
    requires w in d.heap
    ensures Repaired(d, Move(d, w, x, y))
  {
    ReplaceRepaired(d, w, d.heap[w].(x := x, y := y));
  }

  lemma TileRepaired(d: Desktop, w: Wid, columns: int, rows: int, cx: int, cy: int)
    requires w in d.heap && Closed(d) && columns > 0 && rows > 0
    ensures Repaired(d, Tile(d, w, columns, rows, cx, cy))
  {
    var win := d.heap[w];
    var cell := TileRect(d.screenWidth, d.screenHeight, PanelHeight(d), columns, rows, cx, cy);
    if win.tiled {
      MoveRepaired(d, w, cell.x, cell.y);
    } else {
      var d1 := Put(d, w, win.(tiled := true, untiled := Frame(win)));
      PutRepaired(d, w, win.(tiled := true, untiled := Frame(win)));
      MoveRepaired(d1, w, cell.x, cell.y);
      RepairedTrans(d, d1, Move(d1, w, cell.x, cell.y));
    }
  }

  lemma UntileRepaired(d: Desktop, w: Wid)
    requires w in d.heap
    ensures Repaired(d, Untile(d, w))
  {
    var win := d.heap[w].(tiled := false);
    PutRepaired(d, w, win);
    MoveRepaired(Put(d, w, win), w, win.untiled.x, win.untiled.y);
    RepairedTrans(d, Put(d, w, win), Untile(d, w));
  }

  lemma DoneRepaired(d: Desktop, w: Wid, width: int, height: int)
    requires w in d.heap
    ensures Repaired(d, Done(d, w, width, height))
  {
    var win := d.heap[w];
    if win.newbufid == 0 {
      SceneRepaired(d, d);
    } else {
      var win' := win.(width := width, height := height, bufid := win.newbufid, newbufid := 0);
      var p := Put(Mark(d, w), w, win');
      ReplaceRepaired(d, w, win');
      SceneRepaired(Mark(p, w), Done(d, w, width, height));
      RepairedTrans(d, Mark(p, w), Done(d, w, width, height));
    }
  }

  lemma FlipRepaired(d: Desktop, w: Wid)
    requires w in d.heap
    ensures Repaired(d, Flip(d, w))
  {
    var win := d.heap[w];
    if win.hidden {
      var p := Put(d, w, win.(hidden := false, effect := PickEffect(win.style, false)));
      assert Mark(d, w) == d;
      ReplaceRepaired(d, w, p.heap[w]);
    } else {
      SceneRepaired(d, Mark(d, w));
    }
  }

  lemma RaiseRepaired(d: Desktop, w: Wid)
    requires w in d.heap
    ensures Repaired(d, Mark(Raise(d, w), w))
  {
    var r := Raise(d, w);
    forall px: int, py: int ensures Damaged(d, Mark(r, w), px, py) || SamePile(d, Mark(r, w), px, py) {
      if Covers(d, w, px, py) {
        MarkDamages(d, r, w, px, py);
      } else {
        RaiseLayers(d, w, px, py);
        SceneComposite(r, Mark(r, w), Transparent(), BLACK, px, py);
      }
    }
  }

  lemma AppendSelect(d: Desktop, e: Desktop, w: Wid, keep: Wid -> bool)
    requires e.bottom == d.bottom && e.overlay == d.overlay && e.menu == d.menu && e.top == d.top
    requires e.mid == d.mid + [w] && !keep(w)
    ensures Select(PaintOrder(e), keep) == Select(PaintOrder(d), keep)
  {
    assert Select(e.mid, keep) == Select(d.mid, keep) by {
      assert e.mid[..|e.mid| - 1] == d.mid;
    }
    SelectPaintOrder(d, keep);
    SelectPaintOrder(e, keep);
  }

  ghost predicate OthersKept(d: Desktop, e: Desktop, w: Wid) {
    forall v :: v != w ==> (v in d.heap <==> v in e.heap) && (v in d.heap ==> e.heap[v] == d.heap[v])
  }

  lemma OthersCover(d: Desktop, e: Desktop, w: Wid, px: int, py: int)
    requires OthersKept(d, e, w) && !Covers(d, w, px, py) && !Covers(e, w, px, py)
    ensures forall v :: Covers(e, v, px, py) == Covers(d, v, px, py)
  {
  }

  /** A window at the end of the middle stack that does not cover a pixel. */
  lemma AppendLayers(d: Desktop, e: Desktop, w: Wid, px: int, py: int)
    requires e.bottom == d.bottom && e.overlay == d.overlay && e.menu == d.menu && e.top == d.top
    requires e.mid == d.mid + [w] && !Covers(d, w, px, py) && !Covers(e, w, px, py)
    requires OthersKept(d, e, w)
    ensures SamePile(d, e, px, py)
  {
    OthersCover(d, e, w, px, py);
    SelectAgree(PaintOrder(e), CoversAt(e, px, py), CoversAt(d, px, py));
    AppendSelect(d, e, w, CoversAt(d, px, py));
  }

  /** A minimised window that comes back. */
  lemma RestoreRepaired(d: Desktop, w: Wid)
    requires w in d.heap && d.heap[w].minimized
    ensures Repaired(d, Mark(Raise(Restore(d, w), w), w))
  {
    var r := Restore(d, w);
    var e := Mark(Raise(r, w), w);
    forall px: int, py: int ensures Damaged(d, e, px, py) || SamePile(d, e, px, py) {
      if Covers(r, w, px, py) {
        MarkDamages(d, Raise(r, w), w, px, py);
      } else {
        AppendLayers(d, r, w, px, py);
        RaiseLayers(r, w, px, py);
        SceneComposite(Raise(r, w), e, Transparent(), BLACK, px, py);
      }
    }
  }

  lemma FocusRepaired(d: Desktop, target: Option<Wid>)
    requires Closed(d) && (target.Some? ==> target.value in d.heap)
    ensures Repaired(d, Focus(d, target))
  {
    var e := Focus(d, target);
    if target == d.focused {
      SceneRepaired(d, d);
    } else if target.Some? && d.heap[target.value].minimized {
      var r := Mark(Raise(Restore(d, target.value), target.value), target.value);
      RestoreRepaired(d, target.value);
      SceneRepaired(r, e);
      RepairedTrans(d, r, e);
    } else {
      var t := if target.Some? then target else d.bottom;
      if t.None? {
        SceneRepaired(d, e);
      } else {
        var r := Mark(Raise(d, t.value), t.value);
        RaiseRepaired(d, t.value);
        SceneRepaired(r, e);
        RepairedTrans(d, r, e);
      }
    }
  }

  lemma DetachRepaired(d: Desktop, w: Wid)
    requires w in d.heap
    ensures Repaired(d, Mark(Detach(d, w), w))
  {
    var f := Detach(d, w);
    forall px: int, py: int ensures Damaged(d, Mark(f, w), px, py) || SamePile(d, Mark(f, w), px, py) {
      if Covers(d, w, px, py) {
        MarkDamages(d, f, w, px, py);
      } else {
        DetachLayers(d, w, px, py);
        SceneComposite(f, Mark(f, w), Transparent(), BLACK, px, py);
      }
    }
  }

  lemma CloseRepaired(d: Desktop, w: Wid)
    requires Tidy(d) && w in d.windows && w in d.heap && Closed(d)
    ensures Repaired(d, Close(d, w))
  {
    var e := Mark(Detach(d, w), w);
    DetachRepaired(d, w);
    if d.focused == Some(w) {
      HeirReady(d, w);
      var e' := e.(focused := None);
      SceneRepaired(e, e');
      FocusRepaired(e', Successor(e));
      RepairedTrans(e, e', Refocus(e));
      RepairedTrans(d, e, Refocus(e));
      SceneRepaired(Refocus(e), Close(d, w));
      RepairedTrans(d, Refocus(e), Close(d, w));
    } else {
      SceneRepaired(e, Close(d, w));
      RepairedTrans(d, e, Close(d, w));
    }
  }

  lemma CreateRepaired(d: Desktop, width: int, height: int, style: Style)
    requires Tidy(d)
    ensures Repaired(d, Create(d, width, height, style))
  {
    var e := Create(d, width, height, style);
    forall px: int, py: int ensures SamePile(d, e, px, py) {
      AppendLayers(d, e, d.nextWid, px, py);
    }
  }

  lemma AcceptRepaired(d: Desktop, w: Wid)
    requires w in d.heap
    ensures Repaired(d, Accept(d, w))
  {
    var p := Put(d, w, d.heap[w].(newbufid := d.nextBuf));
    SceneRepaired(d, d);
    PutRepaired(d, w, d.heap[w].(newbufid := d.nextBuf));
    SceneRepaired(p, p.(nextBuf := d.nextBuf + 1));
    RepairedTrans(d, p, p.(nextBuf := d.nextBuf + 1));
  }

  lemma MarkForCloseRepaired(d: Desktop, w: Wid)
    requires Tidy(d) && w in d.windows && w in d.heap && Closed(d)
    ensures Repaired(d, MarkForClose(d, w))
  {
    if Shown(d.heap[w]) {
      PutRepaired(d, w, d.heap[w].(effect := PickEffect(d.heap[w].style, true)));
    } else {
      CloseRepaired(d, w);
    }
  }

  // ----------------------------------------------------------------------- the events

  lemma MessageRepaired(d: Desktop, w: Wid, e: Event)
    requires Tidy(d) && Allowed(d, e) && w in d.windows && w in d.heap && !e.StackWindow?
    ensures Repaired(d, StepWindow(d, w, e))
  {
    TidyIsClosed(d);
    SceneRepaired(d, d);
    match e
    case FlipWindow(_) => FlipRepaired(d, w);
    case MoveWindow(_, x, y) => MoveRepaired(d, w, x, y);
    case CloseWindow(_) => MarkForCloseRepaired(d, w);
    case ResizeAccept(_) => AcceptRepaired(d, w);
    case ResizeDone(_, width, height) => DoneRepaired(d, w, width, height);
    case FocusWindow(_) => FocusRepaired(d, Some(w));
    case MinimizeWindow(_) => PutRepaired(d, w, d.heap[w].(effect := Minimize));
    case Advertise(_, named) => PutRepaired(d, w, d.heap[w].(advertised := named));
    case Maximize(_) =>
      UntileRepaired(d, w);
      TileRepaired(d, w, 1, 1, 0, 0);
    case _ =>
  }

  lemma NewRepaired(d: Desktop, width: int, height: int, style: Style)
    requires Tidy(d)
    ensures var c := Create(d, width, height, style);
            Tidy(c) && Closed(c) && Repaired(d, c) && Repaired(d, Focus(c, Some(d.nextWid)))
  {
    var c := Create(d, width, height, style);
    CreateTidy(d, width, height, style);
    TidyIsClosed(c);
    CreateRepaired(d, width, height, style);
    FocusRepaired(c, Some(d.nextWid));
    RepairedTrans(d, c, Focus(c, Some(d.nextWid)));
  }

  lemma EventRepaired(d: Desktop, e: Event)
    requires Tidy(d) && Allowed(d, e) && !e.StackWindow? && !e.Redraw?
    ensures Repaired(d, Step(d, e))
  {
    TidyIsClosed(d);
    SceneRepaired(d, d);
    match e
    case New(width, height, style, _) => NewRepaired(d, width, height, style);
    case FocusAt(hit) => FocusRepaired(d, hit);
    case TileFocused(columns, rows, cx, cy) =>
      if d.focused.None? {
        FocusRepaired(d, d.bottom);
      } else {
        TileRepaired(d, d.focused.value, columns, rows, cx, cy);
      }
    case StackWindow(_, _) =>
    case Redraw(_) =>
    case _ =>
      if e.w in d.windows {
        MessageRepaired(d, e.w, e);
      }
  }

  /** The events after which the background is cleared and was not before, or the other
      way round: the bottom window closes, starts an animation, or is shown without one. */
  predicate Toggles(d: Desktop, e: Event) {
    (e.CloseWindow? || e.MinimizeWindow? || e.FlipWindow?) && d.bottom == Some(e.w) && e.w in d.heap &&
    var win := d.heap[e.w];
    match e
    case CloseWindow(_) => win.effect == NoEffect
    case MinimizeWindow(_) => win.advertised && win.effect == NoEffect
    case FlipWindow(_) => win.hidden && (win.effect == NoEffect <==> PickEffect(win.style, false) != NoEffect)
    case _ => false
  }

  lemma MoveCleared(d: Desktop, w: Wid, x: int, y: int)
    requires w in d.heap
    ensures Cleared(Move(d, w, x, y)) == Cleared(d)
  {
  }

  lemma TileCleared(d: Desktop, w: Wid, columns: int, rows: int, cx: int, cy: int)
    requires w in d.heap && Closed(d) && columns > 0 && rows > 0
    ensures Cleared(Tile(d, w, columns, rows, cx, cy)) == Cleared(d) && Cleared(Untile(d, w)) == Cleared(d)
  {
  }

  lemma FocusCleared(d: Desktop, target: Option<Wid>)
    requires Tidy(d) && Closed(d) && (target.Some? ==> target.value in d.windows)
    ensures Cleared(Focus(d, target)) == Cleared(d)
  {
  }

  lemma CloseCleared(d: Desktop, w: Wid)
    requires Tidy(d) && w in d.windows && w in d.heap && Closed(d)
    ensures Cleared(Close(d, w)) <==> Cleared(d) || Uncovers(d, w)
  {
    HeirReady(d, w);
    DetachCleared(d, w);
  }

  lemma PutCleared(d: Desktop, w: Wid, win: Window)
    requires w in d.heap
    ensures Cleared(Put(d, w, win)) != Cleared(d) <==>
            d.bottom == Some(w) && (win.effect == NoEffect <==> d.heap[w].effect != NoEffect)
  {
  }

  lemma MarkForCloseCleared(d: Desktop, w: Wid)
    requires Tidy(d) && w in d.windows && w in d.heap && Closed(d)
    ensures Cleared(MarkForClose(d, w)) != Cleared(d) <==> Uncovers(d, w)
  {
    if Shown(d.heap[w]) {
      PutCleared(d, w, d.heap[w].(effect := PickEffect(d.heap[w].style, true)));
    } else {
      CloseCleared(d, w);
    }
  }

  lemma FlipCleared(d: Desktop, w: Wid)
    requires w in d.heap
    ensures Cleared(Flip(d, w)) != Cleared(d) <==> Toggles(d, FlipWindow(w))
  {
    var win := d.heap[w];
    PutCleared(d, w, win.(hidden := false, effect := PickEffect(win.style, false)));
  }

  lemma DoneCleared(d: Desktop, w: Wid, width: int, height: int)
    requires w in d.heap
    ensures Cleared(Done(d, w, width, height)) == Cleared(d) && Cleared(Accept(d, w)) == Cleared(d)
  {
  }

  lemma MessageCleared(d: Desktop, w: Wid, e: Event)
    requires Tidy(d) && Allowed(d, e) && w in d.windows && w in d.heap && !e.StackWindow?
    requires !e.New? && !e.FocusAt? && !e.TileFocused? && !e.Redraw? && e.w == w
    ensures Cleared(StepWindow(d, w, e)) != Cleared(d) <==> Toggles(d, e)
  {
    TidyIsClosed(d);
    var win := d.heap[w];
    match e
    case FlipWindow(_) => FlipCleared(d, w);
    case MoveWindow(_, x, y) => MoveCleared(d, w, x, y);
    case CloseWindow(_) => MarkForCloseCleared(d, w);
    case ResizeAccept(_) => DoneCleared(d, w, 0, 0);
    case ResizeDone(_, width, height) => DoneCleared(d, w, width, height);
    case FocusWindow(_) => FocusCleared(d, Some(w));
    case MinimizeWindow(_) => PutCleared(d, w, win.(effect := Minimize));
    case Advertise(_, named) => PutCleared(d, w, win.(advertised := named));
    case Maximize(_) => TileCleared(d, w, 1, 1, 0, 0);
    case _ =>
  }

  lemma EventCleared(d: Desktop, e: Event)
    requires Tidy(d) && Allowed(d, e) && !e.StackWindow? && !e.Redraw?
    ensures Cleared(Step(d, e)) != Cleared(d) <==> Toggles(d, e)
  {
    TidyIsClosed(d);
    match e
    case New(width, height, style, _) =>
      NewRepaired(d, width, height, style);
      FocusCleared(Create(d, width, height, style), Some(d.nextWid));
    case FocusAt(hit) => FocusCleared(d, hit);
    case TileFocused(columns, rows, cx, cy) =>
      if d.focused.None? {
        FocusCleared(d, d.bottom);
      } else {
        TileCleared(d, d.focused.value, columns, rows, cx, cy);
      }
    case StackWindow(_, _) =>
    case Redraw(_) =>
    case _ =>
      if e.w in d.windows {
        MessageCleared(d, e.w, e);
      }
  }

  /** What such an event queues itself. */
  predicate Queues(d: Desktop, e: Event, px: int, py: int) {
    (e.CloseWindow? || e.FlipWindow?) && e.w in d.heap &&
    var win := d.heap[e.w];
    if e.FlipWindow? then !win.minimized && Inside(Frame(win), px, py)
    else !Shown(win) && CloseQueues(d, e.w, px, py)
  }

  lemma TogglesQueue(d: Desktop, e: Event, px: int, py: int)
    requires Tidy(d) && Allowed(d, e) && Toggles(d, e)
    ensures Damaged(d, Step(d, e), px, py) <==> Queues(d, e, px, py)
  {
    TidyIsClosed(d);
    var w := e.w;
    assert w in d.windows;
    var win := d.heap[w];
    match e
    case CloseWindow(_) =>
      if !Shown(win) {
        CloseQueuesExactly(d, w, px, py);
      }
    case FlipWindow(_) =>
      var p := Put(d, w, win.(hidden := false, effect := PickEffect(win.style, false)));
      DamageOfMark(d, p, w, px, py);
    case _ =>
  }

  predicate InMotion(d: Desktop, w: Wid, px: int, py: int) {
    w in d.heap && d.heap[w].effect != NoEffect &&
    (Covers(d, w, px, py) || (w in d.mid && (d.heap[w].effect == Minimize || d.heap[w].effect == Unminimize)))
  }

  /** What a redraw adds before it paints (apps/compositor.c:1182-1206): the windows in
      animation, and everything while one is being minimised or restored. */
  predicate Refreshed(d: Desktop, px: int, py: int) {
    exists w :: w in PaintOrder(d) && InMotion(d, w, px, py)
  }

  /** The pixel is painted when the next frame is. */
  ghost predicate Renewed(d: Desktop, e: Desktop, px: int, py: int) {
    Damaged(d, e, px, py) || Refreshed(e, px, py)
  }

  /** Whatever the windows show, each pixel that an event changes is painted with the next
      frame: this holds at a pixel if and only if the event does not toggle the background,
      or the pixel held black, or the event queues it, or the redraw does anyway. */
  lemma StepDamage(d: Desktop, e: Event, stale: Color, px: int, py: int)
    requires Tidy(d) && Allowed(d, e) && !e.StackWindow? && !e.Redraw?
    ensures (forall brush: Brush ::
               Composite(d, brush, stale, px, py) != Composite(Step(d, e), brush, stale, px, py) ==>
                 Renewed(d, Step(d, e), px, py)) <==>
            (!Toggles(d, e) || stale == BLACK || Queues(d, e, px, py) || Refreshed(Step(d, e), px, py))
  {
    EventCleared(d, e);
    if Toggles(d, e) && stale != BLACK {
      TogglesQueue(d, e, px, py);
      ClearingShows(d, Step(d, e), stale, px, py);
    } else {
      EventRepaired(d, e);
      forall brush: Brush | Composite(d, brush, stale, px, py) != Composite(Step(d, e), brush, stale, px, py)
        ensures Renewed(d, Step(d, e), px, py)
      {
        RepairedChange(d, Step(d, e), brush, stale, px, py);
      }
    }
  }

  /** All other events queue every pixel that they change themselves. */
  lemma StepQueues(d: Desktop, e: Event)
    requires Tidy(d) && Allowed(d, e) && !e.StackWindow? && !e.Redraw? && !Toggles(d, e)
    ensures ChangesAreDamaged(d, Step(d, e))
  {
    EventRepaired(d, e);
    EventCleared(d, e);
    forall brush: Brush, stale: Color, px: int, py: int |
        Composite(d, brush, stale, px, py) != Composite(Step(d, e), brush, stale, px, py)
      ensures Damaged(d, Step(d, e), px, py)
    {
      RepairedChange(d, Step(d, e), brush, stale, px, py);
    }
  }

  // --------------------------------------------------------------------- where it fails

  /** Windows that are opaque and tell which one they are. */
  function Opaque(): Brush {
    (w: Wid, x: int, y: int, under: Color) => w
  }

  lemma RestackedOnTop(d: Desktop, w: Wid, px: int, py: int)
    requires Tidy(d) && w in d.windows && w in d.heap && Closed(d) && Covers(d, w, px, py)
    ensures Last(Layers(Reorder(d, w, Z_TOP), px, py)) == Some(w)
  {
    var e := Reorder(d, w, Z_TOP);
    assert e.top == Some(w);
    assert Covers(e, w, px, py);
    SelectPaintOrder(e, CoversAt(e, px, py));
    assert Select([w], CoversAt(e, px, py)) == [w];
  }

  /** Restacking queues nothing: a covered window that is put into the top slot changes
      the picture and damages no pixel. */
  lemma RestackIsNotDamaged(d: Desktop, w: Wid, px: int, py: int)
    requires Tidy(d) && w in d.windows && w in d.heap && Closed(d)
    requires Covers(d, w, px, py) && Last(Layers(d, px, py)) != Some(w) && Layers(d, px, py) != []
    ensures Reorder(d, w, Z_TOP).updates == d.updates
    ensures forall stale: Color ::
              Composite(d, Opaque(), stale, px, py) != Composite(Reorder(d, w, Z_TOP), Opaque(), stale, px, py)
    ensures !ChangesAreDamaged(d, Reorder(d, w, Z_TOP))
  {
    var e := Reorder(d, w, Z_TOP);
    RestackedOnTop(d, w, px, py);
    forall stale: Color ensures Composite(d, Opaque(), stale, px, py) != Composite(e, Opaque(), stale, px, py) {
    }
    assert Composite(d, Opaque(), 0, px, py) != Composite(e, Opaque(), 0, px, py);
    assert !Damaged(d, e, px, py);
  }

  /** A client that makes a window, never shows it and puts it into the bottom slot. */
  function HiddenBottom(width: int, height: int, style: Style): seq<Event> {
    [New(width, height, style, false), StackWindow(1, Z_BOTTOM)]
  }

  lemma HiddenBottomRun(d: Desktop, width: int, height: int, style: Style)
    requires Tidy(d) && d.windows == [] && d.nextWid == 1 && d.focused.None?
    ensures AllowedRun(d, HiddenBottom(width, height, style))
    ensures var b := Run(d, HiddenBottom(width, height, style));
            1 in b.windows && 1 in b.heap && Uncovers(b, 1) && !Shown(b.heap[1]) && b.focused.None?
  {
    var es := HiddenBottom(width, height, style);
    var c := Create(d, width, height, style);
    assert es[1..] == [StackWindow(1, Z_BOTTOM)] && es[1..][1..] == [];
    assert Step(d, es[0]) == c;
    var b := Step(c, es[1]);
    assert AllowedRun(b, []);
    assert AllowedRun(c, es[1..]);
    assert Run(b, []) == b;
    assert Run(c, es[1..]) == b;
  }

  lemma HiddenBottomFails(b: Desktop, w: Wid, stale: Color, px: int, py: int)
    requires Tidy(b) && w in b.windows && w in b.heap && Uncovers(b, w) && !Shown(b.heap[w]) && b.focused.None?
    requires stale != BLACK
    ensures var c := Step(b, CloseWindow(w));
            Composite(b, Transparent(), stale, px, py) != Composite(c, Transparent(), stale, px, py) &&
            !Damaged(b, c, px, py)
  {
    TidyIsClosed(b);
    CloseBottomClears(b, w, stale, px, py);
    CloseQueuesExactly(b, w, px, py);
  }

  /** Closing a window does not always damage what it changes: this run leads there, and
      at every pixel that held another colour than black. */
  lemma CloseFails(screenWidth: nat, screenHeight: nat, width: int, height: int, style: Style, stale: Color,
                   px: int, py: int)
    requires stale != BLACK
    ensures var d := Start(screenWidth, screenHeight);
            var es := HiddenBottom(width, height, style);
            AllowedRun(d, es) &&
            var b := Run(d, es);
            var c := Step(b, CloseWindow(1));
            Composite(b, Transparent(), stale, px, py) != Composite(c, Transparent(), stale, px, py) &&
            !Damaged(b, c, px, py)
  {
    var d := Start(screenWidth, screenHeight);
    HiddenBottomRun(d, width, height, style);
    HiddenBottomFails(Run(d, HiddenBottom(width, height, style)), 1, stale, px, py);
  }
}
