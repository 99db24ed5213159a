/**
  What events do to the window they are about (apps/compositor.c:2696-3049), in terms of
  the window's fields, the stacks and the numbers of the protocol.
 */
module CompositorEvents {
  import opened Basics
  import opened CompositorState
  import opened CompositorInvariant
  import opened CompositorSteps
  import opened CompositorPixels

  // --------------------------------------------------------------------- one window

  /** A new window is the last of the middle stack, hidden, in the corner, with the size
      that was asked for; the others stay. */
  lemma NewDoes(d: Desktop, width: int, height: int, style: Style, stealFocus: bool)
    requires Tidy(d)
    ensures var r, w := Step(d, New(width, height, style, stealFocus)), d.nextWid;
            w !in d.windows && r.windows == d.windows + [w] && w in r.heap && r.heap[w].hidden &&
            Frame(r.heap[w]) == Rect(0, 0, width, height) && w in r.mid && r.mid[|r.mid| - 1] == w
  {
    var c, w := Create(d, width, height, style), d.nextWid;
    CreateTidy(d, width, height, style);
    TidyIsClosed(c);
    assert c.mid[|c.mid| - 1] == w && w in c.mid;
    if stealFocus && d.focused != Some(w) {
      RaiseLast(c.mid, w);
    }
  }

  lemma RaiseLast(s: seq<Wid>, w: Wid)
    requires w in s
    ensures w in ToEnd(s, w) && ToEnd(s, w)[|ToEnd(s, w)| - 1] == w
  {
  }

  /** After a flip the window is shown, unless it is minimised, and its place is queued last. */
  lemma FlipDoes(d: Desktop, w: Wid)
    requires Tidy(d) && w in d.windows && w in d.heap
    ensures var r := Step(d, FlipWindow(w));
            w in r.heap && !r.heap[w].hidden && Frame(r.heap[w]) == Frame(d.heap[w]) &&
            (!r.heap[w].minimized ==> r.updates == d.updates + [Frame(d.heap[w])]) &&
            (d.heap[w].hidden ==> !Closing(r.heap[w].effect)) &&
            r.heap[w].effect ==
              if !d.heap[w].hidden then d.heap[w].effect
              else match d.heap[w].style case Fading => FadeIn case Dialog => SqueezeIn case Plain => NoEffect
  {
    assert Step(d, FlipWindow(w)) == Flip(d, w);
  }

  /** A client may move a window to at most a screen beyond the left and upper edges, and
      100 pixels beyond the right and lower ones. */
  lemma MoveDoes(d: Desktop, w: Wid, x: int, y: int)
    requires Tidy(d) && w in d.windows && w in d.heap
    ensures var r, win := Step(d, MoveWindow(w, x, y)), d.heap[w];
            var ok := 0 <= x + d.screenWidth && x <= d.screenWidth + 100 &&
                      0 <= y + d.screenHeight && y <= d.screenHeight + 100;
            w in r.heap && r.heap[w] == if ok then win.(x := x, y := y) else win
  {
  }

  /** The size and the buffer change when a resize that is under way is done, and only then. */
  lemma DoneDoes(d: Desktop, w: Wid, width: int, height: int)
    requires Tidy(d) && w in d.windows && w in d.heap
    ensures var r, win := Step(d, ResizeDone(w, width, height)), d.heap[w];
            w in r.heap && (r.heap[w].x, r.heap[w].y) == (win.x, win.y) &&
            (if win.newbufid != 0
             then (r.heap[w].width, r.heap[w].height, r.heap[w].bufid) == (width, height, win.newbufid)
             else r.heap[w] == win)
  {
  }

  /** Only advertised windows are minimised on request. */
  lemma MinimizeDoes(d: Desktop, w: Wid)
    requires Tidy(d) && w in d.windows && w in d.heap
    ensures var r := Step(d, MinimizeWindow(w));
            w in r.heap && r.heap[w].effect == (if d.heap[w].advertised then Minimize else d.heap[w].effect) &&
            (d.heap[w].advertised ==> !Closing(r.heap[w].effect))
  {
  }

  lemma AdvertiseDoes(d: Desktop, w: Wid, named: bool)
    requires Tidy(d) && w in d.windows && w in d.heap
    ensures var r := Step(d, Advertise(w, named)); w in r.heap && r.heap[w] == d.heap[w].(advertised := named)
  {
  }

  /** A window that is shown closes with an animation, any other at once. */
  lemma CloseDoes(d: Desktop, w: Wid)
    requires Tidy(d) && w in d.windows && w in d.heap
    ensures var r := Step(d, CloseWindow(w));
            if d.heap[w].hidden || d.heap[w].minimized then w !in r.windows
            else r.windows == d.windows && w in r.heap && Closing(r.heap[w].effect) && r.heap[w].effect ==
                 match d.heap[w].style case Fading => FadeOut case Dialog => SqueezeOut case Plain => Disappear
  {
    TidyIsClosed(d);
    CloseTidy(d, w);
  }

  /** A minimised window that gets the focus comes back in front of the middle stack. */
  lemma RestoreDoes(d: Desktop, w: Wid)
    requires Tidy(d) && w in d.windows && w in d.heap && d.heap[w].minimized
    ensures var r := Step(d, FocusWindow(w));
            w in r.mid && r.mid[|r.mid| - 1] == w && w !in r.minimized && w in r.heap && !r.heap[w].minimized &&
            r.heap[w].effect == Unminimize && Frame(r.heap[w]) == Frame(d.heap[w])
  {
    TidyIsClosed(d);
    assert Step(d, FocusWindow(w)) == Focus(d, Some(w));
    RestoreInFront(d, w);
  }

  lemma RestoreInFront(d: Desktop, w: Wid)
    requires Closed(d) && w in d.heap && d.heap[w].minimized && d.focused != Some(w)
    ensures var r := Focus(d, Some(w));
            w in r.mid && r.mid[|r.mid| - 1] == w && w !in r.minimized && w in r.heap && !r.heap[w].minimized &&
            r.heap[w].effect == Unminimize && Frame(r.heap[w]) == Frame(d.heap[w])
  {
    RaiseLast(d.mid + [w], w);
  }

  // ------------------------------------------------------------------- other windows

  ghost predicate Untouched(d: Desktop, r: Desktop, v: Wid) {
    v in d.heap && v in r.heap && r.heap[v] == d.heap[v]
  }

  lemma EditsLeave(d: Desktop, w: Wid, v: Wid, x: int, y: int)
    requires w in d.heap && v in d.heap && v != w
    ensures Untouched(d, Flip(d, w), v) && Untouched(d, Accept(d, w), v) && Untouched(d, Done(d, w, x, y), v)
    ensures Untouched(d, Move(d, w, x, y), v) && Untouched(d, Untile(d, w), v)
  {
  }

  lemma TileLeaves(d: Desktop, w: Wid, v: Wid, columns: int, rows: int, cx: int, cy: int)
    requires w in d.heap && v in d.heap && v != w && Closed(d) && columns > 0 && rows > 0
    ensures Untouched(d, Tile(d, w, columns, rows, cx, cy), v)
  {
  }

  lemma FocusLeaves(d: Desktop, w: Wid, v: Wid)
    requires w in d.heap && v in d.heap && v != w && Closed(d)
    ensures Untouched(d, Focus(d, Some(w)), v)
  {
  }

  lemma MarkForCloseLeaves(d: Desktop, w: Wid, v: Wid)
    requires Tidy(d) && Closed(d) && w in d.windows && w in d.heap && v in d.heap && v != w
    ensures Untouched(d, MarkForClose(d, w), v)
  {
    if !Shown(d.heap[w]) {
      CloseLeaves(d, w, v);
    }
  }

  /** A message about one window, other than a restacking, leaves all others as they are. */
  lemma OthersStay(d: Desktop, w: Wid, e: Event, v: Wid)
    requires Tidy(d) && Allowed(d, e) && w in d.windows && w in d.heap && v in d.heap && v != w
    requires !e.New? && !e.FocusAt? && !e.TileFocused? && !e.Redraw? && !e.StackWindow? && e.w == w
    ensures Untouched(d, Step(d, e), v)
  {
    TidyIsClosed(d);
    assert Step(d, e) == StepWindow(d, w, e);
    MessageLeaves(d, w, e, v);
  }

  lemma MessageLeaves(d: Desktop, w: Wid, e: Event, v: Wid)
    requires Tidy(d) && Closed(d) && Allowed(d, e) && w in d.windows && w in d.heap && v in d.heap && v != w
    requires !e.StackWindow?
    ensures Untouched(d, StepWindow(d, w, e), v)
  {
    match e
    case MoveWindow(_, x, y) => EditsLeave(d, w, v, x, y);
    case CloseWindow(_) => MarkForCloseLeaves(d, w, v);
    case ResizeDone(_, width, height) => EditsLeave(d, w, v, width, height);
    case FocusWindow(_) => FocusLeaves(d, w, v);
    case Maximize(_) =>
      EditsLeave(d, w, v, 0, 0);
      TileLeaves(d, w, v, 1, 1, 0, 0);
    case _ => EditsLeave(d, w, v, 0, 0);
  }

  // ------------------------------------------------------------------------ stacking

  /** Where the numbers of the protocol (base/usr/include/toaru/yutani.h:336-340) put a window;
      any other is a place in the middle stack. */
  ghost predicate StackedAt(d: Desktop, w: Wid, z: nat, r: Desktop) {
    match z
    case 0 => r.bottom == Some(w)
    case 65535 => r.top == Some(w)
    case 65534 => r.menu == Without(d.menu, w) + [w]
    case 65517 => r.overlay == Without(d.overlay, w) + [w]
    case _ => r.mid == Without(d.mid, w) + [w]
  }

  lemma ReorderDoes(d: Desktop, w: Wid, z: nat)
    requires Closed(d) && w in d.heap
    ensures StackedAt(d, w, z, Reorder(d, w, z))
  {
  }

  lemma StepIsReorder(d: Desktop, w: Wid, z: int)
    requires Tidy(d) && w in d.windows && w in d.heap && Closed(d) && Allowed(d, StackWindow(w, z))
    ensures Step(d, StackWindow(w, z)) == Reorder(d, w, z % 0x1_0000)
  {
  }

  /** Of the number in the message the low 16 bits count. */
  lemma StackDoes(d: Desktop, w: Wid, z: int)
    requires Tidy(d) && w in d.windows && w in d.heap && Allowed(d, StackWindow(w, z))
    ensures StackedAt(d, w, z % 0x1_0000, Step(d, StackWindow(w, z)))
  {
    TidyIsClosed(d);
    StepIsReorder(d, w, z);
    ReorderDoes(d, w, z % 0x1_0000);
  }

  /** The layer that a z value names, from back to front. */
  function Layer(z: nat): int {
    if z == 0 then 0
    else if z == 65517 then 2
    else if z == 65534 then 3
    else if z == 65535 then 4
    else 1
  }

  ghost predicate InLayers(d: Desktop, s: seq<Wid>, lo: int, hi: int) {
    (forall w :: w in s ==> w in d.heap && lo <= Layer(d.heap[w].z) <= hi) &&
    forall i, j :: 0 <= i < j < |s| ==>
      s[i] in d.heap && s[j] in d.heap && Layer(d.heap[s[i]].z) <= Layer(d.heap[s[j]].z)
  }

  lemma LayersJoin(d: Desktop, a: seq<Wid>, b: seq<Wid>, lo: int, mid: int, hi: int)
    requires InLayers(d, a, lo, mid) && InLayers(d, b, mid, hi) && lo <= mid <= hi
    ensures InLayers(d, a + b, lo, hi)
  {
    forall i, j | 0 <= i < j < |a + b|
      ensures (a + b)[i] in d.heap && (a + b)[j] in d.heap
      ensures Layer(d.heap[(a + b)[i]].z) <= Layer(d.heap[(a + b)[j]].z)
    {
      assert i < |a| ==> (a + b)[i] in a;
      assert i >= |a| ==> (a + b)[i] == b[i - |a|];
      assert j >= |a| ==> (a + b)[j] == b[j - |a|] && b[j - |a|] in b;
    }
  }

  lemma OneLayer(d: Desktop, s: seq<Wid>, layer: int)
    requires forall w :: w in s ==> w in d.heap && Layer(d.heap[w].z) == layer
    ensures InLayers(d, s, layer, layer)
  {
    assert forall i :: 0 <= i < |s| ==> s[i] in s;
  }

  /** Windows are painted layer by layer: bottom, middle, overlays, menus, top. */
  lemma PaintedByLayer(d: Desktop)
    requires Tidy(d)
    ensures InLayers(d, PaintOrder(d), 0, 4)
  {
    OneLayer(d, Slot(d.bottom), 0);
    OneLayer(d, d.mid, 1);
    OneLayer(d, d.overlay, 2);
    OneLayer(d, d.menu, 3);
    OneLayer(d, Slot(d.top), 4);
    LayersJoin(d, Slot(d.bottom), d.mid, 0, 1, 1);
    LayersJoin(d, Slot(d.bottom) + d.mid, d.overlay, 0, 2, 2);
    LayersJoin(d, Slot(d.bottom) + d.mid + d.overlay, d.menu, 0, 3, 3);
    LayersJoin(d, Slot(d.bottom) + d.mid + d.overlay + d.menu, Slot(d.top), 0, 4, 4);
  }

  // ------------------------------------------------------------------------- clicking

  /** Without thresholds, what is hit is what is seen: the window in front. */
  lemma HitIsInFront(d: Desktop, alpha: Alpha, px: int, py: int)
    requires forall w :: w in d.heap ==> d.heap[w].alphaThreshold <= 0
    requires forall w, x, y :: alpha(w, x, y) >= 0
    ensures LastPaintedHit(d, alpha, px, py) == Last(Layers(d, px, py))
  {
    SelectAgree(PaintOrder(d), HitAt(d, alpha, px, py), CoversAt(d, px, py));
  }

  lemma OnlyOne(s: seq<Wid>, keep: Wid -> bool, w: Wid)
    requires w in s && forall v :: v in s && v != w ==> !keep(v)
    ensures Last(Select(s, keep)) == if keep(w) then Some(w) else None
  {
    var kept := Select(s, keep);
    LastNone(s, keep);
    if keep(w) {
      assert w in kept && kept[|kept| - 1] in kept;
    }
  }

  /** A window alone at a pixel is hit there if and only if it is at least as opaque as its threshold. */
  lemma OpaqueEnough(d: Desktop, alpha: Alpha, w: Wid, px: int, py: int)
    requires w in PaintOrder(d) && Covers(d, w, px, py)
    requires forall v :: v in PaintOrder(d) && v != w ==> !Covers(d, v, px, py)
    ensures LastPaintedHit(d, alpha, px, py) ==
            if alpha(w, px - d.heap[w].x, py - d.heap[w].y) < d.heap[w].alphaThreshold then None else Some(w)
  {
    OnlyOne(PaintOrder(d), HitAt(d, alpha, px, py), w);
  }

  // -------------------------------------------------------------------------- the panel

  /** A window that is maximised goes to the left edge, below the panel in the top slot if
      that is not moved down, and to the upper edge if there is no panel. */
  lemma MaximizeDoes(d: Desktop, w: Wid)
    requires Tidy(d) && w in d.windows && w in d.heap && !d.heap[w].tiled
    ensures var r := Step(d, Maximize(w));
            w in r.heap && r.heap[w].tiled && r.heap[w].x == 0
    ensures d.top.None? ==> Step(d, Maximize(w)).heap[w].y == 0
    ensures d.top.Some? && d.top.value in d.heap ==>
              var panel := d.heap[d.top.value];
              Step(d, Maximize(w)).heap[w].y == if panel.y <= 0 then panel.y + panel.height else panel.height
  {
    TidyIsClosed(d);
    assert Step(d, Maximize(w)) == Tile(d, w, 1, 1, 0, 0);
  }

  /** A second request takes it back to where it was before. */
  lemma UnmaximizeDoes(d: Desktop, w: Wid)
    requires Tidy(d) && w in d.windows && w in d.heap && d.heap[w].tiled
    ensures var r := Step(d, Maximize(w));
            w in r.heap && !r.heap[w].tiled &&
            (r.heap[w].x, r.heap[w].y) == (d.heap[w].untiled.x, d.heap[w].untiled.y)
  {
    assert Step(d, Maximize(w)) == Untile(d, w);
  }

  /** Keys tile the focused window, but neither the background nor the panel. */
  lemma TileFocusedDoes(d: Desktop, w: Wid, columns: int, rows: int, cx: int, cy: int)
    requires Tidy(d) && d.focused == Some(w) && columns > 0 && rows > 0 && w in d.heap
    ensures var r := Step(d, TileFocused(columns, rows, cx, cy));
            w in r.heap && (if d.heap[w].z == 0 || d.heap[w].z == 65535 then r == d else r.heap[w].tiled)
  {
    TidyIsClosed(d);
    var e := TileFocused(columns, rows, cx, cy);
    if d.heap[w].z == 0 || d.heap[w].z == 65535 {
      assert Step(d, e) == d;
    } else {
      assert Step(d, e) == Tile(d, w, columns, rows, cx, cy);
    }
  }

  /** So a panel at the upper edge and a maximised window never overlap. */
  lemma PanelStaysFree(d: Desktop, w: Wid, px: int, py: int)
    requires Tidy(d) && w in d.windows && w in d.heap && !d.heap[w].tiled
    requires d.top.Some? && d.top.value != w && d.top.value in d.heap && d.heap[d.top.value].y <= 0
    ensures var r := Step(d, Maximize(w));
            w in r.heap && !(Inside(Frame(d.heap[d.top.value]), px, py) && Inside(Frame(r.heap[w]), px, py))
  {
    MaximizeDoes(d, w);
  }

  /** The size that is offered for it is the rest of the screen. */
  lemma WholeArea(screenWidth: nat, screenHeight: nat, panel: int)
    requires 0 <= panel <= screenHeight < 0x1_0000_0000
    ensures TileRect(screenWidth, screenHeight, panel, 1, 1, 0, 0) ==
            Rect(0, panel, screenWidth, screenHeight - panel)
  {
  }

  // --------------------------------------------------------------------------- redraws

  /** The window is painted in this frame, and its animation has run its length. */
  predicate RunOut(d: Desktop, w: Wid, expired: set<Wid>) {
    w in PaintOrder(d) && w in d.heap && !d.heap[w].hidden && !d.heap[w].minimized && w in expired
  }

  lemma {:induction false} CloseAllKeeps(d: Desktop, ws: seq<Wid>, w: Wid)
    requires Tidy(d) && NoDup(ws) && (forall v :: v in ws ==> v in d.windows) && w in d.windows && w in d.heap
    requires w !in ws
    ensures w in CloseAll(d, ws).heap && w in CloseAll(d, ws).windows
    ensures CloseAll(d, ws).heap[w] == d.heap[w]
    decreases |ws|
  {
    if ws != [] {
      var v := ws[|ws| - 1];
      TidyIsClosed(d);
      CloseTidy(d, v);
      CloseLeaves(d, v, w);
      assert v !in ws[..|ws| - 1];
      CloseAllKeeps(Close(d, v), ws[..|ws| - 1], w);
    }
  }

  lemma CloseLeaves(d: Desktop, v: Wid, w: Wid)
    requires Tidy(d) && Closed(d) && v in d.windows && v in d.heap && w in d.heap && v != w
    ensures w in Close(d, v).heap && Close(d, v).heap[w] == d.heap[w]
  {
    HeirReady(d, v);
    var e := Mark(Detach(d, v), v);
    RefocusLeaves(e, w);
  }

  lemma RefocusLeaves(d: Desktop, w: Wid)
    requires Closed(d) && HeirShown(d) && w in d.heap
    ensures w in Refocus(d).heap && Refocus(d).heap[w] == d.heap[w]
  {
  }

  lemma MinimizeLeaves(d: Desktop, v: Wid, w: Wid)
    requires Tidy(d) && Closed(d) && v in d.windows && v in d.heap && w in d.heap
    ensures var r := FinishMinimize(d, v);
            w in r.heap &&
            (if v == w && !d.heap[w].minimized then r.heap[w].minimized else r.heap[w] == d.heap[w])
  {
    if !d.heap[v].minimized {
      var s := Detach(d, v);
      var e := Put(s, v, s.heap[v].(minimized := true, effect := NoEffect));
      DetachTidy(d, v);
      PutForgottenTidy(s, v, e.heap[v]);
      TidyIsClosed(e);
      SuccessorShown(e);
      RefocusLeaves(e, w);
    }
  }

  lemma {:induction false} MinimizeAllDoes(d: Desktop, ws: seq<Wid>, w: Wid)
    requires Tidy(d) && (forall v :: v in ws ==> v in d.windows) && w in d.windows && w in d.heap
    ensures var r := MinimizeAll(d, ws);
            w in r.heap && w in r.windows &&
            (if w in ws && !d.heap[w].minimized then r.heap[w].minimized else r.heap[w] == d.heap[w])
    decreases |ws|
  {
    if ws != [] {
      var v := ws[|ws| - 1];
      TidyIsClosed(d);
      FinishMinimizeTidy(d, v);
      MinimizeLeaves(d, v, w);
      MinimizeAllDoes(FinishMinimize(d, v), ws[..|ws| - 1], w);
    }
  }

  /** A redraw removes the windows whose closing animation has run out, minimises those whose
      minimising has, and ends the other animations that have; a closing window that is not
      painted any more goes too. All other windows stay as they are. */
  ghost predicate RedrawDoes(d: Desktop, w: Wid, expired: set<Wid>, r: Desktop)
    requires w in d.heap
  {
    var win, out := d.heap[w], RunOut(d, w, expired);
    if Closing(win.effect) && (out || (win.z == 65535 && d.top != Some(w))) then w !in r.windows
    else
      w in r.windows && w in r.heap &&
      if out && win.effect == Minimize then r.heap[w].minimized
      else r.heap[w] == if out then win.(effect := NoEffect) else win
  }

  lemma RemovedAre(d: Desktop, w: Wid, expired: set<Wid>)
    requires Tidy(d) && w in d.windows && w in d.heap
    ensures w in ToRemove(d, expired) <==>
            Closing(d.heap[w].effect) && (RunOut(d, w, expired) || (d.heap[w].z == 65535 && d.top != Some(w)))
    ensures w in ToMinimize(d, expired) <==> RunOut(d, w, expired) && d.heap[w].effect == Minimize
  {
  }

  lemma PhasesDo(e: Desktop, w: Wid, removed: seq<Wid>, minimized: seq<Wid>)
    requires Tidy(e) && NoDup(removed) && (forall v :: v in removed ==> v in e.windows) && w in e.windows && w in e.heap
    requires forall v :: v in minimized ==> v in e.windows && v !in removed
    ensures var r := MinimizeAll(CloseAll(e, removed), minimized);
            if w in removed then w !in r.windows
            else w in r.windows && w in r.heap &&
                 (if w in minimized && !e.heap[w].minimized then r.heap[w].minimized else r.heap[w] == e.heap[w])
  {
    if w !in removed {
      CloseAllKeeps(e, removed, w);
      MinimizeAllDoes(CloseAll(e, removed), minimized, w);
    }
  }

  lemma RedrawStepDoes(d: Desktop, w: Wid, expired: set<Wid>)
    requires Tidy(d) && w in d.windows && w in d.heap
    ensures RedrawDoes(d, w, expired, RedrawStep(d, expired))
  {
    ToRemoveNoDup(d, expired);
    ToMinimizeNoDup(d, expired);
    EndEffectsTidy(d, expired);
    RemovedAre(d, w, expired);
    PhasesDo(EndEffects(d, expired), w, ToRemove(d, expired), ToMinimize(d, expired));
  }
}
