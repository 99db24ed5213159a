/**
  The compositor's window manager as it is written (apps/compositor.c): one object
  whose lists, slots and window structures are edited in place.
 */
module Compositor {
  import opened Basics
  import opened CompositorState
  import opened CompositorInvariant
  import opened CompositorSteps
  import opened CompositorBuffers
  import opened CompositorPixels
  import opened CompositorTiling
  import opened CompositorFocus

  /** The z field names the only list or slot that can hold a window. */
  lemma UnorderByOwner(d: Desktop, w: Wid)
    requires Listed(d) && w in d.heap
    ensures var h := d.heap[w := d.heap[w].(z := Z_UNORDERED)];
            Unorder(d, w) ==
            match OwnerOf(d.heap[w].z)
            case MidStack => d.(heap := h, mid := DeleteFirst(d.mid, w))
            case MenuStack => d.(heap := h, menu := DeleteFirst(d.menu, w))
            case OverlayStack => d.(heap := h, overlay := DeleteFirst(d.overlay, w))
            case TopSlot => d.(heap := h, top := if d.top == Some(w) then None else d.top)
            case BottomSlot => d.(heap := h, bottom := if d.bottom == Some(w) then None else d.bottom)
  {
    DeleteFirstIsWithout(d.mid, w);
    DeleteFirstIsWithout(d.menu, w);
    DeleteFirstIsWithout(d.overlay, w);
  }

  lemma RaiseByOwner(d: Desktop, w: Wid)
    requires Listed(d) && w in d.heap
    ensures Raise(d, w) ==
            match OwnerOf(d.heap[w].z)
            case MidStack => if w in d.mid then d.(mid := DeleteFirst(d.mid, w) + [w]) else d
            case MenuStack => if w in d.menu then d.(menu := DeleteFirst(d.menu, w) + [w]) else d
            case OverlayStack => if w in d.overlay then d.(overlay := DeleteFirst(d.overlay, w) + [w]) else d
            case _ => d
  {
    DeleteFirstIsWithout(d.mid, w);
    DeleteFirstIsWithout(d.menu, w);
    DeleteFirstIsWithout(d.overlay, w);
  }

  lemma RestoreByDelete(d: Desktop, w: Wid)
    requires NoDup(d.minimized) && w in d.heap && d.heap[w].minimized
    ensures Restore(d, w) == d.(heap := d.heap[w := d.heap[w].(z := 1, minimized := false, effect := Unminimize)],
                                minimized := DeleteFirst(d.minimized, w), mid := d.mid + [w])
  {
    DeleteFirstIsWithout(d.minimized, w);
  }

  /** The window is in no stack or slot. */
  ghost predicate InNoStack(d: Desktop, w: Wid) {
    d.bottom != Some(w) && d.top != Some(w) && w !in d.mid && w !in d.menu && w !in d.overlay
  }

  /** Such a window may get any z without upsetting the stacks. */
  lemma LooseWindowListed(d: Desktop, w: Wid, win: Window)
    requires Listed(d) && InNoStack(d, w)
    ensures Listed(Put(d, w, win))
  {
  }

  lemma UnorderedIsLoose(d: Desktop, w: Wid)
    requires Listed(d) && w in d.heap
    ensures Listed(Unorder(d, w)) && InNoStack(Unorder(d, w), w)
  {
    WithoutAll(d, w);
  }

  /** Taking a slot: its holder is unordered after the new one got its z. */
  lemma UnorderAndPut(d: Desktop, u: Wid, w: Wid, win: Window)
    requires u in d.heap && u != w
    ensures Unorder(Put(d, w, win), u) == Put(Unorder(d, u), w, win)
  {
    assert Unorder(Put(d, w, win), u).heap == Put(Unorder(d, u), w, win).heap;
  }

  lemma HeirReadyForFocus(d: Desktop)
    requires Listed(d) && HeirShown(d)
    ensures Listed(d.(focused := None))
    ensures var t := Successor(d);
            t.Some? ==> t.value in d.heap && (d.heap[t.value].minimized ==> InNoStack(d, t.value))
  {
  }

  lemma RestoreListed(d: Desktop, w: Wid)
    requires Listed(d) && w in d.heap && (d.heap[w].minimized ==> InNoStack(d, w))
    ensures Listed(Restore(d, w)) && w in Restore(d, w).heap
  {
    if d.heap[w].minimized {
      AppendNoDup(d.mid, w);
    }
  }

  lemma SameZListed(d: Desktop, w: Wid, win: Window)
    requires Listed(d) && w in d.heap && win.z == d.heap[w].z
    ensures Listed(Put(d, w, win))
  {
  }

  /** The order in which minimising edits the fields does not matter. */
  lemma MinimizeOrder(d: Desktop, w: Wid)
    requires w in d.heap && w !in d.minimized
    ensures var p := Put(d, w, d.heap[w].(minimized := true, effect := NoEffect));
            var s := Detach(d, w);
            Unorder(p, w) == Put(s, w, s.heap[w].(minimized := true, effect := NoEffect))
                               .(windows := d.windows, focused := d.focused)
  {
    var p := Put(d, w, d.heap[w].(minimized := true, effect := NoEffect));
    var s := Detach(d, w);
    assert Unorder(p, w).heap == Put(s, w, s.heap[w].(minimized := true, effect := NoEffect)).heap;
  }

  function Forgotten(d: Desktop, w: Wid): Desktop
    requires w in d.heap
  {
    d.(windows := DeleteFirst(d.windows, w),
       minimized := if d.heap[w].minimized then DeleteFirst(d.minimized, w) else d.minimized)
  }

  lemma CloseOrder(d: Desktop, w: Wid)
    requires Tidy(d) && w in d.windows && w in d.heap
    ensures Listed(Forgotten(d, w)) && Unorder(Forgotten(d, w), w) == Detach(d, w).(focused := d.focused)
  {
    DeleteFirstIsWithout(d.windows, w);
    DeleteFirstIsWithout(d.minimized, w);
  }

  /** What the focus does not look at, it does not change. */
  lemma FocusAndList(d: Desktop, target: Option<Wid>, ws: seq<Wid>)
    requires Closed(d) && (target.Some? ==> target.value in d.heap)
    ensures Focus(d.(windows := ws), target) == Focus(d, target).(windows := ws)
  {
  }

  /** The geometry of `window_tile` (apps/compositor.c:1614-1649). */
  method TileCell(width: nat, height: nat, panelHeight: int, columns: int, rows: int, cx: int, cy: int)
    returns (cell: Rect)
    requires columns > 0 && rows > 0
    ensures cell == TileRect(width, height, panelHeight, columns, rows, cx, cy)
    ensures 0 <= panelHeight <= height < 0x1_0000_0000 && 0 <= cx < columns && 0 <= cy < rows ==>
              CellFits(cell, width, height, panelHeight, columns, rows, cx, cy)
  {
    if 0 <= panelHeight <= height < 0x1_0000_0000 && 0 <= cx < columns && 0 <= cy < rows {
      TileEdges(width, height, panelHeight, columns, rows, cx, cy);
    }
    var area := Unsigned(height - panelHeight);
    var w, h := width / columns, area / rows;
    var x, y := w * cx, panelHeight + h * cy;
    if cx == columns - 1 {
      w := width - w * cx;
    }
    if cy == rows - 1 {
      h := area - h * cy;
    }
    if cx > 0 {
      x, w := x - 1, w + 1;
    }
    if cy > 0 {
      y, h := y - 1, h + 1;
    }
    return Rect(x, y, w, h);
  }

  /** The window manager part of `yutani_globals_t`. */
  class Globals {
    var heap: map<Wid, Window>
    var windows: seq<Wid>
    var bottomZ: Option<Wid>
    var midZs: seq<Wid>
    var overlayZs: seq<Wid>
    var menuZs: seq<Wid>
    var topZ: Option<Wid>
    var minimizedZs: seq<Wid>
    var focusedWindow: Option<Wid>
    var updateList: seq<Rect>
    var nextWid: Wid
    var nextBufId: nat
    var released: seq<nat>
    const width: nat
    const height: nat

    ghost function State(): Desktop
      reads this
    {
      Desktop(heap, windows, bottomZ, midZs, overlayZs, menuZs, topZ, minimizedZs, focusedWindow, updateList,
              nextWid, nextBufId, released, width, height)
    }

    constructor (width: nat, height: nat)
      ensures State() == Start(width, height)
    {
      heap, windows, bottomZ, midZs, overlayZs, menuZs := map[], [], None, [], [], [];
      topZ, minimizedZs, focusedWindow, updateList := None, [], None, [];
      nextWid, nextBufId, released := 1, 1, [];
      this.width, this.height := width, height;
    }

    /** `unorder_window`: the z field says which list to search. */
    method UnorderWindow(w: Wid)
      requires Listed(State()) && w in heap
      modifies this
      ensures State() == Unorder(old(State()), w)
    {
      UnorderByOwner(State(), w);
      var index := heap[w].z;
      heap := heap[w := heap[w].(z := Z_UNORDERED)];
      if index == Z_BOTTOM && bottomZ == Some(w) {
        bottomZ := None;
        return;
      }
      if index == Z_TOP && topZ == Some(w) {
        topZ := None;
        return;
      }
      match OwnerOf(index)
      case MidStack => midZs := DeleteFirst(midZs, w);
      case MenuStack => menuZs := DeleteFirst(menuZs, w);
      case OverlayStack => overlayZs := DeleteFirst(overlayZs, w);
      case _ =>
    }

    /** `reorder_window`. */
    method ReorderWindow(w: Wid, newZed: nat)
      requires Listed(State()) && w in heap
      modifies this
      ensures old(Listed(State())) && State() == Reorder(old(State()), w, newZed)
    {
      UnorderedIsLoose(State(), w);
      UnorderWindow(w);
      match OwnerOf(newZed) {
        case TopSlot => TakeTopSlot(w, newZed);
        case BottomSlot => TakeBottomSlot(w, newZed);
        case MidStack =>
          heap := heap[w := heap[w].(z := newZed)];
          midZs := midZs + [w];
        case MenuStack =>
          heap := heap[w := heap[w].(z := newZed)];
          menuZs := menuZs + [w];
        case OverlayStack =>
          heap := heap[w := heap[w].(z := newZed)];
          overlayZs := overlayZs + [w];
      }
    }

    /** The top slot (apps/compositor.c:287-293). */
    method TakeTopSlot(w: Wid, newZed: nat)
      requires Listed(State()) && w in heap && InNoStack(State(), w) && OwnerOf(newZed) == TopSlot
      modifies this
      ensures old(Listed(State())) &&
              State() == Settle(if old(topZ).Some? then Unorder(old(State()), old(topZ).value) else old(State()),
                                w, newZed)
    {
      ghost var d := State();
      ghost var win := heap[w].(z := newZed);
      LooseWindowListed(d, w, win);
      heap := heap[w := heap[w].(z := newZed)];
      if topZ.Some? {
        UnorderAndPut(d, topZ.value, w, win);
        UnorderWindow(topZ.value);
      }
      topZ := Some(w);
    }

    /** The bottom slot (apps/compositor.c:295-301). */
    method TakeBottomSlot(w: Wid, newZed: nat)
      requires Listed(State()) && w in heap && InNoStack(State(), w) && OwnerOf(newZed) == BottomSlot
      modifies this
      ensures old(Listed(State())) &&
              State() == Settle(if old(bottomZ).Some? then Unorder(old(State()), old(bottomZ).value) else old(State()),
                                w, newZed)
    {
      ghost var d := State();
      ghost var win := heap[w].(z := newZed);
      LooseWindowListed(d, w, win);
      heap := heap[w := heap[w].(z := newZed)];
      if bottomZ.Some? {
        UnorderAndPut(d, bottomZ.value, w, win);
        UnorderWindow(bottomZ.value);
      }
      bottomZ := Some(w);
    }

    /** `make_top`. */
    method MakeTop(w: Wid)
      requires Listed(State()) && w in heap
      modifies this
      ensures State() == Raise(old(State()), w)
    {
      RaiseByOwner(State(), w);
      match OwnerOf(heap[w].z)
      case MidStack =>
        if w in midZs {
          midZs := DeleteFirst(midZs, w) + [w];
        }
      case MenuStack =>
        if w in menuZs {
          menuZs := DeleteFirst(menuZs, w) + [w];
        }
      case OverlayStack =>
        if w in overlayZs {
          overlayZs := DeleteFirst(overlayZs, w) + [w];
        }
      case _ =>
    }

    /** `mark_window`, for a window that is neither rotated nor being resized. */
    method MarkWindow(w: Wid)
      requires w in heap
      modifies this`updateList
      ensures State() == Mark(old(State()), w)
      ensures DamagesExactly(old(State()), State(), w)
    {
      MarkDamagesExactly(State(), w);
      if heap[w].hidden || heap[w].minimized {
        return;
      }
      updateList := updateList + [Rect(heap[w].x, heap[w].y, heap[w].width, heap[w].height)];
    }

    /** `window_unminimize`. */
    method WindowUnminimize(w: Wid)
      requires NoDup(minimizedZs) && w in heap
      modifies this
      ensures State() == Restore(old(State()), w)
    {
      if !heap[w].minimized {
        return;
      }
      RestoreByDelete(State(), w);
      minimizedZs := DeleteFirst(minimizedZs, w);
      midZs := midZs + [w];
      heap := heap[w := heap[w].(z := 1, minimized := false, effect := Unminimize)];
    }

    /** `set_focused_window`. */
    method SetFocusedWindow(target: Option<Wid>)
      requires Listed(State()) && NoDup(minimizedZs)
      requires target.Some? ==>
                 target.value in heap && (heap[target.value].minimized ==> InNoStack(State(), target.value))
      modifies this
      ensures old(Listed(State())) && State() == Focus(old(State()), target)
      ensures target.Some? ==> focusedWindow == target
      ensures target.None? ==> focusedWindow == if old(focusedWindow).None? then None else old(bottomZ)
    {
      if target == focusedWindow {
        return;
      }
      if target.Some? && heap[target.value].minimized {
        RestoreListed(State(), target.value);
        WindowUnminimize(target.value);
      }
      var w := if target.Some? then target else bottomZ;
      focusedWindow := w;
      if w.Some? {
        MakeTop(w.value);
        MarkWindow(w.value);
      }
    }

    /** Who gets the focus when its holder goes (apps/compositor.c:1455-1464, 1496-1506). */
    method HandFocusOn()
      requires Listed(State()) && NoDup(minimizedZs)
      requires HeirShown(State())
      modifies this
      ensures old(Listed(State())) && State() == Focus(old(State()).(focused := None), Successor(old(State())))
    {
      HeirReadyForFocus(State());
      ghost var d := State().(focused := None);
      focusedWindow := None;
      assert State() == d;
      if |menuZs| != 0 {
        SetFocusedWindow(Some(menuZs[|menuZs| - 1]));
      } else if |midZs| != 0 {
        SetFocusedWindow(Some(midZs[|midZs| - 1]));
      } else {
        SetFocusedWindow(bottomZ);
      }
    }

    /** A window that goes away hands on the focus if it has it. */
    method LetGo(w: Wid)
      requires Listed(State()) && NoDup(minimizedZs)
      requires HeirShown(State())
      modifies this
      ensures old(Listed(State()))
      ensures State() == if old(focusedWindow) == Some(w)
                         then Focus(old(State()).(focused := None), Successor(old(State())))
                         else old(State())
    {
      if focusedWindow == Some(w) {
        HandFocusOn();
      }
    }

    /** A window that is minimised leaves its stack (apps/compositor.c:1450-1454). */
    method LeaveStack(w: Wid)
      requires Tidy(State()) && w in windows && w in heap && !heap[w].minimized
      modifies this
      ensures old(Tidy(State()) && w in windows && w in heap && !heap[w].minimized) &&
              State() == Unstacked(old(State()), w)
    {
      MinimizeInSteps(State(), w);
      heap := heap[w := heap[w].(minimized := true, effect := NoEffect)];
      UnorderWindow(w);
    }

    /** `window_finish_minimize`. */
    method WindowFinishMinimize(w: Wid)
      requires Tidy(State()) && w in windows
      modifies this
      ensures old(Tidy(State())) && old(Closed(State())) && State() == FinishMinimize(old(State()), w)
    {
      TidyIsClosed(State());
      if heap[w].minimized {
        return;
      }
      MinimizeInSteps(State(), w);
      LeaveStack(w);
      LetGo(w);
      minimizedZs := minimizedZs + [w];
    }

    /** Off the list of windows and the minimised list (apps/compositor.c:1475-1487). */
    method Forget(w: Wid)
      requires Tidy(State()) && w in windows && w in heap
      modifies this
      ensures old(w in heap) && State() == Forgotten(old(State()), w)
    {
      windows := DeleteFirst(windows, w);
      if heap[w].minimized {
        minimizedZs := DeleteFirst(minimizedZs, w);
      }
    }

    /** Off every list, its place damaged (apps/compositor.c:1475-1493). */
    method RemoveWindow(w: Wid)
      requires Tidy(State()) && w in windows
      modifies this
      ensures old(w in heap) && State() == Mark(Detach(old(State()), w), w).(focused := old(focusedWindow))
    {
      CloseOrder(State(), w);
      Forget(w);
      UnorderWindow(w);
      ghost var u := State();
      MarkWindow(w);
      assert State() == Mark(u, w);
    }

    /** `window_actually_close`. */
    method WindowActuallyClose(w: Wid)
      requires Tidy(State()) && w in windows
      modifies this
      ensures old(Closed(State())) && old(w in heap) && State() == Close(old(State()), w)
    {
      ghost var d := State();
      CloseInSteps(d, w);
      RemoveWindow(w);
      LetGo(w);
      released := released + [heap[w].bufid];
    }

    /** `window_mark_for_close`. */
    method WindowMarkForClose(w: Wid)
      requires Tidy(State()) && w in windows
      modifies this
      ensures old(Closed(State())) && old(w in heap) && State() == MarkForClose(old(State()), w)
    {
      TidyIsClosed(State());
      if heap[w].hidden || heap[w].minimized {
        WindowActuallyClose(w);
      } else {
        heap := heap[w := heap[w].(effect := PickEffect(heap[w].style, true))];
      }
    }

    /** `server_window_create`. */
    method ServerWindowCreate(width: int, height: int, style: Style) returns (w: Wid)
      modifies this
      ensures w == old(nextWid) && State() == Create(old(State()), width, height, style)
      ensures old(Tidy(State())) ==> w !in old(heap)
      ensures old(Buffered(State())) ==> Unused(old(State()), heap[w].bufid)
    {
      w := nextWid;
      nextWid := nextWid + 1;
      windows := windows + [w];
      var bufid := nextBufId;
      nextBufId := nextBufId + 1;
      heap := heap[w := Window(0, 0, 1, width, height, bufid, 0,
                               true, false, NoEffect, style, false, 0, false, Rect(0, 0, 0, 0))];
      midZs := midZs + [w];
    }

    /** `server_window_resize`: a repeated accept gets the same buffer. */
    method ServerWindowResize(w: Wid) returns (newbufid: nat)
      requires w in heap
      modifies this
      ensures State() == Accept(old(State()), w) && newbufid == heap[w].newbufid
      ensures old(w in heap) && (old(heap[w].newbufid) != 0 ==> newbufid == old(heap[w].newbufid))
    {
      if heap[w].newbufid != 0 {
        return heap[w].newbufid;
      }
      newbufid := nextBufId;
      nextBufId := nextBufId + 1;
      heap := heap[w := heap[w].(newbufid := newbufid)];
    }

    /** `server_window_resize_finish`, for a window that the mouse is not resizing. */
    method ServerWindowResizeFinish(w: Wid, width: int, height: int)
      requires w in heap
      modifies this
      ensures old(w in heap) && State() == Done(old(State()), w, width, height)
    {
      if heap[w].newbufid == 0 {
        return;
      }
      var oldbufid := heap[w].bufid;
      MarkWindow(w);
      heap := heap[w := heap[w].(width := width, height := height, bufid := heap[w].newbufid, newbufid := 0)];
      released := released + [oldbufid];
      MarkWindow(w);
    }

    /** `window_move`. */
    method WindowMove(w: Wid, x: int, y: int)
      requires w in heap
      modifies this
      ensures old(w in heap) && State() == Move(old(State()), w, x, y)
      ensures ChangesAreDamaged(old(State()), State())
    {
      MoveIsDamaged(State(), w, x, y);
      MarkWindow(w);
      heap := heap[w := heap[w].(x := x, y := y)];
      MarkWindow(w);
    }

    /** `window_tile`; returns the size that is offered to the client. */
    method WindowTile(w: Wid, columns: int, rows: int, cx: int, cy: int) returns (offerWidth: int, offerHeight: int)
      requires w in heap && (topZ.Some? ==> topZ.value in heap) && columns > 0 && rows > 0
      modifies this
      ensures old(w in heap && (topZ.Some? ==> topZ.value in heap)) &&
              State() == Tile(old(State()), w, columns, rows, cx, cy)
      ensures var cell := TileRect(width, height, old(PanelHeight(State())), columns, rows, cx, cy);
              offerWidth == cell.width && offerHeight == cell.height
    {
      var panelHeight := 0;
      if topZ.Some? {
        panelHeight := heap[topZ.value].height;
        if heap[topZ.value].y < 1 {
          panelHeight := panelHeight + heap[topZ.value].y;
        }
      }
      if !heap[w].tiled {
        var frame := Rect(heap[w].x, heap[w].y, heap[w].width, heap[w].height);
        heap := heap[w := heap[w].(untiled := frame, tiled := true)];
      }
      var cell := TileCell(width, height, panelHeight, columns, rows, cx, cy);
      WindowMove(w, cell.x, cell.y);
      return cell.width, cell.height;
    }

    /** `window_untile` and the move back; returns the size that is offered to the client. */
    method WindowUntile(w: Wid) returns (offerWidth: int, offerHeight: int)
      requires w in heap
      modifies this
      ensures old(w in heap) && State() == Untile(old(State()), w)
      ensures offerWidth == old(heap[w].untiled.width) && offerHeight == old(heap[w].untiled.height)
    {
      heap := heap[w := heap[w].(tiled := false)];
      offerWidth, offerHeight := heap[w].untiled.width, heap[w].untiled.height;
      WindowMove(w, heap[w].untiled.x, heap[w].untiled.y);
    }

    /** `window_reveal` and the damage of a flip message. */
    method FlipMessage(w: Wid)
      requires w in heap
      modifies this
      ensures old(w in heap) && State() == Flip(old(State()), w)
    {
      if heap[w].hidden {
        heap := heap[w := heap[w].(hidden := false, effect := PickEffect(heap[w].style, false))];
      }
      MarkWindow(w);
    }

    /** `yutani_blit_window`, as far as animations go (apps/compositor.c:757-759, 779-794). */
    method BlitWindow(w: Wid, expired: set<Wid>, ghost d: Desktop) returns (fate: Fate)
      requires w in heap && w in d.heap && heap[w] == d.heap[w]
      modifies this`heap
      ensures heap == old(heap)[w := AfterEffect(d, w, expired)]
      ensures fate == FateOf(d, w, expired)
    {
      assert heap == heap[w := heap[w]];
      if heap[w].hidden || heap[w].minimized || heap[w].effect == NoEffect || w !in expired {
        return Stays;
      }
      if Closing(heap[w].effect) {
        return IsRemoved;
      }
      if heap[w].effect == Minimize {
        return IsMinimized;
      }
      heap := heap[w := heap[w].(effect := NoEffect)];
      return Stays;
    }

    /** `yutani_blit_windows`, as far as animations go (apps/compositor.c:974-987). */
    method BlitWindows(expired: set<Wid>) returns (toRemove: seq<Wid>, toMinimize: seq<Wid>)
      requires Tidy(State())
      modifies this`heap
      ensures State() == EndEffects(old(State()), expired)
      ensures toRemove == Select(PaintOrder(old(State())), EndedClosingIn(old(State()), expired))
      ensures toMinimize == ToMinimize(old(State()), expired)
    {
      ghost var d := State();
      var order := (if bottomZ.Some? then [bottomZ.value] else []) + midZs + overlayZs + menuZs +
                   (if topZ.Some? then [topZ.value] else []);
      PaintReady(d);
      toRemove, toMinimize := BlitList(order, expired);
      assert heap == EndEffects(d, expired).heap;
    }

    method BlitList(order: seq<Wid>, expired: set<Wid>) returns (toRemove: seq<Wid>, toMinimize: seq<Wid>)
      requires NoDup(order) && forall w :: w in order ==> w in heap
      modifies this`heap
      ensures heap == BlitHeap(old(State()), order, expired)
      ensures toRemove == Select(order, EndedClosingIn(old(State()), expired))
      ensures toMinimize == Select(order, EndedMinimizingIn(old(State()), expired))
    {
      ghost var d := State();
      toRemove, toMinimize := [], [];
      var i := 0;
      assert heap == BlitHeap(d, order[..0], expired);
      while i < |order|
        invariant 0 <= i <= |order| && heap == BlitHeap(d, order[..i], expired)
        invariant toRemove == Select(order[..i], EndedClosingIn(d, expired))
        invariant toMinimize == Select(order[..i], EndedMinimizingIn(d, expired))
      {
        BlitStep(d, order, expired, i);
        var fate := BlitWindow(order[i], expired, d);
        if fate == IsRemoved {
          toRemove := toRemove + [order[i]];
        } else if fate == IsMinimized {
          toMinimize := toMinimize + [order[i]];
        }
        i := i + 1;
      }
      assert order[..i] == order;
    }

    /** Closing windows that no stack holds (apps/compositor.c:1306-1313). */
    method FindLoose() returns (loose: seq<Wid>)
      requires forall w :: w in windows ==> w in heap
      ensures loose == Select(windows, LooseClosingIn(State()))
    {
      loose := [];
      var i := 0;
      while i < |windows|
        invariant 0 <= i <= |windows| && loose == Select(windows[..i], LooseClosingIn(State()))
      {
        var w := windows[i];
        assert windows[..i + 1][..i] == windows[..i];
        if heap[w].z == Z_TOP && topZ != Some(w) && Closing(heap[w].effect) {
          loose := loose + [w];
        }
        i := i + 1;
      }
      assert windows[..i] == windows;
    }

    /** The end of a redraw (apps/compositor.c:1306-1330). */
    method RedrawWindows(expired: set<Wid>)
      requires Tidy(State())
      modifies this
      ensures old(Tidy(State())) && State() == RedrawStep(old(State()), expired)
    {
      ghost var d := State();
      RedrawReady(d, expired);
      var toRemove, toMinimize := BlitWindows(expired);
      var loose := FindLoose();
      toRemove := toRemove + loose;
      CloseQueued(toRemove);
      MinimizeQueued(toMinimize);
    }

    method CloseQueued(queue: seq<Wid>)
      requires Tidy(State()) && NoDup(queue) && forall w :: w in queue ==> w in windows
      modifies this
      ensures old(Tidy(State())) && State() == CloseAll(old(State()), queue)
    {
      var ws := queue;
      while |ws| != 0
        invariant Tidy(State()) && NoDup(ws) && forall w :: w in ws ==> w in windows
        invariant CloseAll(State(), ws) == CloseAll(old(State()), queue)
        decreases |ws|
      {
        var w := ws[|ws| - 1];
        CloseAllStep(State(), ws);
        WindowActuallyClose(w);
        ws := ws[..|ws| - 1];
      }
    }

    method MinimizeQueued(queue: seq<Wid>)
      requires Tidy(State()) && forall w :: w in queue ==> w in windows
      modifies this
      ensures old(Tidy(State())) && State() == MinimizeAll(old(State()), queue)
    {
      var ws := queue;
      while |ws| != 0
        invariant Tidy(State()) && forall w :: w in ws ==> w in windows
        invariant MinimizeAll(State(), ws) == MinimizeAll(old(State()), queue)
        decreases |ws|
      {
        var w := ws[|ws| - 1];
        MinimizeAllStep(State(), ws);
        WindowFinishMinimize(w);
        ws := ws[..|ws| - 1];
      }
    }

    /** A message about a live window (apps/compositor.c:2734-2743, 2768-2783, 2814-2832, 2855-2876,
        2911-2943, 3027-3049). */
    method HandleWindowMessage(w: Wid, e: Event)
      requires Tidy(State()) && Allowed(State(), e) && w in windows && w in heap
      modifies this
      ensures old(Tidy(State()) && Allowed(State(), e) && w in windows && w in heap) &&
              State() == StepWindow(old(State()), w, e)
    {
      match e
      case FlipWindow(_) => FlipMessage(w);
      case MoveWindow(_, x, y) =>
        if !(x > width + 100 || x + width < 0 || y > height + 100 || y + height < 0) {
          WindowMove(w, x, y);
        }
      case CloseWindow(_) => WindowMarkForClose(w);
      case StackWindow(v, z) =>
        if v == w {
          ReorderWindow(w, Short(z));
        }
      case ResizeAccept(_) => var newbufid := ServerWindowResize(w);
      case ResizeDone(_, width, height) => ServerWindowResizeFinish(w, width, height);
      case FocusWindow(_) =>
        TidyPlaces(State(), w, InMinimized);
        SetFocusedWindow(Some(w));
      case MinimizeWindow(_) =>
        if heap[w].advertised {
          heap := heap[w := heap[w].(effect := Minimize)];
        }
      case Advertise(_, named) => heap := heap[w := heap[w].(advertised := named)];
      case Maximize(_) =>
        if heap[w].tiled {
          var ow, oh := WindowUntile(w);
        } else {
          var ow, oh := WindowTile(w, 1, 1, 0, 0);
        }
      case _ =>
    }

    /** One message, key or redraw. */
    method Handle(e: Event)
      requires Tidy(State()) && Allowed(State(), e)
      modifies this
      ensures old(Tidy(State()) && Allowed(State(), e)) && State() == Step(old(State()), e)
    {
      match e
      case New(width, height, style, stealFocus) =>
        CreateTidy(State(), width, height, style);
        var w := ServerWindowCreate(width, height, style);
        if stealFocus {
          SetFocusedWindow(Some(w));
        }
      case FocusAt(hit) =>
        if hit.Some? {
          TidyPlaces(State(), hit.value, InMinimized);
        }
        SetFocusedWindow(hit);
      case TileFocused(columns, rows, cx, cy) =>
        if focusedWindow.None? {
          if bottomZ.Some? {
            TidyPlaces(State(), bottomZ.value, InMinimized);
            SetFocusedWindow(bottomZ);
          }
        } else {
          var w := focusedWindow.value;
          if heap[w].z != Z_BOTTOM && heap[w].z != Z_TOP {
            var ow, oh := WindowTile(w, columns, rows, cx, cy);
          }
        }
      case Redraw(expired) => RedrawWindows(expired);
      case _ =>
        if e.w in windows {
          HandleWindowMessage(e.w, e);
        }
    }
  }

  /** The loop over the events. */
  method ServeAll(width: nat, height: nat, es: seq<Event>) returns (yg: Globals)
    requires AllowedRun(Start(width, height), es)
    ensures yg.State() == Run(Start(width, height), es)
  {
    yg := new Globals(width, height);
    var i := 0;
    assert es[0..] == es;
    while i < |es|
      invariant 0 <= i <= |es| && fresh(yg) && Tidy(yg.State()) && AllowedRun(yg.State(), es[i..])
      invariant Run(yg.State(), es[i..]) == Run(Start(width, height), es)
    {
      assert es[i..][1..] == es[i + 1..];
      yg.Handle(es[i]);
      i := i + 1;
    }
  }

  /** What holds at the end of a run that ends with a click. */
  ghost predicate Clicked(es: seq<Event>, r: Desktop) {
    es != [] && es[|es| - 1].FocusAt? && es[|es| - 1].hit.Some? ==> r.focused == es[|es| - 1].hit
  }

  lemma ClickedRun(d: Desktop, before: seq<Event>, e: Event, es: seq<Event>, r: Desktop)
    requires es == before + [e] && Tidy(d) && AllowedRun(d, es) && r == Run(d, es)
    ensures Clicked(es, r)
  {
    if e.FocusAt? && e.hit.Some? {
      LastClick(d, before, e, r);
    }
  }

  lemma Served(d: Desktop, es: seq<Event>, r: Desktop)
    requires Tidy(d) && Buffered(d) && AllowedRun(d, es) && r == Run(d, es)
    ensures Tidy(r) && Buffered(r) && FocusOfLast(d, es, r) && Clicked(es, r)
  {
    RunBuffers(d, es);
    FocusOfRun(d, es);
    if es != [] {
      EventsSplit(es);
      ClickedRun(d, es[..|es| - 1], es[|es| - 1], es, r);
    }
  }

  lemma EventsSplit(es: seq<Event>)
    requires es != []
    ensures es == es[..|es| - 1] + [es[|es| - 1]]
  {
  }

  /** The compositor from its start: what holds over every run holds of the object. */
  method Serve(width: nat, height: nat, es: seq<Event>) returns (yg: Globals)
    requires AllowedRun(Start(width, height), es)
    ensures yg.State() == Run(Start(width, height), es)
    ensures Tidy(yg.State()) && Buffered(yg.State())
    ensures FocusOfLast(Start(width, height), es, yg.State()) && Clicked(es, yg.State())
  {
    yg := ServeAll(width, height, es);
    Served(Start(width, height), es, yg.State());
  }

  lemma CloseAllStep(d: Desktop, ws: seq<Wid>)
    requires Tidy(d) && NoDup(ws) && ws != [] && forall w :: w in ws ==> w in d.windows
    ensures var w, rest := ws[|ws| - 1], ws[..|ws| - 1];
            w in d.windows && w in d.heap && Closed(d) && Tidy(Close(d, w)) && NoDup(rest) &&
            (forall v :: v in rest ==> v in Close(d, w).windows) && CloseAll(d, ws) == CloseAll(Close(d, w), rest)
  {
    var w := ws[|ws| - 1];
    CloseTidy(d, w);
    assert w !in ws[..|ws| - 1];
  }

  lemma MinimizeAllStep(d: Desktop, ws: seq<Wid>)
    requires Tidy(d) && ws != [] && forall w :: w in ws ==> w in d.windows
    ensures var w, rest := ws[|ws| - 1], ws[..|ws| - 1];
            w in d.windows && w in d.heap && Closed(d) && Tidy(FinishMinimize(d, w)) &&
            FinishMinimize(d, w).windows == d.windows && MinimizeAll(d, ws) == MinimizeAll(FinishMinimize(d, w), rest)
  {
    FinishMinimizeTidy(d, ws[|ws| - 1]);
  }

  /** What drawing a window decides about it. */
  datatype Fate = Stays | IsRemoved | IsMinimized

  function FateOf(d: Desktop, w: Wid, expired: set<Wid>): Fate {
    if EndedClosing(d, w, expired) then IsRemoved else if EndedMinimizing(d, w, expired) then IsMinimized else Stays
  }

  /** The window structures after the windows of a list were drawn. */
  function BlitHeap(d: Desktop, drawn: seq<Wid>, expired: set<Wid>): map<Wid, Window> {
    map w | w in d.heap :: if w in drawn then AfterEffect(d, w, expired) else d.heap[w]
  }

  lemma BlitStep(d: Desktop, order: seq<Wid>, expired: set<Wid>, i: nat)
    requires i < |order| && NoDup(order) && order[i] in d.heap
    ensures order[i] !in order[..i]
    ensures BlitHeap(d, order[..i + 1], expired) ==
            BlitHeap(d, order[..i], expired)[order[i] := AfterEffect(d, order[i], expired)]
    ensures var w := order[i];
            Select(order[..i + 1], EndedClosingIn(d, expired)) ==
              Select(order[..i], EndedClosingIn(d, expired)) +
              (if FateOf(d, w, expired) == IsRemoved then [w] else []) &&
            Select(order[..i + 1], EndedMinimizingIn(d, expired)) ==
              Select(order[..i], EndedMinimizingIn(d, expired)) +
              (if FateOf(d, w, expired) == IsMinimized then [w] else [])
  {
    assert order[..i + 1][..i] == order[..i];
    assert order[..i + 1] == order[..i] + [order[i]];
  }

  lemma PaintReady(d: Desktop)
    requires Tidy(d)
    ensures NoDup(PaintOrder(d)) && forall w :: w in PaintOrder(d) ==> w in d.heap
  {
    PaintOrderNoDup(d);
  }

  lemma RedrawReady(d: Desktop, expired: set<Wid>)
    requires Tidy(d)
    ensures var e := EndEffects(d, expired);
            Tidy(e) && Select(e.windows, LooseClosingIn(e)) == Select(d.windows, LooseClosingIn(d))
    ensures NoDup(ToRemove(d, expired)) && forall w :: w in ToRemove(d, expired) ==> w in d.windows
    ensures forall w :: w in ToMinimize(d, expired) ==> w in d.windows && w !in ToRemove(d, expired)
  {
    var e := EndEffects(d, expired);
    EndEffectsTidy(d, expired);
    ToRemoveNoDup(d, expired);
    ToMinimizeNoDup(d, expired);
    SelectAgree(d.windows, LooseClosingIn(e), LooseClosingIn(d));
  }

  /** Closing as the code does it, one field after the other. */
  lemma CloseInSteps(d: Desktop, w: Wid)
    requires Tidy(d) && w in d.windows
    ensures w in d.heap && Closed(d)
    ensures var e := Mark(Detach(d, w), w).(focused := d.focused);
            Listed(e) && NoDup(e.minimized) && HeirShown(e) &&
            var f := if d.focused == Some(w) then Focus(e.(focused := None), Successor(e)) else e;
            w in f.heap && Close(d, w) == f.(released := f.released + [f.heap[w].bufid])
  {
    TidyIsClosed(d);
    DetachTidy(d, w);
    var e := Mark(Detach(d, w), w);
    MarkTidy(Detach(d, w), w);
    TidyIsClosed(e);
    SuccessorLive(e);
    SuccessorShown(e);
    FocusKeeps(e.(focused := None), Successor(e), w);
  }

  /** A window that is minimised and in no stack any more. */
  function Unstacked(d: Desktop, w: Wid): Desktop
    requires w in d.heap
  {
    Unorder(Put(d, w, d.heap[w].(minimized := true, effect := NoEffect)), w)
  }

  lemma UnstackedReady(d: Desktop, w: Wid)
    requires Tidy(d) && w in d.windows && w in d.heap && !d.heap[w].minimized
    ensures Listed(Put(d, w, d.heap[w].(minimized := true, effect := NoEffect)))
    ensures var u := Unstacked(d, w); Listed(u) && NoDup(u.minimized) && HeirShown(u)
  {
    MinimizeOrder(d, w);
    MinimizedReady(d, w);
    SameZListed(d, w, d.heap[w].(minimized := true, effect := NoEffect));
    var s := Detach(d, w);
    var e := Put(s, w, s.heap[w].(minimized := true, effect := NoEffect));
    assert Unstacked(d, w) == e.(windows := d.windows, focused := d.focused);
  }

  /** Minimising as the code does it, one field after the other. */
  lemma MinimizeInSteps(d: Desktop, w: Wid)
    requires Tidy(d) && w in d.windows && w in d.heap && !d.heap[w].minimized
    ensures Closed(d)
    ensures Listed(Put(d, w, d.heap[w].(minimized := true, effect := NoEffect)))
    ensures var u := Unstacked(d, w);
            Listed(u) && NoDup(u.minimized) && HeirShown(u) &&
            var f := if d.focused == Some(w) then Focus(u.(focused := None), Successor(u)) else u;
            FinishMinimize(d, w) == f.(minimized := f.minimized + [w])
  {
    TidyIsClosed(d);
    MinimizeOrder(d, w);
    MinimizedReady(d, w);
    UnstackedReady(d, w);
    var s := Detach(d, w);
    var e := Put(s, w, s.heap[w].(minimized := true, effect := NoEffect));
    assert Unstacked(d, w) == e.(windows := d.windows, focused := d.focused);
    if d.focused == Some(w) {
      FocusAndList(e, Successor(e), d.windows);
    }
  }

  lemma MinimizedReady(d: Desktop, w: Wid)
    requires Tidy(d) && w in d.windows && !d.heap[w].minimized
    ensures var s := Detach(d, w);
            var e := Put(s, w, s.heap[w].(minimized := true, effect := NoEffect));
            Tidy(e) && Closed(e) && HeirShown(e)
  {
    DetachTidy(d, w);
    var s := Detach(d, w);
    PutForgottenTidy(s, w, s.heap[w].(minimized := true, effect := NoEffect));
    var e := Put(s, w, s.heap[w].(minimized := true, effect := NoEffect));
    TidyIsClosed(e);
    SuccessorShown(e);
  }
}
