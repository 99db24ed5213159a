/**
  Where windows are: the invariant of the stacks, slots, the minimised list and the
  focus, and that every operation keeps it.
 */
module CompositorInvariant {
  import opened Basics
  import opened CompositorState

  /** The stacks and slots agree with the z fields. */
  ghost predicate Listed(d: Desktop) {
    NoDup(d.mid) && NoDup(d.menu) && NoDup(d.overlay) &&
    (forall w :: w in d.mid ==> w in d.heap && OwnerOf(d.heap[w].z) == MidStack) &&
    (forall w :: w in d.menu ==> w in d.heap && OwnerOf(d.heap[w].z) == MenuStack) &&
    (forall w :: w in d.overlay ==> w in d.heap && OwnerOf(d.heap[w].z) == OverlayStack) &&
    (d.bottom.Some? ==> d.bottom.value in d.heap && d.heap[d.bottom.value].z == Z_BOTTOM) &&
    (d.top.Some? ==> d.top.value in d.heap && d.heap[d.top.value].z == Z_TOP)
  }

  /** And minimised windows are in none of them. */
  ghost predicate Stacked(d: Desktop) {
    Listed(d) && NoDup(d.minimized) &&
    forall w :: w in d.minimized ==> w in d.heap && d.heap[w].z == Z_UNORDERED && d.top != Some(w)
  }

  /** Only live windows are placed, and each is where its fields say. */
  ghost predicate Homed(d: Desktop) {
    NoDup(d.windows) && (forall w :: w in d.heap ==> w < d.nextWid) &&
    (forall w :: w in d.mid || w in d.menu || w in d.overlay || w in d.minimized ==> w in d.windows) &&
    (forall w :: d.bottom == Some(w) || d.top == Some(w) ==> w in d.windows) &&
    (forall w :: w in d.windows ==>
       w in d.heap && (d.heap[w].minimized <==> w in d.minimized) &&
       (OwnerOf(d.heap[w].z) == MidStack ==> w in d.mid) &&
       (OwnerOf(d.heap[w].z) == MenuStack ==> w in d.menu) &&
       (OwnerOf(d.heap[w].z) == OverlayStack ==> w in d.overlay) &&
       (OwnerOf(d.heap[w].z) == BottomSlot ==> d.bottom == Some(w)))
  }

  ghost predicate Focused(d: Desktop) {
    d.focused.Some? ==> d.focused.value in d.windows && d.focused.value in d.heap && !d.heap[d.focused.value].minimized
  }

  ghost predicate Tidy(d: Desktop) {
    Stacked(d) && Homed(d) && Focused(d)
  }

  lemma TidyIsClosed(d: Desktop)
    requires Tidy(d)
    ensures Closed(d)
  {
  }

  /** The places a live window can be in. */
  datatype Place = InBottomSlot | InTopSlot | InMid | InMenu | InOverlay | InMinimized | Nowhere

  ghost predicate IsAt(d: Desktop, w: Wid, p: Place) {
    match p
    case InBottomSlot => d.bottom == Some(w)
    case InTopSlot => d.top == Some(w)
    case InMid => w in d.mid
    case InMenu => w in d.menu
    case InOverlay => w in d.overlay
    case InMinimized => w in d.minimized
    case Nowhere => d.bottom != Some(w) && d.top != Some(w) && w !in d.mid && w !in d.menu && w !in d.overlay &&
                    w !in d.minimized
  }

  /** The place that the fields of a window name; the top value is also that of an
      unordered window. */
  function PlaceOf(d: Desktop, w: Wid): Place
    requires w in d.heap
  {
    var win := d.heap[w];
    if win.minimized then InMinimized
    else
      match OwnerOf(win.z)
      case BottomSlot => InBottomSlot
      case MenuStack => InMenu
      case OverlayStack => InOverlay
      case MidStack => InMid
      case TopSlot => if d.top == Some(w) then InTopSlot else Nowhere
  }

  /** A live window is in exactly one place, the one its fields name. A closed one is nowhere. */
  lemma TidyPlaces(d: Desktop, w: Wid, p: Place)
    requires Tidy(d)
    ensures w in d.windows ==> (IsAt(d, w, p) <==> p == PlaceOf(d, w))
    ensures w !in d.windows ==> IsAt(d, w, Nowhere)
  {
  }

  // ------------------------------------------------------------------- preservation

  lemma WithoutAll(d: Desktop, w: Wid)
    requires NoDup(d.mid) && NoDup(d.menu) && NoDup(d.overlay)
    ensures NoDup(Without(d.mid, w)) && NoDup(Without(d.menu, w)) && NoDup(Without(d.overlay, w))
  {
    WithoutNoDup(d.mid, w);
    WithoutNoDup(d.menu, w);
    WithoutNoDup(d.overlay, w);
  }

  lemma UnorderStacked(d: Desktop, w: Wid)
    requires Stacked(d) && w in d.heap
    ensures Stacked(Unorder(d, w))
  {
    WithoutAll(d, w);
  }

  lemma UnorderHomed(d: Desktop, w: Wid)
    requires Tidy(d) && w in d.windows
    ensures Homed(Unorder(d, w))
  {
  }

  lemma UnorderTidy(d: Desktop, w: Wid)
    requires Tidy(d) && w in d.windows
    ensures Tidy(Unorder(d, w))
  {
    UnorderStacked(d, w);
    UnorderHomed(d, w);
  }

  lemma SettleMidTidy(d: Desktop, w: Wid, z: nat)
    requires Tidy(d) && w in d.windows && !d.heap[w].minimized && IsAt(d, w, Nowhere) && OwnerOf(z) == MidStack
    ensures Tidy(Settle(d, w, z))
  {
    AppendNoDup(d.mid, w);
  }

  lemma SettleMenuTidy(d: Desktop, w: Wid, z: nat)
    requires Tidy(d) && w in d.windows && !d.heap[w].minimized && IsAt(d, w, Nowhere) && OwnerOf(z) == MenuStack
    ensures Tidy(Settle(d, w, z))
  {
    AppendNoDup(d.menu, w);
  }

  lemma SettleOverlayTidy(d: Desktop, w: Wid, z: nat)
    requires Tidy(d) && w in d.windows && !d.heap[w].minimized && IsAt(d, w, Nowhere) && OwnerOf(z) == OverlayStack
    ensures Tidy(Settle(d, w, z))
  {
    AppendNoDup(d.overlay, w);
  }

  lemma SettleTopStacked(d: Desktop, w: Wid, z: nat)
    requires Stacked(d) && w in d.heap && IsAt(d, w, Nowhere) && OwnerOf(z) == TopSlot
    ensures Stacked(Settle(d, w, z))
  {
  }

  lemma SettleTopTidy(d: Desktop, w: Wid, z: nat)
    requires Tidy(d) && w in d.windows && !d.heap[w].minimized && IsAt(d, w, Nowhere)
    requires OwnerOf(z) == TopSlot && d.top.None?
    ensures Tidy(Settle(d, w, z))
  {
    SettleTopStacked(d, w, z);
  }

  lemma SettleBottomTidy(d: Desktop, w: Wid, z: nat)
    requires Tidy(d) && w in d.windows && !d.heap[w].minimized && IsAt(d, w, Nowhere)
    requires OwnerOf(z) == BottomSlot && d.bottom.None?
    ensures Tidy(Settle(d, w, z))
  {
  }

  lemma ReorderTidy(d: Desktop, w: Wid, z: nat)
    requires Tidy(d) && w in d.windows && !d.heap[w].minimized
    ensures Tidy(Reorder(d, w, z))
  {
    UnorderTidy(d, w);
    var d1 := Unorder(d, w);
    match OwnerOf(z)
    case TopSlot =>
      if d1.top.Some? {
        UnorderTidy(d1, d1.top.value);
        d1 := Unorder(d1, d1.top.value);
      }
      SettleTopTidy(d1, w, z);
    case BottomSlot =>
      if d1.bottom.Some? {
        UnorderTidy(d1, d1.bottom.value);
        d1 := Unorder(d1, d1.bottom.value);
      }
      SettleBottomTidy(d1, w, z);
    case MidStack => SettleMidTidy(d1, w, z);
    case MenuStack => SettleMenuTidy(d1, w, z);
    case OverlayStack => SettleOverlayTidy(d1, w, z);
  }

  lemma ReorderKeepsMinimized(d: Desktop, w: Wid, z: nat)
    requires w in d.heap && w in d.minimized && forall v :: d.top == Some(v) || d.bottom == Some(v) ==> v in d.heap
    ensures var e := Reorder(d, w, z);
            w in e.minimized && w in e.heap && e.heap[w].z == z && (z == Z_TOP ==> e.top == Some(w))
  {
  }

  /** Exactly the windows that are not minimised may be restacked: a minimised one would
      end up both in the minimised list and in a stack or slot. */
  lemma RestackNeedsNotMinimized(d: Desktop, w: Wid, z: nat)
    requires Tidy(d) && w in d.windows
    ensures Tidy(Reorder(d, w, z)) <==> !d.heap[w].minimized
  {
    if d.heap[w].minimized {
      ReorderKeepsMinimized(d, w, z);
      assert !Stacked(Reorder(d, w, z));
    } else {
      ReorderTidy(d, w, z);
    }
  }

  lemma ToEndNoDup(s: seq<Wid>, w: Wid)
    requires NoDup(s)
    ensures NoDup(ToEnd(s, w)) && forall v :: v in ToEnd(s, w) <==> v in s
  {
    WithoutNoDup(s, w);
    AppendNoDup(Without(s, w), w);
  }

  lemma RaiseTidy(d: Desktop, w: Wid)
    requires Tidy(d)
    ensures Tidy(Raise(d, w))
  {
    ToEndNoDup(d.mid, w);
    ToEndNoDup(d.menu, w);
    ToEndNoDup(d.overlay, w);
  }

  lemma RestoreTidy(d: Desktop, w: Wid)
    requires Tidy(d) && w in d.windows
    ensures Tidy(Restore(d, w)) && !Restore(d, w).heap[w].minimized
  {
    WithoutNoDup(d.minimized, w);
    if d.heap[w].minimized {
      AppendNoDup(d.mid, w);
    }
  }

  lemma FocusTidy(d: Desktop, target: Option<Wid>)
    requires Tidy(d) && (target.Some? ==> target.value in d.windows)
    ensures Tidy(Focus(d, target))
  {
    if target != d.focused {
      var d1 := d;
      if target.Some? {
        RestoreTidy(d, target.value);
        d1 := Restore(d, target.value);
      }
      var t := if target.Some? then target else d1.bottom;
      if t.Some? {
        RaiseTidy(d1.(focused := t), t.value);
      }
    }
  }

  lemma RefocusTidy(d: Desktop)
    requires Tidy(d)
    ensures Closed(d) && Tidy(Refocus(d))
  {
    SuccessorLive(d);
    FocusTidy(d.(focused := None), Successor(d));
  }

  lemma DetachTidy(d: Desktop, w: Wid)
    requires Tidy(d) && w in d.windows
    ensures Tidy(Detach(d, w))
  {
    UnorderTidy(d, w);
    WithoutNoDup(d.minimized, w);
    WithoutNoDup(d.windows, w);
  }

  lemma MarkTidy(d: Desktop, w: Wid)
    requires Tidy(d) && w in d.heap
    ensures Tidy(Mark(d, w))
  {
  }

  lemma ReleaseTidy(d: Desktop, released: seq<nat>)
    requires Tidy(d)
    ensures Tidy(d.(released := released))
  {
  }

  /** Focus changes leave the window list alone, and windows that are not live. */
  lemma FocusKeeps(d: Desktop, target: Option<Wid>, w: Wid)
    requires Closed(d) && (target.Some? ==> target.value in d.windows && target.value in d.heap)
    ensures var e := Focus(d, target);
            e.windows == d.windows && e.nextWid == d.nextWid && e.nextBuf == d.nextBuf && e.released == d.released &&
            e.heap.Keys == d.heap.Keys && (w in d.heap && w !in d.windows ==> e.heap[w] == d.heap[w])
  {
  }

  lemma RefocusKeeps(d: Desktop, w: Wid)
    requires Tidy(d) && Closed(d)
    ensures var e := Refocus(d);
            e.windows == d.windows && e.nextWid == d.nextWid && e.nextBuf == d.nextBuf && e.released == d.released &&
            e.heap.Keys == d.heap.Keys && (w in d.heap && w !in d.windows ==> e.heap[w] == d.heap[w])
  {
    SuccessorLive(d);
    FocusKeeps(d.(focused := None), Successor(d), w);
  }

  lemma SuccessorLive(d: Desktop)
    requires Tidy(d)
    ensures Successor(d).Some? ==> Successor(d).value in d.windows && Successor(d).value in d.heap
  {
    assert d.menu != [] ==> d.menu[|d.menu| - 1] in d.menu;
    assert d.mid != [] ==> d.mid[|d.mid| - 1] in d.mid;
  }

  lemma SuccessorShown(d: Desktop)
    requires Tidy(d)
    ensures HeirShown(d)
  {
    SuccessorLive(d);
    assert d.menu != [] ==> d.menu[|d.menu| - 1] in d.menu;
    assert d.mid != [] ==> d.mid[|d.mid| - 1] in d.mid;
  }

  lemma CloseTidy(d: Desktop, w: Wid)
    requires Tidy(d) && w in d.windows
    ensures Closed(d) && Tidy(Close(d, w)) && Close(d, w).windows == Without(d.windows, w)
  {
    TidyIsClosed(d);
    DetachTidy(d, w);
    var e := Mark(Detach(d, w), w);
    MarkTidy(Detach(d, w), w);
    TidyIsClosed(e);
    if d.focused == Some(w) {
      RefocusTidy(e);
      RefocusKeeps(e, w);
      ReleaseTidy(Refocus(e), e.released + [d.heap[w].bufid]);
    } else {
      ReleaseTidy(e, e.released + [d.heap[w].bufid]);
    }
  }

  /** Tidiness does not look at the order of the window list. */
  lemma TidyReorderedList(d: Desktop, ws: seq<Wid>)
    requires Tidy(d) && NoDup(ws) && forall w :: w in ws <==> w in d.windows
    ensures Tidy(d.(windows := ws))
  {
  }

  /** A window that is nowhere can be put on the minimised list. */
  lemma AttachMinimizedTidy(d: Desktop, w: Wid)
    requires Tidy(d) && w !in d.windows && w in d.heap
    requires d.heap[w].minimized && d.heap[w].z == Z_UNORDERED
    ensures Tidy(d.(windows := d.windows + [w], minimized := d.minimized + [w]))
  {
    AppendNoDup(d.windows, w);
    AppendNoDup(d.minimized, w);
  }

  lemma PutForgottenTidy(d: Desktop, w: Wid, win: Window)
    requires Tidy(d) && w !in d.windows && w in d.heap
    ensures Tidy(Put(d, w, win))
  {
  }

  lemma FinishMinimizeTidy(d: Desktop, w: Wid)
    requires Tidy(d) && w in d.windows
    ensures Closed(d) && Tidy(FinishMinimize(d, w)) && FinishMinimize(d, w).windows == d.windows
  {
    if !d.heap[w].minimized {
      DetachTidy(d, w);
      var d1 := Detach(d, w);
      var win := d1.heap[w].(minimized := true, effect := NoEffect);
      PutForgottenTidy(d1, w, win);
      var d2 := Put(d1, w, win);
      var d3 := d2;
      if d.focused == Some(w) {
        RefocusTidy(d2);
        d3 := Refocus(d2);
        RefocusKeeps(d2, w);
      }
      AttachMinimizedTidy(d3, w);
      TidyReorderedList(d3.(windows := d3.windows + [w], minimized := d3.minimized + [w]), d.windows);
    }
  }
}
