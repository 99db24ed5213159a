/**
  Who has the focus (apps/compositor.c:326-356, 1448-1506): after every event, stated on
  the stacks themselves.
 */
module CompositorFocus {
  import opened Basics
  import opened CompositorState
  import opened CompositorInvariant
  import opened CompositorSteps

  /** A window that a stack holds is its last one. */
  predicate LastOfItsStack(d: Desktop, w: Wid) {
    && (w in d.mid ==> d.mid[|d.mid| - 1] == w)
    && (w in d.menu ==> d.menu[|d.menu| - 1] == w)
    && (w in d.overlay ==> d.overlay[|d.overlay| - 1] == w)
  }

  /** The focus is with the last menu window, else with the last window of the middle
      stack, else with the bottom window. */
  predicate HeirHasFocus(d: Desktop) {
    d.focused ==
    if d.menu != [] then Some(d.menu[|d.menu| - 1])
    else if d.mid != [] then Some(d.mid[|d.mid| - 1])
    else d.bottom
  }

  // ------------------------------------------------------------------------ clicking

  lemma RaisedIsLast(d: Desktop, w: Wid)
    ensures LastOfItsStack(Raise(d, w), w)
  {
  }

  lemma RestoredIsShown(d: Desktop, w: Wid)
    requires w in d.heap
    ensures w in Restore(d, w).heap && !Restore(d, w).heap[w].minimized
  {
  }

  lemma FocusGoes(d: Desktop, w: Wid)
    requires Tidy(d) && Closed(d) && w in d.windows && w in d.heap
    ensures var r := Focus(d, Some(w));
            r.focused == Some(w) && w in r.heap && !r.heap[w].minimized &&
            (d.focused != Some(w) ==> LastOfItsStack(r, w))
  {
    if d.focused != Some(w) {
      RestoredIsShown(d, w);
      RaisedIsLast(Restore(d, w).(focused := Some(w)), w);
    }
  }

  lemma FocusFallsBack(d: Desktop)
    requires Tidy(d) && Closed(d)
    ensures Focus(d, None).focused == if d.focused.None? then None else d.bottom
  {
  }

  // ------------------------------------------------------------------ handing it on

  lemma LastStays(s: seq<Wid>)
    requires s != [] && NoDup(s)
    ensures ToEnd(s, s[|s| - 1]) == s
  {
    var init, last := s[..|s| - 1], s[|s| - 1];
    assert last !in init;
    assert s == init + [last];
  }

  /** A focus change to a window that is not minimised raises it, and touches no window structure. */
  lemma FocusShown(d: Desktop, t: Option<Wid>)
    requires Closed(d) && d.focused.None? && (t.Some? ==> t.value in d.heap && !d.heap[t.value].minimized)
    requires t.None? ==> d.bottom.None?
    ensures var r := Focus(d, t);
            r.heap == d.heap && r.bottom == d.bottom && r.focused == t &&
            (if t.Some? then r.menu == ToEnd(d.menu, t.value) && r.mid == ToEnd(d.mid, t.value)
             else r.menu == d.menu && r.mid == d.mid)
  {
  }

  /** Handing the focus on leaves the stacks and the windows as they are. */
  lemma RefocusLists(d: Desktop)
    requires Tidy(d) && Closed(d)
    ensures var r := Refocus(d); r.heap == d.heap && r.menu == d.menu && r.mid == d.mid && r.bottom == d.bottom
    ensures HeirHasFocus(Refocus(d))
  {
    SuccessorShown(d);
    SuccessorLive(d);
    FocusShown(d.(focused := None), Successor(d));
    if d.menu != [] {
      LastStays(d.menu);
      assert d.menu[|d.menu| - 1] in d.menu;
    } else if d.mid != [] {
      LastStays(d.mid);
      assert d.mid[|d.mid| - 1] in d.mid;
    }
  }

  /** Whoever closes with the focus leaves it to the last menu, mid or bottom window. */
  lemma CloseHandsOn(d: Desktop, w: Wid)
    requires Tidy(d) && Closed(d) && w in d.windows && w in d.heap
    ensures if d.focused == Some(w) then HeirHasFocus(Close(d, w)) else Close(d, w).focused == d.focused
  {
    if d.focused == Some(w) {
      DetachTidy(d, w);
      MarkTidy(Detach(d, w), w);
      TidyIsClosed(Mark(Detach(d, w), w));
      RefocusLists(Mark(Detach(d, w), w));
    }
  }

  lemma MinimizeHandsOn(d: Desktop, w: Wid)
    requires Tidy(d) && Closed(d) && w in d.windows && w in d.heap && !d.heap[w].minimized
    ensures var r := FinishMinimize(d, w);
            w in r.heap && r.heap[w].minimized && w in r.minimized
    ensures if d.focused == Some(w) then HeirHasFocus(FinishMinimize(d, w))
            else FinishMinimize(d, w).focused == d.focused
  {
    var s := Detach(d, w);
    var e := Put(s, w, s.heap[w].(minimized := true, effect := NoEffect));
    DetachTidy(d, w);
    PutForgottenTidy(s, w, e.heap[w]);
    TidyIsClosed(e);
    if d.focused == Some(w) {
      RefocusLists(e);
      RefocusKeeps(e, w);
    }
  }

  // ---------------------------------------------------------------------- in a redraw

  lemma LastWithout(s: seq<Wid>, w: Wid)
    requires s != [] && s[|s| - 1] != w
    ensures var r := Without(s, w); r != [] && r[|r| - 1] == s[|s| - 1]
  {
  }

  /** What the heir rule looks at. */
  ghost predicate SameHeirs(d: Desktop, e: Desktop) {
    e.focused == d.focused && e.menu == d.menu && e.mid == d.mid && e.bottom == d.bottom
  }

  lemma DetachKeepsHeir(d: Desktop, w: Wid)
    requires Tidy(d) && w in d.windows && w in d.heap && HeirHasFocus(d) && d.focused != Some(w)
    ensures HeirHasFocus(Detach(d, w))
  {
    if d.menu != [] {
      LastWithout(d.menu, w);
    } else if d.mid != [] {
      LastWithout(d.mid, w);
    }
  }

  /** The focus is where it was, with f, or f is gone and it was handed on. */
  ghost predicate Settled(d: Desktop, f: Wid) {
    d.focused == Some(f) || (HeirHasFocus(d) && (f in d.windows && f in d.heap ==> d.heap[f].minimized))
  }

  lemma CloseKeepsOthers(d: Desktop, w: Wid, f: Wid)
    requires Tidy(d) && Closed(d) && w in d.windows && w in d.heap && f in d.heap
    ensures f in Close(d, w).heap && (f != w ==> Close(d, w).heap[f].minimized == d.heap[f].minimized)
  {
    var e := Mark(Detach(d, w), w);
    DetachTidy(d, w);
    MarkTidy(Detach(d, w), w);
    TidyIsClosed(e);
    RefocusLists(e);
  }

  lemma CloseSettled(d: Desktop, w: Wid, f: Wid)
    requires Tidy(d) && Closed(d) && w in d.windows && w in d.heap && f in d.heap && Settled(d, f)
    ensures f in Close(d, w).heap && Settled(Close(d, w), f)
  {
    CloseTidy(d, w);
    CloseHandsOn(d, w);
    CloseKeepsOthers(d, w, f);
    if d.focused != Some(w) && d.focused != Some(f) {
      DetachKeepsHeir(d, w);
      assert SameHeirs(Detach(d, w), Close(d, w));
    }
  }

  lemma {:induction false} CloseAllSettled(d: Desktop, ws: seq<Wid>, f: Wid)
    requires Tidy(d) && NoDup(ws) && (forall w :: w in ws ==> w in d.windows) && f in d.heap && Settled(d, f)
    ensures f in CloseAll(d, ws).heap && Settled(CloseAll(d, ws), f)
    decreases |ws|
  {
    if ws != [] {
      var w := ws[|ws| - 1];
      TidyIsClosed(d);
      CloseTidy(d, w);
      CloseSettled(d, w, f);
      assert w !in ws[..|ws| - 1];
      CloseAllSettled(Close(d, w), ws[..|ws| - 1], f);
    }
  }

  lemma MinimizeSettled(d: Desktop, w: Wid, f: Wid)
    requires Tidy(d) && Closed(d) && w in d.windows && w in d.heap && f in d.heap && Settled(d, f)
    ensures f in FinishMinimize(d, w).heap && Settled(FinishMinimize(d, w), f)
  {
    if !d.heap[w].minimized {
      MinimizeHandsOn(d, w);
      MinimizeKeepsOthers(d, w, f);
      if d.focused != Some(w) && d.focused != Some(f) {
        DetachKeepsHeir(d, w);
        assert SameHeirs(Detach(d, w), FinishMinimize(d, w));
      }
    }
  }

  lemma MinimizeKeepsOthers(d: Desktop, w: Wid, f: Wid)
    requires Tidy(d) && Closed(d) && w in d.windows && w in d.heap && !d.heap[w].minimized && f in d.heap
    ensures var r := FinishMinimize(d, w);
            r.windows == d.windows && f in r.heap && (f != w ==> r.heap[f].minimized == d.heap[f].minimized)
  {
    var s := Detach(d, w);
    var e := Put(s, w, s.heap[w].(minimized := true, effect := NoEffect));
    DetachTidy(d, w);
    PutForgottenTidy(s, w, e.heap[w]);
    TidyIsClosed(e);
    RefocusLists(e);
    RefocusKeeps(e, f);
  }

  lemma {:induction false} MinimizeAllSettled(d: Desktop, ws: seq<Wid>, f: Wid)
    requires Tidy(d) && (forall w :: w in ws ==> w in d.windows) && f in d.heap && Settled(d, f)
    ensures f in MinimizeAll(d, ws).heap && Settled(MinimizeAll(d, ws), f)
    decreases |ws|
  {
    if ws != [] {
      var w := ws[|ws| - 1];
      TidyIsClosed(d);
      FinishMinimizeTidy(d, w);
      MinimizeSettled(d, w, f);
      MinimizeAllSettled(FinishMinimize(d, w), ws[..|ws| - 1], f);
    }
  }

  lemma {:induction false} NobodyFocused(d: Desktop, ws: seq<Wid>)
    requires Tidy(d) && NoDup(ws) && (forall w :: w in ws ==> w in d.windows) && d.focused.None?
    ensures CloseAll(d, ws).focused.None?
    decreases |ws|
  {
    if ws != [] {
      var w := ws[|ws| - 1];
      TidyIsClosed(d);
      CloseTidy(d, w);
      CloseHandsOn(d, w);
      assert w !in ws[..|ws| - 1];
      NobodyFocused(Close(d, w), ws[..|ws| - 1]);
    }
  }

  lemma {:induction false} NobodyFocusedStill(d: Desktop, ws: seq<Wid>)
    requires Tidy(d) && (forall w :: w in ws ==> w in d.windows) && d.focused.None?
    ensures MinimizeAll(d, ws).focused.None?
    decreases |ws|
  {
    if ws != [] {
      var w := ws[|ws| - 1];
      TidyIsClosed(d);
      FinishMinimizeTidy(d, w);
      if !d.heap[w].minimized {
        MinimizeHandsOn(d, w);
      }
      NobodyFocusedStill(FinishMinimize(d, w), ws[..|ws| - 1]);
    }
  }

  /** What a redraw does to the focus. */
  ghost predicate FocusAfterRedraw(d: Desktop, r: Desktop) {
    match d.focused
    case None => r.focused.None?
    case Some(f) => f in r.heap && Settled(r, f)
  }

  lemma PhaseFocus(d: Desktop, e: Desktop, removed: seq<Wid>, minimized: seq<Wid>)
    requires Tidy(e) && e.focused == d.focused && NoDup(removed) && (forall w :: w in removed ==> w in e.windows)
    requires forall w :: w in minimized ==> w in e.windows && w !in removed
    ensures FocusAfterRedraw(d, MinimizeAll(CloseAll(e, removed), minimized))
  {
    match d.focused
    case None =>
      NobodyFocused(e, removed);
      NobodyFocusedStill(CloseAll(e, removed), minimized);
    case Some(f) =>
      CloseAllSettled(e, removed, f);
      MinimizeAllSettled(CloseAll(e, removed), minimized, f);
  }

  /** Through a redraw the focused window keeps the focus unless it is removed or minimised;
      then the last menu, mid or bottom window that is left has it. */
  lemma RedrawFocus(d: Desktop, expired: set<Wid>)
    requires Tidy(d)
    ensures FocusAfterRedraw(d, RedrawStep(d, expired))
  {
    ToRemoveNoDup(d, expired);
    ToMinimizeNoDup(d, expired);
    EndEffectsTidy(d, expired);
    PhaseFocus(d, EndEffects(d, expired), ToRemove(d, expired), ToMinimize(d, expired));
  }

  // ------------------------------------------------------------------ after every event

  /** Who has the focus after an event. */
  ghost predicate FocusAfter(d: Desktop, e: Event, r: Desktop) {
    match e
    case New(_, _, _, stealFocus) => r.focused == if stealFocus then Some(d.nextWid) else d.focused
    case FocusWindow(w) => r.focused == if w in d.windows then Some(w) else d.focused
    case FocusAt(hit) => r.focused == if hit.Some? then hit else if d.focused.None? then None else d.bottom
    case TileFocused(_, _, _, _) => r.focused == if d.focused.None? then d.bottom else d.focused
    case CloseWindow(w) =>
      if d.focused == Some(w) && w !in r.windows then HeirHasFocus(r) else r.focused == d.focused
    case Redraw(_) => FocusAfterRedraw(d, r)
    case _ => r.focused == d.focused
  }

  lemma EditsKeepFocus(d: Desktop, w: Wid, x: int, y: int)
    requires w in d.heap
    ensures Flip(d, w).focused == d.focused && Accept(d, w).focused == d.focused
    ensures Done(d, w, x, y).focused == d.focused && Move(d, w, x, y).focused == d.focused
    ensures Untile(d, w).focused == d.focused
  {
  }

  lemma ReorderKeepsFocus(d: Desktop, w: Wid, z: nat)
    requires Closed(d) && w in d.heap
    ensures Reorder(d, w, z).focused == d.focused
  {
  }

  lemma TileKeepsFocus(d: Desktop, w: Wid, columns: int, rows: int, cx: int, cy: int)
    requires w in d.heap && Closed(d) && columns > 0 && rows > 0
    ensures Tile(d, w, columns, rows, cx, cy).focused == d.focused
  {
  }

  lemma MarkForCloseFocus(d: Desktop, w: Wid)
    requires Tidy(d) && Closed(d) && w in d.windows && w in d.heap
    ensures var r := MarkForClose(d, w);
            if d.focused == Some(w) && w !in r.windows then HeirHasFocus(r) else r.focused == d.focused
  {
    if !Shown(d.heap[w]) {
      CloseTidy(d, w);
      CloseHandsOn(d, w);
    }
  }

  lemma MessageKeepsFocus(d: Desktop, w: Wid, e: Event)
    requires Tidy(d) && Closed(d) && Allowed(d, e) && w in d.windows && w in d.heap
    requires !e.FocusWindow? && !e.CloseWindow?
    ensures StepWindow(d, w, e).focused == d.focused
  {
    match e
    case StackWindow(_, z) => ReorderKeepsFocus(d, w, Short(z));
    case MoveWindow(_, x, y) => EditsKeepFocus(d, w, x, y);
    case ResizeDone(_, width, height) => EditsKeepFocus(d, w, width, height);
    case Maximize(_) =>
      EditsKeepFocus(d, w, 0, 0);
      TileKeepsFocus(d, w, 1, 1, 0, 0);
    case _ => EditsKeepFocus(d, w, 0, 0);
  }

  lemma MessageFocus(d: Desktop, w: Wid, e: Event)
    requires Tidy(d) && Allowed(d, e) && w in d.windows && w in d.heap
    requires !e.New? && !e.FocusAt? && !e.TileFocused? && !e.Redraw? && e.w == w
    ensures FocusAfter(d, e, StepWindow(d, w, e))
  {
    TidyIsClosed(d);
    if e.FocusWindow? {
      FocusGoes(d, w);
    } else if e.CloseWindow? {
      MarkForCloseFocus(d, w);
    } else {
      MessageKeepsFocus(d, w, e);
    }
  }

  lemma NewFocus(d: Desktop, width: int, height: int, style: Style)
    requires Tidy(d)
    ensures var c := Create(d, width, height, style);
            Closed(c) && c.focused == d.focused && Focus(c, Some(d.nextWid)).focused == Some(d.nextWid)
  {
    CreateTidy(d, width, height, style);
    TidyIsClosed(Create(d, width, height, style));
    FocusGoes(Create(d, width, height, style), d.nextWid);
  }

  lemma InputFocus(d: Desktop, e: Event)
    requires Tidy(d) && Allowed(d, e) && (e.New? || e.FocusAt? || e.TileFocused?)
    ensures FocusAfter(d, e, Respond(d, e))
  {
    TidyIsClosed(d);
    match e
    case New(width, height, style, _) => NewFocus(d, width, height, style);
    case FocusAt(hit) =>
      if hit.Some? {
        FocusGoes(d, hit.value);
      } else {
        FocusFallsBack(d);
      }
    case TileFocused(columns, rows, cx, cy) =>
      if d.focused.Some? {
        TileKeepsFocus(d, d.focused.value, columns, rows, cx, cy);
      } else if d.bottom.Some? {
        FocusGoes(d, d.bottom.value);
      }
  }

  /** After every event of every run, the focus is where the event puts it. */
  lemma StepFocus(d: Desktop, e: Event)
    requires Tidy(d) && Allowed(d, e)
    ensures FocusAfter(d, e, Step(d, e))
  {
    if e.Redraw? {
      RedrawFocus(d, e.expired);
    } else if e.New? || e.FocusAt? || e.TileFocused? {
      InputFocus(d, e);
    } else if e.w in d.windows {
      MessageFocus(d, e.w, e);
    }
  }

  /** A live window that is clicked or asks for the focus has it, is not minimised, and if it
      did not have it before is the last of the stack that holds it. */
  lemma ClickFocuses(d: Desktop, e: Event, w: Wid)
    requires Tidy(d) && w in d.windows && (e == FocusAt(Some(w)) || e == FocusWindow(w))
    ensures Allowed(d, e)
    ensures var r := Step(d, e);
            r.focused == Some(w) && w in r.heap && !r.heap[w].minimized &&
            (d.focused != Some(w) ==> LastOfItsStack(r, w))
  {
    TidyIsClosed(d);
    FocusGoes(d, w);
  }

  /** A run ends with its last event. */
  lemma {:induction false} RunLast(d: Desktop, es: seq<Event>, e: Event)
    requires Tidy(d) && AllowedRun(d, es + [e])
    ensures AllowedRun(d, es) && Allowed(Run(d, es), e) && Run(d, es + [e]) == Step(Run(d, es), e)
    decreases |es|
  {
    if es == [] {
      assert (es + [e])[0] == e && (es + [e])[1..] == [];
    } else {
      assert (es + [e])[0] == es[0] && (es + [e])[1..] == es[1..] + [e];
      RunLast(Step(d, es[0]), es[1..], e);
    }
  }

  /** In the state r, at the end of a run, the focus is where its last event put it. */
  ghost predicate FocusOfLast(d: Desktop, es: seq<Event>, r: Desktop)
    requires Tidy(d)
  {
    es != [] && AllowedRun(d, es[..|es| - 1]) ==> FocusAfter(Run(d, es[..|es| - 1]), es[|es| - 1], r)
  }

  lemma FocusOfRun(d: Desktop, es: seq<Event>)
    requires Tidy(d) && AllowedRun(d, es)
    ensures FocusOfLast(d, es, Run(d, es))
    ensures es != [] ==> AllowedRun(d, es[..|es| - 1])
  {
    if es != [] {
      var before, e := es[..|es| - 1], es[|es| - 1];
      assert es == before + [e];
      RunLast(d, before, e);
      StepFocus(Run(d, before), e);
    }
  }

  lemma ClickStep(b: Desktop, e: Event, r: Desktop)
    requires Tidy(b) && Allowed(b, e) && e.FocusAt? && e.hit.Some? && r == Step(b, e)
    ensures r.focused == e.hit
  {
    ClickFocuses(b, e, e.hit.value);
  }

  /** In particular a last click gets the focus. */
  lemma LastClick(d: Desktop, es: seq<Event>, e: Event, r: Desktop)
    requires Tidy(d) && AllowedRun(d, es + [e]) && r == Run(d, es + [e]) && e.FocusAt? && e.hit.Some?
    ensures r.focused == e.hit
  {
    RunLast(d, es, e);
    ClickStep(Run(d, es), e, r);
  }
}
