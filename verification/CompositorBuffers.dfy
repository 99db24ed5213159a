/**
  The two-phase resize protocol: which shared buffers are in use and which were
  given back (apps/compositor.c:148-151, 461-539, 1508-1518, 2855-2876).
 */
module CompositorBuffers {
  import opened Basics
  import opened CompositorState
  import opened CompositorInvariant
  import opened CompositorSteps

  /** The buffers of a window: the one shown, and the one of a resize under way. */
  function BuffersOf(win: Window): set<nat> {
    {win.bufid} + if win.newbufid == 0 then {} else {win.newbufid}
  }

  /** No buffer is shared, none in use was released, and none was released twice. */
  ghost predicate Buffered(d: Desktop) {
    (forall w :: w in d.windows ==>
       w in d.heap && 0 < d.heap[w].bufid && d.heap[w].bufid != d.heap[w].newbufid &&
       forall b :: b in BuffersOf(d.heap[w]) ==> b < d.nextBuf && b !in d.released) &&
    (forall v, w :: v in d.windows && w in d.windows && v != w ==> BuffersOf(d.heap[v]) !! BuffersOf(d.heap[w])) &&
    NoDup(d.released) && (forall b :: b in d.released ==> b < d.nextBuf) && 0 < d.nextBuf
  }

  /** Nothing about buffers changes. */
  ghost predicate SameBuffers(d: Desktop, e: Desktop) {
    d.heap.Keys == e.heap.Keys && e.nextBuf == d.nextBuf && e.released == d.released &&
    forall w :: w in d.heap ==> e.heap[w].bufid == d.heap[w].bufid && e.heap[w].newbufid == d.heap[w].newbufid
  }

  lemma SameBuffersBuffered(d: Desktop, e: Desktop)
    requires Buffered(d) && SameBuffers(d, e) && forall w :: w in e.windows ==> w in d.windows
    ensures Buffered(e)
  {
  }

  lemma FocusSame(d: Desktop, target: Option<Wid>)
    requires target.Some? ==> target.value in d.heap
    requires d.bottom.Some? ==> d.bottom.value in d.heap
    ensures SameBuffers(d, Focus(d, target))
  {
  }

  lemma RefocusSame(d: Desktop)
    requires Closed(d)
    ensures SameBuffers(d, Refocus(d))
  {
    assert d.menu != [] ==> d.menu[|d.menu| - 1] in d.menu;
    assert d.mid != [] ==> d.mid[|d.mid| - 1] in d.mid;
    FocusSame(d.(focused := None), Successor(d));
  }

  lemma DetachSame(d: Desktop, w: Wid)
    requires w in d.heap && Closed(d)
    ensures SameBuffers(d, Mark(Detach(d, w), w)) && Closed(Mark(Detach(d, w), w))
  {
  }

  lemma CloseSame(d: Desktop, w: Wid)
    requires w in d.heap && Closed(d)
    ensures Close(d, w).released == d.released + [d.heap[w].bufid]
    ensures SameBuffers(d, Close(d, w).(released := d.released))
  {
    DetachSame(d, w);
    if d.focused == Some(w) {
      RefocusSame(Mark(Detach(d, w), w));
    }
  }

  /** A buffer that no live window uses can be released. */
  lemma ReleaseBuffered(d: Desktop, b: nat)
    requires Buffered(d) && b < d.nextBuf && b !in d.released
    requires forall w :: w in d.windows ==> b !in BuffersOf(d.heap[w])
    ensures Buffered(d.(released := d.released + [b]))
  {
  }

  /** Closing a window releases the buffer it shows. */
  lemma CloseBuffers(d: Desktop, w: Wid)
    requires Tidy(d) && Buffered(d) && w in d.windows
    ensures w in d.heap && Closed(d) && Buffered(Close(d, w)) && Close(d, w).released == d.released + [d.heap[w].bufid]
  {
    TidyIsClosed(d);
    CloseTidy(d, w);
    CloseSame(d, w);
    var r := Close(d, w).(released := d.released);
    SameBuffersBuffered(d, r);
    UnusedAfterClose(d, r, w);
    ReleaseBuffered(r, d.heap[w].bufid);
  }

  lemma UnusedAfterClose(d: Desktop, r: Desktop, w: Wid)
    requires Buffered(d) && w in d.windows && SameBuffers(d, r) && r.windows == Without(d.windows, w)
    ensures var b := d.heap[w].bufid;
            b < d.nextBuf && b !in d.released && forall v :: v in r.windows ==> b !in BuffersOf(r.heap[v])
  {
    var b := d.heap[w].bufid;
    assert b in BuffersOf(d.heap[w]);
    forall v | v in r.windows ensures b !in BuffersOf(r.heap[v]) {
      assert BuffersOf(r.heap[v]) == BuffersOf(d.heap[v]);
      assert v in d.windows && v != w;
    }
  }

  lemma FinishMinimizeSame(d: Desktop, w: Wid)
    requires w in d.heap && Closed(d)
    ensures SameBuffers(d, FinishMinimize(d, w))
  {
    if !d.heap[w].minimized {
      var d1 := Detach(d, w);
      var d2 := Put(d1, w, d1.heap[w].(minimized := true, effect := NoEffect));
      if d.focused == Some(w) {
        RefocusSame(d2);
      }
    }
  }

  lemma SameTrans(a: Desktop, b: Desktop, c: Desktop)
    requires SameBuffers(a, b.(released := a.released)) && SameBuffers(b, c.(released := b.released))
    ensures SameBuffers(a, c.(released := a.released))
  {
  }

  lemma {:induction false} CloseAllSame(d: Desktop, ws: seq<Wid>)
    requires Tidy(d) && NoDup(ws) && forall w :: w in ws ==> w in d.windows
    ensures SameBuffers(d, CloseAll(d, ws).(released := d.released))
    decreases |ws|
  {
    if ws != [] {
      var w := ws[|ws| - 1];
      CloseTidy(d, w);
      CloseSame(d, w);
      CloseAllSame(Close(d, w), ws[..|ws| - 1]);
      SameTrans(d, Close(d, w), CloseAll(d, ws));
    }
  }

  lemma {:induction false} CloseAllBuffers(d: Desktop, ws: seq<Wid>)
    requires Tidy(d) && Buffered(d) && NoDup(ws) && forall w :: w in ws ==> w in d.windows
    ensures Buffered(CloseAll(d, ws)) && d.released <= CloseAll(d, ws).released
    decreases |ws|
  {
    if ws != [] {
      var w := ws[|ws| - 1];
      CloseTidy(d, w);
      CloseBuffers(d, w);
      CloseAllBuffers(Close(d, w), ws[..|ws| - 1]);
    }
  }

  lemma {:induction false} MinimizeAllBuffers(d: Desktop, ws: seq<Wid>)
    requires Tidy(d) && Buffered(d) && forall w :: w in ws ==> w in d.windows
    ensures Buffered(MinimizeAll(d, ws)) && SameBuffers(d, MinimizeAll(d, ws))
    decreases |ws|
  {
    if ws != [] {
      var w := ws[|ws| - 1];
      TidyIsClosed(d);
      FinishMinimizeTidy(d, w);
      FinishMinimizeSame(d, w);
      SameBuffersBuffered(d, FinishMinimize(d, w));
      MinimizeAllBuffers(FinishMinimize(d, w), ws[..|ws| - 1]);
    }
  }

  lemma PhaseBuffers(d: Desktop, e: Desktop, removed: seq<Wid>, minimized: seq<Wid>)
    requires Tidy(e) && Buffered(e) && SameBuffers(d, e) && NoDup(removed)
    requires (forall w :: w in removed ==> w in e.windows)
    requires forall w :: w in minimized ==> w in e.windows && w !in removed
    ensures var r := MinimizeAll(CloseAll(e, removed), minimized);
            Buffered(r) && d.released <= r.released && SameBuffers(d, r.(released := d.released))
  {
    CloseAllBuffers(e, removed);
    CloseAllSame(e, removed);
    MinimizeAllBuffers(CloseAll(e, removed), minimized);
  }

  lemma RedrawBuffers(d: Desktop, expired: set<Wid>)
    requires Tidy(d) && Buffered(d)
    ensures Buffered(RedrawStep(d, expired)) && d.released <= RedrawStep(d, expired).released
    ensures SameBuffers(d, RedrawStep(d, expired).(released := d.released))
  {
    ToRemoveNoDup(d, expired);
    ToMinimizeNoDup(d, expired);
    EndEffectsTidy(d, expired);
    SameBuffersBuffered(d, EndEffects(d, expired));
    PhaseBuffers(d, EndEffects(d, expired), ToRemove(d, expired), ToMinimize(d, expired));
  }

  /** The buffer is not in use, was not released, and is not the number of none. */
  ghost predicate Unused(d: Desktop, b: nat) {
    b != 0 && b !in d.released && forall w :: w in d.windows && w in d.heap ==> b !in BuffersOf(d.heap[w])
  }

  /** An accepted resize takes a buffer that was never used; a repeated one takes none. */
  lemma AcceptBuffers(d: Desktop, w: Wid)
    requires Buffered(d) && w in d.windows
    ensures Buffered(Accept(d, w)) && Accept(d, w).released == d.released
    ensures d.heap[w].newbufid == 0 ==> Unused(d, Accept(d, w).heap[w].newbufid)
    ensures d.heap[w].newbufid != 0 ==> Accept(d, w) == d
  {
    var e := Accept(d, w);
    if d.heap[w].newbufid == 0 {
      assert BuffersOf(e.heap[w]) == BuffersOf(d.heap[w]) + {d.nextBuf};
      forall v | v in d.windows && v != w ensures e.heap[v] == d.heap[v] && d.nextBuf !in BuffersOf(d.heap[v]) {
      }
    }
  }

  /** A finished resize releases the old buffer and shows the pending one. */
  lemma DoneBuffers(d: Desktop, w: Wid, width: int, height: int)
    requires Buffered(d) && w in d.windows
    ensures Buffered(Done(d, w, width, height))
    ensures var win, r := d.heap[w], Done(d, w, width, height);
            if win.newbufid == 0 then r == d
            else
              r.released == d.released + [win.bufid] && r.heap[w].bufid == win.newbufid && r.heap[w].newbufid == 0 &&
              win.bufid !in BuffersOf(r.heap[w])
  {
    var win := d.heap[w];
    if win.newbufid != 0 {
      SwapBuffered(d, w, width, height);
      var r := Done(d, w, width, height).(released := d.released);
      ReleaseBuffered(r, win.bufid);
      assert Done(d, w, width, height) == r.(released := d.released + [win.bufid]);
    }
  }

  /** The pending buffer takes the place of the one that is shown. */
  lemma SwapBuffered(d: Desktop, w: Wid, width: int, height: int)
    requires Buffered(d) && w in d.windows && d.heap[w].newbufid != 0
    ensures var r := Done(d, w, width, height).(released := d.released);
            Buffered(r) && forall v :: v in r.windows ==> d.heap[w].bufid !in BuffersOf(r.heap[v])
    ensures d.heap[w].bufid < d.nextBuf && d.heap[w].bufid !in d.released
  {
    var win := d.heap[w];
    var r := Done(d, w, width, height).(released := d.released);
    assert win.bufid in BuffersOf(win) && win.newbufid in BuffersOf(win);
    assert BuffersOf(r.heap[w]) == {win.newbufid} <= BuffersOf(win);
    assert forall v :: v in d.windows && v != w ==> r.heap[v] == d.heap[v];
  }

  /** A resize of w that is under way keeps its buffer. */
  ghost predicate KeepsPending(d: Desktop, e: Desktop, w: Wid) {
    w in d.windows && w in e.windows && w in d.heap && d.heap[w].newbufid != 0 ==>
      w in e.heap && e.heap[w].newbufid == d.heap[w].newbufid
  }

  /** No window that is not live becomes live again. */
  ghost predicate NoRevival(d: Desktop, e: Desktop) {
    forall w :: w in d.heap ==> w in e.heap && (w in e.windows ==> w in d.windows)
  }

  /** What a step does for buffers: they stay apart, releases are only added, and
      resizes under way keep their buffers. */
  ghost predicate BufferStep(d: Desktop, r: Desktop) {
    Buffered(r) && d.released <= r.released && NoRevival(d, r) && forall w :: KeepsPending(d, r, w)
  }

  lemma SameStep(d: Desktop, r: Desktop)
    requires Buffered(d) && SameBuffers(d, r) && r.windows == d.windows
    ensures BufferStep(d, r)
  {
  }

  /** The same when windows were closed on the way. */
  lemma ShrinkStep(d: Desktop, r: Desktop)
    requires Buffered(r) && d.released <= r.released && SameBuffers(d, r.(released := d.released))
    requires forall w :: w in r.windows ==> w in d.windows
    ensures BufferStep(d, r)
  {
  }

  lemma CloseStep(d: Desktop, w: Wid)
    requires Tidy(d) && Buffered(d) && w in d.windows
    ensures w in d.heap && Closed(d) && BufferStep(d, Close(d, w))
  {
    TidyIsClosed(d);
    CloseTidy(d, w);
    CloseSame(d, w);
    CloseBuffers(d, w);
    ShrinkStep(d, Close(d, w));
  }

  lemma AcceptStep(d: Desktop, w: Wid)
    requires Buffered(d) && w in d.windows
    ensures BufferStep(d, Accept(d, w))
  {
    AcceptBuffers(d, w);
  }

  lemma PutSame(d: Desktop, w: Wid, win: Window)
    requires Buffered(d) && w in d.heap && win.bufid == d.heap[w].bufid && win.newbufid == d.heap[w].newbufid
    ensures BufferStep(d, Put(d, w, win))
  {
  }

  lemma FocusStep(d: Desktop, target: Option<Wid>)
    requires Buffered(d) && Closed(d) && (target.Some? ==> target.value in d.heap)
    ensures BufferStep(d, Focus(d, target))
  {
    FocusSame(d, target);
    assert Focus(d, target).windows == d.windows;
    SameStep(d, Focus(d, target));
  }

  lemma UnorderSame(d: Desktop, w: Wid)
    requires w in d.heap
    ensures SameBuffers(d, Unorder(d, w)) && Unorder(d, w).windows == d.windows
  {
  }

  lemma ReorderSame(d: Desktop, w: Wid, z: nat)
    requires Closed(d) && w in d.heap
    ensures SameBuffers(d, Reorder(d, w, z)) && Reorder(d, w, z).windows == d.windows
  {
    UnorderSame(d, w);
    var d1 := Unorder(d, w);
    match OwnerOf(z)
    case TopSlot => if d1.top.Some? { UnorderSame(d1, d1.top.value); }
    case BottomSlot => if d1.bottom.Some? { UnorderSame(d1, d1.bottom.value); }
    case _ =>
  }

  lemma ReorderStep(d: Desktop, w: Wid, z: nat)
    requires Buffered(d) && Closed(d) && w in d.heap
    ensures BufferStep(d, Reorder(d, w, z))
  {
    ReorderSame(d, w, z);
    SameStep(d, Reorder(d, w, z));
  }

  lemma MoveStep(d: Desktop, w: Wid, x: int, y: int)
    requires Buffered(d) && w in d.heap
    ensures BufferStep(d, Move(d, w, x, y))
  {
    SameStep(d, Move(d, w, x, y));
  }

  lemma FlipStep(d: Desktop, w: Wid)
    requires Buffered(d) && w in d.heap
    ensures BufferStep(d, Flip(d, w))
  {
    SameStep(d, Flip(d, w));
  }

  lemma TileStep(d: Desktop, w: Wid, columns: int, rows: int, cx: int, cy: int)
    requires Buffered(d) && Closed(d) && w in d.heap && columns > 0 && rows > 0
    ensures BufferStep(d, Tile(d, w, columns, rows, cx, cy))
  {
    SameStep(d, Tile(d, w, columns, rows, cx, cy));
  }

  lemma UntileStep(d: Desktop, w: Wid)
    requires Buffered(d) && w in d.heap
    ensures BufferStep(d, Untile(d, w))
  {
    SameStep(d, Untile(d, w));
  }

  lemma MarkForCloseStep(d: Desktop, w: Wid)
    requires Tidy(d) && Buffered(d) && w in d.windows && w in d.heap
    ensures Closed(d) && BufferStep(d, MarkForClose(d, w))
  {
    TidyIsClosed(d);
    if Shown(d.heap[w]) {
      PutSame(d, w, d.heap[w].(effect := PickEffect(d.heap[w].style, true)));
    } else {
      CloseStep(d, w);
    }
  }

  lemma StepWindowBuffers(d: Desktop, w: Wid, e: Event)
    requires Tidy(d) && Buffered(d) && Allowed(d, e) && w in d.windows && w in d.heap && !e.ResizeDone?
    ensures BufferStep(d, StepWindow(d, w, e))
  {
    TidyIsClosed(d);
    SameStep(d, d);
    var win := d.heap[w];
    match e
    case FlipWindow(_) => FlipStep(d, w);
    case MoveWindow(_, x, y) => MoveStep(d, w, x, y);
    case CloseWindow(_) => MarkForCloseStep(d, w);
    case StackWindow(_, z) => ReorderStep(d, w, Short(z));
    case ResizeAccept(_) => AcceptStep(d, w);
    case FocusWindow(_) => FocusStep(d, Some(w));
    case MinimizeWindow(_) => PutSame(d, w, win.(effect := Minimize));
    case Advertise(_, named) => PutSame(d, w, win.(advertised := named));
    case Maximize(_) =>
      UntileStep(d, w);
      TileStep(d, w, 1, 1, 0, 0);
    case _ =>
  }

  /** The event finishes a resize of w. */
  predicate Finishes(e: Event, w: Wid) {
    e.ResizeDone? && e.w == w
  }

  lemma InputBuffers(d: Desktop, e: Event)
    requires Tidy(d) && Buffered(d) && Allowed(d, e) && (e.New? || e.FocusAt? || e.TileFocused?)
    ensures BufferStep(d, Step(d, e))
  {
    TidyIsClosed(d);
    match e
    case New(width, height, style, _) => NewBuffers(d, width, height, style);
    case FocusAt(hit) => FocusStep(d, hit);
    case TileFocused(columns, rows, cx, cy) =>
      if d.focused.None? {
        FocusStep(d, d.bottom);
      } else {
        SameStep(d, d);
        TileStep(d, d.focused.value, columns, rows, cx, cy);
      }
  }

  lemma RedrawStepBuffers(d: Desktop, expired: set<Wid>, r: Desktop)
    requires Tidy(d) && Buffered(d) && r == RedrawStep(d, expired)
    ensures BufferStep(d, r)
  {
    RedrawBuffers(d, expired);
    ShrinkStep(d, r);
  }

  lemma StepIsRedraw(d: Desktop, e: Event)
    requires Tidy(d) && Allowed(d, e) && e.Redraw?
    ensures Step(d, e) == RedrawStep(d, e.expired)
  {
  }

  lemma RedrawEventBuffers(d: Desktop, e: Event)
    requires Tidy(d) && Buffered(d) && Allowed(d, e) && e.Redraw?
    ensures BufferStep(d, Step(d, e))
  {
    StepIsRedraw(d, e);
    RedrawStepBuffers(d, e.expired, Step(d, e));
  }

  lemma MessageBuffers(d: Desktop, e: Event)
    requires Tidy(d) && Buffered(d) && Allowed(d, e) && !e.ResizeDone?
    requires !e.New? && !e.FocusAt? && !e.TileFocused? && !e.Redraw?
    ensures BufferStep(d, Step(d, e))
  {
    if e.w in d.windows {
      StepWindowBuffers(d, e.w, e);
    } else {
      SameStep(d, d);
    }
  }

  /** The same for the end of a resize, of which only the other windows keep theirs. */
  ghost predicate DoneBufferStep(d: Desktop, r: Desktop, w: Wid) {
    Buffered(r) && d.released <= r.released && NoRevival(d, r) && forall v :: v != w ==> KeepsPending(d, r, v)
  }

  lemma DoneStep(d: Desktop, w: Wid, width: int, height: int)
    requires Buffered(d) && w in d.windows
    ensures DoneBufferStep(d, Done(d, w, width, height), w)
  {
    DoneBuffers(d, w, width, height);
  }

  lemma DoneEventBuffers(d: Desktop, e: Event)
    requires Tidy(d) && Buffered(d) && Allowed(d, e) && e.ResizeDone?
    ensures DoneBufferStep(d, Step(d, e), e.w)
  {
    if e.w in d.windows {
      DoneStep(d, e.w, e.width, e.height);
      assert Step(d, e) == Done(d, e.w, e.width, e.height);
    } else {
      SameStep(d, d);
      assert Step(d, e) == d;
    }
  }

  lemma OtherEventBuffers(d: Desktop, e: Event)
    requires Tidy(d) && Buffered(d) && Allowed(d, e) && !e.ResizeDone?
    ensures BufferStep(d, Step(d, e))
  {
    if e.New? || e.FocusAt? || e.TileFocused? {
      InputBuffers(d, e);
    } else if e.Redraw? {
      RedrawEventBuffers(d, e);
    } else {
      MessageBuffers(d, e);
    }
  }

  /** Every event keeps the buffers apart and only adds releases; and a resize under
      way keeps its buffer until it is done or its window is closed. */
  lemma StepBuffers(d: Desktop, e: Event)
    requires Tidy(d) && Buffered(d) && Allowed(d, e)
    ensures Buffered(Step(d, e)) && d.released <= Step(d, e).released && NoRevival(d, Step(d, e))
    ensures forall w :: !Finishes(e, w) ==> KeepsPending(d, Step(d, e), w)
  {
    if e.ResizeDone? {
      DoneEventBuffers(d, e);
    } else {
      OtherEventBuffers(d, e);
    }
  }

  lemma CreateBuffers(d: Desktop, width: int, height: int, style: Style)
    requires Tidy(d) && Buffered(d)
    ensures BufferStep(d, Create(d, width, height, style))
  {
    var c := Create(d, width, height, style);
    assert d.nextWid !in d.windows;
    assert forall w :: w in d.windows ==> c.heap[w] == d.heap[w];
    assert BuffersOf(c.heap[d.nextWid]) == {d.nextBuf};
  }

  lemma NewBuffers(d: Desktop, width: int, height: int, style: Style)
    requires Tidy(d) && Buffered(d)
    ensures var c := Create(d, width, height, style);
            BufferStep(d, c) && BufferStep(d, Focus(c, Some(d.nextWid)))
  {
    var c := Create(d, width, height, style);
    CreateBuffers(d, width, height, style);
    CreateTidy(d, width, height, style);
    TidyIsClosed(c);
    FocusStep(c, Some(d.nextWid));
  }

  /** Over every run: current and pending buffers are pairwise distinct, none of them
      was released, and nothing was released twice. */
  lemma {:induction false} RunBuffers(d: Desktop, es: seq<Event>)
    requires Tidy(d) && Buffered(d) && AllowedRun(d, es)
    ensures Buffered(Run(d, es)) && d.released <= Run(d, es).released && NoRevival(d, Run(d, es))
    decreases |es|
  {
    if es != [] {
      StepBuffers(d, es[0]);
      RunBuffers(Step(d, es[0]), es[1..]);
    }
  }

  lemma PendingTrans(d: Desktop, e: Desktop, f: Desktop, w: Wid)
    requires Buffered(e) && KeepsPending(d, e, w) && KeepsPending(e, f, w) && NoRevival(d, e) && NoRevival(e, f)
    ensures KeepsPending(d, f, w)
  {
  }

  lemma FirstStep(d: Desktop, es: seq<Event>, w: Wid)
    requires Tidy(d) && Buffered(d) && es != [] && AllowedRun(d, es) && !Finishes(es[0], w)
    ensures var e := Step(d, es[0]);
            Buffered(e) && KeepsPending(d, e, w) && NoRevival(d, e) && NoRevival(e, Run(d, es))
  {
    StepBuffers(d, es[0]);
    RunBuffers(Step(d, es[0]), es[1..]);
  }

  lemma {:induction false} RunPending(d: Desktop, es: seq<Event>, w: Wid)
    requires Tidy(d) && Buffered(d) && AllowedRun(d, es)
    requires forall i :: 0 <= i < |es| ==> !Finishes(es[i], w)
    ensures KeepsPending(d, Run(d, es), w)
    decreases |es|
  {
    if es != [] {
      FirstStep(d, es, w);
      RunPending(Step(d, es[0]), es[1..], w);
      PendingTrans(d, Step(d, es[0]), Run(d, es), w);
    }
  }

  /** Over every run that does not finish the resize of a window and at whose end the
      window is live, its pending buffer stays, and accepting again returns it. */
  lemma RunKeepsPending(d: Desktop, es: seq<Event>, w: Wid)
    requires Tidy(d) && Buffered(d) && AllowedRun(d, es) && w in d.windows && d.heap[w].newbufid != 0
    requires w in Run(d, es).windows && forall i :: 0 <= i < |es| ==> !Finishes(es[i], w)
    ensures var r := Run(d, es);
            w in r.heap && r.heap[w].newbufid == d.heap[w].newbufid && Accept(r, w) == r
  {
    RunPending(d, es, w);
  }

  lemma ReachableIsBuffered(screenWidth: nat, screenHeight: nat, es: seq<Event>)
    requires AllowedRun(Start(screenWidth, screenHeight), es)
    ensures Buffered(Run(Start(screenWidth, screenHeight), es))
  {
    RunBuffers(Start(screenWidth, screenHeight), es);
  }
}
