/**
  Runs of the compositor: client messages, user input and redraws as steps, and
  what every run keeps.
 */
module CompositorSteps {
  import opened Basics
  import opened CompositorState
  import opened CompositorInvariant

  /** What the compositor reacts to. FocusAt carries the window under the pointer,
      Redraw the windows whose current animation has run its length. */
  datatype Event =
    | New(width: int, height: int, style: Style, stealFocus: bool)
    | FlipWindow(w: Wid)
    | MoveWindow(w: Wid, x: int, y: int)
    | CloseWindow(w: Wid)
    | StackWindow(w: Wid, z: int)
    | ResizeAccept(w: Wid)
    | ResizeDone(w: Wid, width: int, height: int)
    | FocusWindow(w: Wid)
    | FocusAt(hit: Option<Wid>)
    | MinimizeWindow(w: Wid)
    | Advertise(w: Wid, named: bool)
    | Maximize(w: Wid)
    | TileFocused(columns: int, rows: int, cx: int, cy: int)
    | Redraw(expired: set<Wid>)

  // ----------------------------------------------------------------------- redraws

  lemma {:induction false} SelectNoDup(s: seq<Wid>, keep: Wid -> bool)
    requires NoDup(s)
    ensures NoDup(Select(s, keep))
  {
    if s != [] {
      var init, last := s[..|s| - 1], s[|s| - 1];
      SelectNoDup(init, keep);
      assert last !in init;
    }
  }

  lemma ConcatNoDup(a: seq<Wid>, b: seq<Wid>)
    requires NoDup(a) && NoDup(b) && forall w :: w in a ==> w !in b
    ensures NoDup(a + b)
  {
    forall i, j | 0 <= i < j < |a + b| ensures (a + b)[i] != (a + b)[j] {
      if i < |a| <= j {
        assert a[i] in a && b[j - |a|] in b;
      }
    }
  }

  /** No window is painted twice, and only live windows are. */
  lemma PaintOrderNoDup(d: Desktop)
    requires Tidy(d)
    ensures NoDup(PaintOrder(d)) && forall w :: w in PaintOrder(d) ==> w in d.windows
  {
    var bottom := if d.bottom.Some? then [d.bottom.value] else [];
    var top := if d.top.Some? then [d.top.value] else [];
    ConcatNoDup(bottom, d.mid);
    ConcatNoDup(bottom + d.mid, d.overlay);
    ConcatNoDup(bottom + d.mid + d.overlay, d.menu);
    ConcatNoDup(bottom + d.mid + d.overlay + d.menu, top);
  }

  lemma PaintedIsNotLoose(d: Desktop, w: Wid)
    requires Tidy(d) && w in PaintOrder(d)
    ensures !LooseClosing(d, w)
  {
  }

  /** A redraw never queues a window for removal twice, and queues live windows only. */
  lemma ToRemoveNoDup(d: Desktop, expired: set<Wid>)
    requires Tidy(d)
    ensures NoDup(ToRemove(d, expired))
    ensures forall w :: w in ToRemove(d, expired) ==> w in d.windows && w in d.heap && Closing(d.heap[w].effect)
  {
    PaintOrderNoDup(d);
    var drawn := Select(PaintOrder(d), EndedClosingIn(d, expired));
    var loose := Select(d.windows, LooseClosingIn(d));
    SelectNoDup(PaintOrder(d), EndedClosingIn(d, expired));
    SelectNoDup(d.windows, LooseClosingIn(d));
    forall w | w in drawn ensures w !in loose {
      PaintedIsNotLoose(d, w);
    }
    ConcatNoDup(drawn, loose);
  }

  lemma ToMinimizeNoDup(d: Desktop, expired: set<Wid>)
    requires Tidy(d)
    ensures NoDup(ToMinimize(d, expired))
    ensures forall w :: w in ToMinimize(d, expired) ==> w in d.windows && w !in ToRemove(d, expired)
  {
    PaintOrderNoDup(d);
    SelectNoDup(PaintOrder(d), EndedMinimizingIn(d, expired));
    ToRemoveNoDup(d, expired);
  }

  /** Close the windows of the list, the last first (`list_pop`). */
  ghost function CloseAll(d: Desktop, ws: seq<Wid>): (e: Desktop)
    requires Tidy(d) && NoDup(ws) && forall w :: w in ws ==> w in d.windows
    ensures Tidy(e) && forall w :: w in e.windows <==> w in d.windows && w !in ws
    decreases |ws|
  {
    if ws == [] then d
    else
      var w := ws[|ws| - 1];
      CloseTidy(d, w);
      CloseAll(Close(d, w), ws[..|ws| - 1])
  }

  ghost function MinimizeAll(d: Desktop, ws: seq<Wid>): (e: Desktop)
    requires Tidy(d) && forall w :: w in ws ==> w in d.windows
    ensures Tidy(e) && e.windows == d.windows
    decreases |ws|
  {
    if ws == [] then d
    else
      var w := ws[|ws| - 1];
      FinishMinimizeTidy(d, w);
      MinimizeAll(FinishMinimize(d, w), ws[..|ws| - 1])
  }

  /** The z and minimised fields are the same. */
  ghost predicate SamePlaces(d: Desktop, e: Desktop) {
    d.heap.Keys == e.heap.Keys &&
    forall w :: w in d.heap ==> e.heap[w].z == d.heap[w].z && e.heap[w].minimized == d.heap[w].minimized
  }

  lemma SamePlacesStacked(d: Desktop, e: Desktop)
    requires Stacked(d) && SamePlaces(d, e) && e == d.(heap := e.heap)
    ensures Stacked(e)
  {
  }

  lemma SamePlacesHomed(d: Desktop, e: Desktop)
    requires Homed(d) && SamePlaces(d, e) && e == d.(heap := e.heap)
    ensures Homed(e)
  {
  }

  lemma EndEffectsTidy(d: Desktop, expired: set<Wid>)
    requires Tidy(d)
    ensures Tidy(EndEffects(d, expired)) && EndEffects(d, expired).windows == d.windows
  {
    SamePlacesStacked(d, EndEffects(d, expired));
    SamePlacesHomed(d, EndEffects(d, expired));
  }

  /** The tail of `redraw_windows`: ended animations, removals, then minimising. */
  ghost function RedrawStep(d: Desktop, expired: set<Wid>): (e: Desktop)
    requires Tidy(d)
    ensures Tidy(e)
  {
    ToRemoveNoDup(d, expired);
    ToMinimizeNoDup(d, expired);
    EndEffectsTidy(d, expired);
    MinimizeAll(CloseAll(EndEffects(d, expired), ToRemove(d, expired)), ToMinimize(d, expired))
  }

  // ------------------------------------------------------------------------- steps

  /** The one thing clients must not do: restack a minimised window. */
  ghost predicate Allowed(d: Desktop, e: Event) {
    match e
    case StackWindow(w, z) => w in d.windows && w in d.heap ==> !d.heap[w].minimized
    case FocusAt(hit) => hit.Some? ==> hit.value in d.windows
    case TileFocused(columns, rows, _, _) => columns > 0 && rows > 0
    case _ => true
  }

  /** Changes that leave z and minimised alone. */
  lemma PutTidy(d: Desktop, w: Wid, win: Window)
    requires Tidy(d) && w in d.windows && w in d.heap && win.z == d.heap[w].z && win.minimized == d.heap[w].minimized
    ensures Tidy(Put(d, w, win))
  {
  }

  lemma CreateTidy(d: Desktop, width: int, height: int, style: Style)
    requires Tidy(d)
    ensures Tidy(Create(d, width, height, style))
  {
    AppendNoDup(d.windows, d.nextWid);
    AppendNoDup(d.mid, d.nextWid);
  }

  lemma MoveTidy(d: Desktop, w: Wid, x: int, y: int)
    requires Tidy(d) && w in d.windows
    ensures w in d.heap && Tidy(Move(d, w, x, y))
  {
    PutTidy(Mark(d, w), w, d.heap[w].(x := x, y := y));
  }

  lemma TileTidy(d: Desktop, w: Wid, columns: int, rows: int, cx: int, cy: int)
    requires Tidy(d) && w in d.windows && columns > 0 && rows > 0
    ensures w in d.heap && Tidy(Tile(d, w, columns, rows, cx, cy))
  {
    var win := d.heap[w];
    var cell := TileRect(d.screenWidth, d.screenHeight, PanelHeight(d), columns, rows, cx, cy);
    var win' := win.(tiled := true, untiled := Frame(win));
    PutTidy(d, w, win');
    MoveTidy(if win.tiled then d else Put(d, w, win'), w, cell.x, cell.y);
  }

  lemma UntileTidy(d: Desktop, w: Wid)
    requires Tidy(d) && w in d.windows
    ensures w in d.heap && Tidy(Untile(d, w))
  {
    var win := d.heap[w].(tiled := false);
    PutTidy(d, w, win);
    MoveTidy(Put(d, w, win), w, win.untiled.x, win.untiled.y);
  }

  lemma MarkForCloseTidy(d: Desktop, w: Wid)
    requires Tidy(d) && w in d.windows
    ensures w in d.heap && Closed(d) && Tidy(MarkForClose(d, w))
  {
    TidyIsClosed(d);
    if !Shown(d.heap[w]) {
      CloseTidy(d, w);
    } else {
      PutTidy(d, w, d.heap[w].(effect := PickEffect(d.heap[w].style, true)));
    }
  }

  lemma FlipTidy(d: Desktop, w: Wid)
    requires Tidy(d) && w in d.windows
    ensures w in d.heap && Tidy(Flip(d, w))
  {
    var win := d.heap[w].(hidden := false, effect := PickEffect(d.heap[w].style, false));
    PutTidy(d, w, win);
    MarkTidy(Put(d, w, win), w);
    MarkTidy(d, w);
  }

  lemma AcceptTidy(d: Desktop, w: Wid)
    requires Tidy(d) && w in d.windows
    ensures w in d.heap && Tidy(Accept(d, w))
  {
    PutTidy(d, w, d.heap[w].(newbufid := d.nextBuf));
  }

  lemma DoneTidy(d: Desktop, w: Wid, width: int, height: int)
    requires Tidy(d) && w in d.windows
    ensures w in d.heap && Tidy(Done(d, w, width, height))
  {
    var win := d.heap[w];
    var win' := win.(width := width, height := height, bufid := win.newbufid, newbufid := 0);
    MarkTidy(d, w);
    PutTidy(Mark(d, w), w, win');
    var d1 := Put(Mark(d, w), w, win');
    ReleaseTidy(d1, d1.released + [win.bufid]);
    MarkTidy(d1.(released := d1.released + [win.bufid]), w);
  }

  /** The bounds check of a client's move request (apps/compositor.c:2772). */
  predicate MoveRefused(d: Desktop, x: int, y: int) {
    x > d.screenWidth + 100 || x + d.screenWidth < 0 || y > d.screenHeight + 100 || y + d.screenHeight < 0
  }

  /** A message about a live window; one about an unknown window is ignored. */
  ghost function StepWindow(d: Desktop, w: Wid, e: Event): (r: Desktop)
    requires Tidy(d) && Allowed(d, e) && w in d.windows && w in d.heap
    ensures Tidy(r)
  {
    var win := d.heap[w];
    match e
    case FlipWindow(_) => FlipTidy(d, w); Flip(d, w)
    case MoveWindow(_, x, y) => MoveTidy(d, w, x, y); if MoveRefused(d, x, y) then d else Move(d, w, x, y)
    case CloseWindow(_) => MarkForCloseTidy(d, w); MarkForClose(d, w)
    case StackWindow(v, z) =>
      if v == w then ReorderTidy(d, w, Short(z)); Reorder(d, w, Short(z)) else d
    case ResizeAccept(_) => AcceptTidy(d, w); Accept(d, w)
    case ResizeDone(_, width, height) => DoneTidy(d, w, width, height); Done(d, w, width, height)
    case FocusWindow(_) => FocusTidy(d, Some(w)); Focus(d, Some(w))
    case MinimizeWindow(_) =>
      PutTidy(d, w, win.(effect := Minimize));
      if win.advertised then Put(d, w, win.(effect := Minimize)) else d
    case Advertise(_, named) => PutTidy(d, w, win.(advertised := named)); Put(d, w, win.(advertised := named))
    case Maximize(_) =>
      UntileTidy(d, w);
      TileTidy(d, w, 1, 1, 0, 0);
      if win.tiled then Untile(d, w) else Tile(d, w, 1, 1, 0, 0)
    case _ => d
  }

  /** A message or a key. */
  ghost function Respond(d: Desktop, e: Event): (r: Desktop)
    requires Tidy(d) && Allowed(d, e)
    ensures Tidy(r)
  {
    match e
    case New(width, height, style, stealFocus) =>
      CreateTidy(d, width, height, style);
      var c := Create(d, width, height, style);
      FocusTidy(c, Some(d.nextWid));
      if stealFocus then Focus(c, Some(d.nextWid)) else c
    case FocusAt(hit) => FocusTidy(d, hit); Focus(d, hit)
    case TileFocused(columns, rows, cx, cy) =>
      if d.focused.None? then FocusTidy(d, d.bottom); Focus(d, d.bottom)
      else
        var w := d.focused.value;
        TileTidy(d, w, columns, rows, cx, cy);
        if d.heap[w].z == Z_BOTTOM || d.heap[w].z == Z_TOP then d else Tile(d, w, columns, rows, cx, cy)
    case Redraw(_) => d
    case _ => if e.w in d.windows then StepWindow(d, e.w, e) else d
  }

  /** One event. Whatever it is, the desktop stays tidy. */
  ghost function Step(d: Desktop, e: Event): (r: Desktop)
    requires Tidy(d) && Allowed(d, e)
    ensures Tidy(r)
  {
    if e.Redraw? then RedrawStep(d, e.expired) else Respond(d, e)
  }

  /** Every event of the run is allowed when it comes. */
  ghost predicate AllowedRun(d: Desktop, es: seq<Event>)
    requires Tidy(d)
    decreases |es|
  {
    es == [] || (Allowed(d, es[0]) && AllowedRun(Step(d, es[0]), es[1..]))
  }

  ghost function Run(d: Desktop, es: seq<Event>): (r: Desktop)
    requires Tidy(d) && AllowedRun(d, es)
    ensures Tidy(r)
    decreases |es|
  {
    if es == [] then d else Run(Step(d, es[0]), es[1..])
  }

  /** A compositor that has just started. */
  function Start(screenWidth: nat, screenHeight: nat): Desktop {
    Desktop(map[], [], None, [], [], [], None, [], None, [], 1, 1, [], screenWidth, screenHeight)
  }

  /** In every reachable state each live window is in exactly one place, the one its
      fields name, a closed window is nowhere, and the focused window is live and not
      minimised. */
  lemma ReachableIsTidy(screenWidth: nat, screenHeight: nat, es: seq<Event>, w: Wid, p: Place)
    requires AllowedRun(Start(screenWidth, screenHeight), es)
    ensures var d := Run(Start(screenWidth, screenHeight), es);
            (w in d.windows ==> w in d.heap && (IsAt(d, w, p) <==> p == PlaceOf(d, w))) &&
            (w !in d.windows ==> IsAt(d, w, Nowhere)) &&
            (d.focused == Some(w) ==> w in d.windows && w in d.heap && !d.heap[w].minimized)
  {
    TidyPlaces(Run(Start(screenWidth, screenHeight), es), w, p);
  }
}
