/**
  The window manager state of the compositor (apps/compositor.c) and what each of
  its operations makes of it. A window is known by its number, which stands for
  the pointer to its structure.
 */
module CompositorState {
  import opened Basics

  type Wid = nat

  datatype Rect = Rect(x: int, y: int, width: int, height: int)

  predicate Inside(r: Rect, px: int, py: int) {
    r.x <= px < r.x + r.width && r.y <= py < r.y + r.height
  }

  datatype Effect = NoEffect | FadeIn | FadeOut | Minimize | Unminimize | SqueezeIn | SqueezeOut | Disappear

  /** Which animations the client's flags choose. */
  datatype Style = Fading | Dialog | Plain

  /** `yutani_server_window_t`. */
  datatype Window = Window(
    x: int, y: int, z: nat, width: int, height: int,
    bufid: nat, newbufid: nat,
    hidden: bool, minimized: bool, effect: Effect, style: Style, advertised: bool, alphaThreshold: int,
    tiled: bool, untiled: Rect)

  /** The window manager part of `yutani_globals_t`. `heap` holds every window
      structure ever made, `released` the buffers given back, in order. */
  datatype Desktop = Desktop(
    heap: map<Wid, Window>, windows: seq<Wid>,
    bottom: Option<Wid>, mid: seq<Wid>, overlay: seq<Wid>, menu: seq<Wid>, top: Option<Wid>,
    minimized: seq<Wid>, focused: Option<Wid>,
    updates: seq<Rect>, nextWid: Wid, nextBuf: nat, released: seq<nat>,
    screenWidth: nat, screenHeight: nat)

  /** The z values of base/usr/include/toaru/yutani.h:336-340. The field is an
      unsigned short, so the -1 of an unordered window equals the top value. */
  const Z_TOP := 0xFFFF
  const Z_MENU := 0xFFFE
  const Z_OVERLAY := 0xFFED
  const Z_BOTTOM := 0
  const Z_UNORDERED := 0xFFFF

  /** The z of a restack message is an int; `reorder_window` takes its low 16 bits. */
  function Short(z: int): nat {
    z % 0x1_0000
  }

  datatype Owner = BottomSlot | TopSlot | MenuStack | OverlayStack | MidStack

  /** `window_zorder_owner`, with the two slots told apart. */
  function OwnerOf(z: nat): Owner {
    if z == Z_BOTTOM then BottomSlot
    else if z == Z_TOP then TopSlot
    else if z == Z_MENU then MenuStack
    else if z == Z_OVERLAY then OverlayStack
    else MidStack
  }

  // ------------------------------------------------------------------------ lists

  /** The list without any w. */
  function Without(s: seq<Wid>, w: Wid): (r: seq<Wid>)
    ensures forall v :: v in r <==> v in s && v != w
    ensures w !in s ==> r == s
  {
    if s == [] then []
    else if s[|s| - 1] == w then Without(s[..|s| - 1], w)
    else Without(s[..|s| - 1], w) + [s[|s| - 1]]
  }

  lemma {:induction false} WithoutNoDup(s: seq<Wid>, w: Wid)
    requires NoDup(s)
    ensures NoDup(Without(s, w))
  {
    if s != [] {
      var init, last := s[..|s| - 1], s[|s| - 1];
      WithoutNoDup(init, w);
      assert last !in init;
    }
  }

  lemma AppendNoDup(s: seq<Wid>, w: Wid)
    requires NoDup(s) && w !in s
    ensures NoDup(s + [w])
  {
  }

  /** `list_find` and `list_delete`: the first w goes. */
  function DeleteFirst(s: seq<Wid>, w: Wid): seq<Wid> {
    if s == [] then [] else if s[0] == w then s[1..] else [s[0]] + DeleteFirst(s[1..], w)
  }

  lemma {:induction false} WithoutPrepend(x: Wid, s: seq<Wid>, w: Wid)
    ensures Without([x] + s, w) == (if x == w then [] else [x]) + Without(s, w)
    decreases |s|
  {
    if s == [] {
      assert [x] + s == [x];
      assert [x][..0] == [];
    } else {
      var t := [x] + s;
      assert t[..|t| - 1] == [x] + s[..|s| - 1];
      WithoutPrepend(x, s[..|s| - 1], w);
    }
  }

  lemma {:induction false} DeleteFirstIsWithout(s: seq<Wid>, w: Wid)
    requires NoDup(s)
    ensures DeleteFirst(s, w) == Without(s, w)
  {
    if s != [] {
      assert s == [s[0]] + s[1..];
      WithoutPrepend(s[0], s[1..], w);
      if s[0] == w {
        assert w !in s[1..];
      } else {
        DeleteFirstIsWithout(s[1..], w);
      }
    }
  }

  /** The list with w moved to its end, if it has w. */
  function ToEnd(s: seq<Wid>, w: Wid): seq<Wid> {
    if w in s then Without(s, w) + [w] else s
  }

  // ----------------------------------------------------------------- what steps do

  function Put(d: Desktop, w: Wid, win: Window): Desktop {
    d.(heap := d.heap[w := win])
  }

  /** `unorder_window`: out of every stack and slot. */
  function Unorder(d: Desktop, w: Wid): Desktop
    requires w in d.heap
  {
    d.(heap := d.heap[w := d.heap[w].(z := Z_UNORDERED)],
       bottom := if d.bottom == Some(w) then None else d.bottom,
       top := if d.top == Some(w) then None else d.top,
       mid := Without(d.mid, w), overlay := Without(d.overlay, w), menu := Without(d.menu, w))
  }

  /** `reorder_window`: to the end of a stack, or into a slot, whose holder is then unordered. */
  function Reorder(d: Desktop, w: Wid, z: nat): Desktop
    requires w in d.heap && forall v :: d.top == Some(v) || d.bottom == Some(v) ==> v in d.heap
  {
    var d1 := Unorder(d, w);
    match OwnerOf(z)
    case TopSlot => Settle(if d1.top.Some? then Unorder(d1, d1.top.value) else d1, w, z)
    case BottomSlot => Settle(if d1.bottom.Some? then Unorder(d1, d1.bottom.value) else d1, w, z)
    case _ => Settle(d1, w, z)
  }

  /** Give a window that is nowhere the place that z names. */
  function Settle(d: Desktop, w: Wid, z: nat): Desktop
    requires w in d.heap
  {
    var d' := Put(d, w, d.heap[w].(z := z));
    match OwnerOf(z)
    case MidStack => d'.(mid := d.mid + [w])
    case MenuStack => d'.(menu := d.menu + [w])
    case OverlayStack => d'.(overlay := d.overlay + [w])
    case TopSlot => d'.(top := Some(w))
    case BottomSlot => d'.(bottom := Some(w))
  }

  /** `make_top`. */
  function Raise(d: Desktop, w: Wid): Desktop {
    d.(mid := ToEnd(d.mid, w), overlay := ToEnd(d.overlay, w), menu := ToEnd(d.menu, w))
  }

  function Frame(win: Window): Rect {
    Rect(win.x, win.y, win.width, win.height)
  }

  predicate Shown(win: Window) {
    !win.hidden && !win.minimized
  }

  /** `mark_window`, for a window that is neither rotated nor being resized. */
  function Mark(d: Desktop, w: Wid): Desktop
    requires w in d.heap
  {
    if Shown(d.heap[w]) then d.(updates := d.updates + [Frame(d.heap[w])]) else d
  }

  /** `window_unminimize`. */
  function Restore(d: Desktop, w: Wid): Desktop
    requires w in d.heap
  {
    if !d.heap[w].minimized then d
    else
      d.(heap := d.heap[w := d.heap[w].(z := 1, minimized := false, effect := Unminimize)],
         minimized := Without(d.minimized, w), mid := d.mid + [w])
  }

  /** `set_focused_window`; None stands for NULL. */
  function Focus(d: Desktop, target: Option<Wid>): Desktop
    requires target.Some? ==> target.value in d.heap
    requires d.bottom.Some? ==> d.bottom.value in d.heap
  {
    if target == d.focused then d
    else
      var d1 := if target.Some? then Restore(d, target.value) else d;
      var t := if target.Some? then target else d1.bottom;
      var d2 := d1.(focused := t);
      if t.Some? then Mark(Raise(d2, t.value), t.value) else d2
  }

  function Last(s: seq<Wid>): Option<Wid> {
    if s == [] then None else Some(s[|s| - 1])
  }

  /** The window that takes the focus over: the last menu, else the last window of
      the middle stack, else the bottom one. */
  function Successor(d: Desktop): Option<Wid> {
    if d.menu != [] then Last(d.menu) else if d.mid != [] then Last(d.mid) else d.bottom
  }

  /** That window is not minimised. */
  predicate HeirShown(d: Desktop) {
    var heir := Successor(d);
    heir.Some? ==> heir.value in d.heap && !d.heap[heir.value].minimized
  }

  ghost predicate Closed(d: Desktop) {
    (forall w :: w in d.mid || w in d.menu || w in d.overlay || w in d.minimized ==> w in d.heap) &&
    (forall w :: d.bottom == Some(w) || d.top == Some(w) || d.focused == Some(w) ==> w in d.heap)
  }

  function Refocus(d: Desktop): Desktop
    requires Closed(d)
  {
    assert d.menu != [] ==> d.menu[|d.menu| - 1] in d.menu;
    assert d.mid != [] ==> d.mid[|d.mid| - 1] in d.mid;
    Focus(d.(focused := None), Successor(d))
  }

  /** Taking a window off everything, the focus included. */
  function Detach(d: Desktop, w: Wid): Desktop
    requires w in d.heap
  {
    Unorder(d, w).(minimized := Without(d.minimized, w), windows := Without(d.windows, w),
                   focused := if d.focused == Some(w) then None else d.focused)
  }

  /** `window_finish_minimize`: to the minimised list, the focus handed on. */
  function FinishMinimize(d: Desktop, w: Wid): Desktop
    requires w in d.heap && Closed(d)
  {
    if d.heap[w].minimized then d
    else
      var d1 := Detach(d, w);
      var d2 := Put(d1, w, d1.heap[w].(minimized := true, effect := NoEffect));
      var d3 := if d.focused == Some(w) then Refocus(d2) else d2;
      d3.(windows := d.windows, minimized := d3.minimized + [w])
  }

  /** `window_actually_close`: off everything, its place damaged, the focus handed on,
      its buffer released. */
  function Close(d: Desktop, w: Wid): Desktop
    requires w in d.heap && Closed(d)
  {
    var d1 := Mark(Detach(d, w), w);
    var d2 := if d.focused == Some(w) then Refocus(d1) else d1;
    d2.(released := d2.released + [d.heap[w].bufid])
  }

  /** `yutani_pick_animation`. */
  function PickEffect(style: Style, closing: bool): Effect {
    match style
    case Dialog => if closing then SqueezeOut else SqueezeIn
    case Plain => if closing then Disappear else NoEffect
    case Fading => if closing then FadeOut else FadeIn
  }

  /** `window_mark_for_close`. */
  function MarkForClose(d: Desktop, w: Wid): Desktop
    requires w in d.heap && Closed(d)
  {
    if !Shown(d.heap[w]) then Close(d, w)
    else Put(d, w, d.heap[w].(effect := PickEffect(d.heap[w].style, true)))
  }

  /** `server_window_create`. */
  function Create(d: Desktop, width: int, height: int, style: Style): Desktop {
    var win := Window(0, 0, 1, width, height, d.nextBuf, 0,
                      true, false, NoEffect, style, false, 0, false, Rect(0, 0, 0, 0));
    d.(heap := d.heap[d.nextWid := win], windows := d.windows + [d.nextWid], mid := d.mid + [d.nextWid],
       nextWid := d.nextWid + 1, nextBuf := d.nextBuf + 1)
  }

  /** `server_window_resize`: an accepted resize gets a buffer, once. */
  function Accept(d: Desktop, w: Wid): Desktop
    requires w in d.heap
  {
    if d.heap[w].newbufid != 0 then d
    else Put(d, w, d.heap[w].(newbufid := d.nextBuf)).(nextBuf := d.nextBuf + 1)
  }

  /** `server_window_resize_finish`: the new buffer replaces the old one. */
  function Done(d: Desktop, w: Wid, width: int, height: int): Desktop
    requires w in d.heap
  {
    var win := d.heap[w];
    if win.newbufid == 0 then d
    else
      var d1 := Put(Mark(d, w), w, win.(width := width, height := height, bufid := win.newbufid, newbufid := 0));
      Mark(d1.(released := d1.released + [win.bufid]), w)
  }

  /** `window_move`. */
  function Move(d: Desktop, w: Wid, x: int, y: int): Desktop
    requires w in d.heap
  {
    Mark(Put(Mark(d, w), w, d.heap[w].(x := x, y := y)), w)
  }

  /** `window_reveal` and the damage of a flip message. */
  function Flip(d: Desktop, w: Wid): Desktop
    requires w in d.heap
  {
    var win := d.heap[w];
    Mark(if win.hidden then Put(d, w, win.(hidden := false, effect := PickEffect(win.style, false))) else d, w)
  }

  // ---------------------------------------------------------------------- tiling

  /** Arithmetic with an unsigned int operand. */
  function Unsigned(v: int): nat {
    v % 0x1_0000_0000
  }

  /** The height that the panel in the top slot takes; it may be moved up to hide. */
  function PanelHeight(d: Desktop): int
    requires d.top.Some? ==> d.top.value in d.heap
  {
    if d.top.None? then 0
    else
      var panel := d.heap[d.top.value];
      panel.height + if panel.y < 1 then panel.y else 0
  }

  /** Cell (cx, cy) of a grid of columns x rows below the panel (apps/compositor.c:1614-1644). */
  function TileRect(screenWidth: nat, screenHeight: nat, panel: int, columns: int, rows: int, cx: int, cy: int): Rect
    requires columns > 0 && rows > 0
  {
    var area := Unsigned(screenHeight - panel);
    var w := screenWidth / columns;
    var h := area / rows;
    var x := w * cx;
    var y := panel + h * cy;
    var w' := if cx == columns - 1 then screenWidth - w * cx else w;
    var h' := if cy == rows - 1 then area - h * cy else h;
    Rect(if cx > 0 then x - 1 else x, if cy > 0 then y - 1 else y,
         if cx > 0 then w' + 1 else w', if cy > 0 then h' + 1 else h')
  }

  /** `window_tile`; the size of the cell is offered to the client. */
  function Tile(d: Desktop, w: Wid, columns: int, rows: int, cx: int, cy: int): Desktop
    requires w in d.heap && (d.top.Some? ==> d.top.value in d.heap) && columns > 0 && rows > 0
  {
    var win := d.heap[w];
    var cell := TileRect(d.screenWidth, d.screenHeight, PanelHeight(d), columns, rows, cx, cy);
    var d1 := if win.tiled then d else Put(d, w, win.(tiled := true, untiled := Frame(win)));
    Move(d1, w, cell.x, cell.y)
  }

  /** `window_untile` and the move back; the old size is offered to the client. */
  function Untile(d: Desktop, w: Wid): Desktop
    requires w in d.heap
  {
    var win := d.heap[w].(tiled := false);
    Move(Put(d, w, win), w, win.untiled.x, win.untiled.y)
  }

  // -------------------------------------------------------------------- rendering

  /** The windows in the order of `yutani_blit_windows`. */
  function PaintOrder(d: Desktop): seq<Wid> {
    (if d.bottom.Some? then [d.bottom.value] else []) + d.mid + d.overlay + d.menu +
    (if d.top.Some? then [d.top.value] else [])
  }

  predicate Closing(e: Effect) {
    e == FadeOut || e == SqueezeOut || e == Disappear
  }

  function Select(s: seq<Wid>, keep: Wid -> bool): (r: seq<Wid>)
    ensures forall w :: w in r <==> w in s && keep(w)
  {
    if s == [] then []
    else Select(s[..|s| - 1], keep) + if keep(s[|s| - 1]) then [s[|s| - 1]] else []
  }

  lemma {:induction false} SelectAgree(s: seq<Wid>, keep: Wid -> bool, keep': Wid -> bool)
    requires forall w :: w in s ==> keep(w) == keep'(w)
    ensures Select(s, keep) == Select(s, keep')
  {
    if s != [] {
      assert s[|s| - 1] in s;
      SelectAgree(s[..|s| - 1], keep, keep');
    }
  }

  /** A window that is drawn and whose animation has run its length. */
  predicate Ended(d: Desktop, w: Wid, expired: set<Wid>) {
    w in d.heap && w in expired && Shown(d.heap[w]) && d.heap[w].effect != NoEffect
  }

  predicate EndedClosing(d: Desktop, w: Wid, expired: set<Wid>) {
    Ended(d, w, expired) && Closing(d.heap[w].effect)
  }

  /** A closing window that is in no stack or slot. */
  predicate LooseClosing(d: Desktop, w: Wid) {
    w in d.heap && d.heap[w].z == Z_TOP && d.top != Some(w) && Closing(d.heap[w].effect)
  }

  predicate EndedMinimizing(d: Desktop, w: Wid, expired: set<Wid>) {
    Ended(d, w, expired) && d.heap[w].effect == Minimize
  }

  function EndedClosingIn(d: Desktop, expired: set<Wid>): Wid -> bool {
    (w: Wid) => EndedClosing(d, w, expired)
  }

  function EndedMinimizingIn(d: Desktop, expired: set<Wid>): Wid -> bool {
    (w: Wid) => EndedMinimizing(d, w, expired)
  }

  function LooseClosingIn(d: Desktop): Wid -> bool {
    (w: Wid) => LooseClosing(d, w)
  }

  /** `windows_to_remove`: drawn windows whose closing animation ended, then closing
      windows that are not drawn (apps/compositor.c:781-786, 1306-1313). */
  function ToRemove(d: Desktop, expired: set<Wid>): seq<Wid> {
    Select(PaintOrder(d), EndedClosingIn(d, expired)) + Select(d.windows, LooseClosingIn(d))
  }

  function ToMinimize(d: Desktop, expired: set<Wid>): seq<Wid> {
    Select(PaintOrder(d), EndedMinimizingIn(d, expired))
  }

  /** A window after its animation was looked at. */
  function AfterEffect(d: Desktop, w: Wid, expired: set<Wid>): Window
    requires w in d.heap
  {
    if Ended(d, w, expired) && !Closing(d.heap[w].effect) && d.heap[w].effect != Minimize
    then d.heap[w].(effect := NoEffect) else d.heap[w]
  }

  /** Drawing ends the other animations. */
  function EndEffects(d: Desktop, expired: set<Wid>): Desktop {
    d.(heap := map w | w in d.heap :: if w in PaintOrder(d) then AfterEffect(d, w, expired) else d.heap[w])
  }
}
