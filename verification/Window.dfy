/** drivers/window.c in its own form: windows in a linked list of ascending height, painted into the
    framebuffer beneath the cursor. */
module Window {
  import opened Wrappers
  import opened Screen
  import opened Cursor
  import opened WindowSpec

  class Window {
    var x: int
    var y: int
    var contentW: nat
    var contentH: nat
    var title: Title
    var zOrder: nat
    var visible: bool
    var focused: bool
    var buffer: array<u32>
    var next: Window?

    /** A new window with its content in the background colour. */
    constructor (x: int, y: int, contentW: nat, contentH: nat, title: Title)
      ensures LooksLike(Look(x, y, contentW, contentH, title, true, false, seq(contentW * contentH, _ => 0xF5F5F5)))
      ensures next == null && fresh(buffer)
    {
      this.x, this.y, this.contentW, this.contentH, this.title := x, y, contentW, contentH, title;
      visible, focused, next, zOrder := true, false, null, 0;
      buffer := new u32[contentW * contentH](_ => 0xF5F5F5);
    }

    function Appearance(): Look
      reads this, buffer
    {
      Look(x, y, contentW, contentH, title, visible, focused, buffer[..])
    }

    predicate LooksLike(l: Look)
      reads this, buffer
    {
      Appearance() == l && l.Shaped()
    }
  }

  // ---------------------------------------------------------------- painting one window

  /** The loops that paint one character of the title. */
  method DrawGlyph(fb: Framebuffer, left: int, top: int, glyph: Glyph, fg: u32, bg: u32)
    requires fb.Valid()
    modifies fb.addr
    ensures forall px, py | fb.OnScreen(px, py) ::
        fb.At(px, py) ==
          if InRect(px, py, left, top, GLYPH_WIDTH, GLYPH_HEIGHT) then (if GlyphBit(glyph[py - top], px - left) then fg else bg)
          else old(fb.At(px, py))
  {
    hide GlyphBit, Framebuffer.At;
    var row := 0;
    while row < GLYPH_HEIGHT
      invariant row <= GLYPH_HEIGHT
      invariant forall px, py | fb.OnScreen(px, py) ::
          fb.At(px, py) ==
            if InRect(px, py, left, top, GLYPH_WIDTH, row) then (if GlyphBit(glyph[py - top], px - left) then fg else bg)
            else old(fb.At(px, py))
    {
      var col := 0;
      while col < GLYPH_WIDTH
        invariant col <= GLYPH_WIDTH
        invariant forall px, py | fb.OnScreen(px, py) ::
            fb.At(px, py) ==
              if InRect(px, py, left, top, GLYPH_WIDTH, row) || InRect(px, py, left, top + row, col, 1) then
                (if GlyphBit(glyph[py - top], px - left) then fg else bg)
              else old(fb.At(px, py))
      {
        fb.Put(left + col, top + row, if GlyphBit(glyph[row], col) then fg else bg);
        col := col + 1;
      }
      row := row + 1;
    }
  }

  /** The border of draw_window_frame: two rings. */
  method DrawBorder(fb: Framebuffer, l: Look)
    requires fb.Valid()
    modifies fb.addr
    ensures forall px, py | fb.OnScreen(px, py) :: fb.At(px, py) == BorderPixel(l, px - l.x, py - l.y, old(fb.At(px, py)))
  {
    hide Framebuffer.At;
    var ww, wh := l.Width(), l.Height();
    var b := 0;
    while b < BORDER
      invariant b <= BORDER
      invariant forall px, py | fb.OnScreen(px, py) ::
          fb.At(px, py) ==
            if l.Contains(px, py) && (py < l.y + b || py >= l.y + wh - b || px < l.x + b || px >= l.x + ww - b) then l.BorderColour()
            else old(fb.At(px, py))
    {
      fb.PutRect(l.x, l.y + b, ww, 1, l.BorderColour());
      fb.PutRect(l.x, l.y + wh - 1 - b, ww, 1, l.BorderColour());
      fb.PutRect(l.x + b, l.y, 1, wh, l.BorderColour());
      fb.PutRect(l.x + ww - 1 - b, l.y, 1, wh, l.BorderColour());
      b := b + 1;
    }
  }

  /** The title text of draw_window_frame. */
  method DrawTitle(fb: Framebuffer, font: Font, l: Look)
    requires fb.Valid()
    modifies fb.addr
    ensures forall px, py | fb.OnScreen(px, py) ::
        fb.At(px, py) == TextPixel(font, l, TitleChars(l), px - l.x, py - l.y, old(fb.At(px, py)))
  {
    hide Framebuffer.At, GlyphBit, GlyphOf, MaxChars;
    var ci := 0;
    while ci < |l.title| && ci < MaxChars(l.contentW)
      invariant ci <= TitleChars(l)
      invariant forall px, py | fb.OnScreen(px, py) ::
          fb.At(px, py) == TextPixel(font, l, ci, px - l.x, py - l.y, old(fb.At(px, py)))
    {
      var left := l.x + TEXT_X + ci * GLYPH_WIDTH;
      DrawGlyph(fb, left, l.y + TEXT_Y, GlyphOf(font, l.title[ci]), TEXT_COLOUR, l.TitleColour());
      forall dx: int, dy: int, under: u32
        ensures TextPixel(font, l, ci + 1, dx, dy, under) ==
                if InRect(dx, dy, TEXT_X + ci * GLYPH_WIDTH, TEXT_Y, GLYPH_WIDTH, GLYPH_HEIGHT) then
                  CharPixel(font, l, ci, dx - TEXT_X - ci * GLYPH_WIDTH, dy - TEXT_Y)
                else TextPixel(font, l, ci, dx, dy, under)
      {
        NextChar(font, l, ci, dx, dy, under);
      }
      ci := ci + 1;
    }
  }

  lemma NextChar(font: Font, l: Look, ci: nat, dx: int, dy: int, under: u32)
    requires ci < |l.title|
    ensures TextPixel(font, l, ci + 1, dx, dy, under) ==
            if InRect(dx, dy, TEXT_X + ci * GLYPH_WIDTH, TEXT_Y, GLYPH_WIDTH, GLYPH_HEIGHT) then
              CharPixel(font, l, ci, dx - TEXT_X - ci * GLYPH_WIDTH, dy - TEXT_Y)
            else TextPixel(font, l, ci, dx, dy, under)
  {
    if InRect(dx, dy, TEXT_X + ci * GLYPH_WIDTH, TEXT_Y, GLYPH_WIDTH, GLYPH_HEIGHT) {
      assert (dx - TEXT_X) / GLYPH_WIDTH == ci && (dx - TEXT_X) % GLYPH_WIDTH == dx - TEXT_X - ci * GLYPH_WIDTH;
    }
  }

  /** The close button of draw_window_frame: a square and its two diagonals. */
  method DrawButton(fb: Framebuffer, l: Look)
    requires fb.Valid()
    modifies fb.addr
    ensures forall px, py | fb.OnScreen(px, py) :: fb.At(px, py) == ButtonPixel(l, px - l.x, py - l.y, old(fb.At(px, py)))
  {
    hide Framebuffer.At;
    var left, top := l.x + ButtonX(l), l.y + BUTTON_Y;
    fb.PutRect(left, top, BUTTON, BUTTON, CLOSE_COLOUR);
    var i := 0;
    while i < BUTTON
      invariant i <= BUTTON
      invariant forall px, py | fb.OnScreen(px, py) ::
          fb.At(px, py) ==
            if OnCross(l, px - l.x, py - l.y) && px < left + i then TEXT_COLOUR
            else if InRect(px, py, left, top, BUTTON, BUTTON) then CLOSE_COLOUR else old(fb.At(px, py))
    {
      fb.Put(left + i, top + i, TEXT_COLOUR);
      fb.Put(left + i, top + BUTTON - 1 - i, TEXT_COLOUR);
      i := i + 1;
    }
  }

  /** draw_window_frame. */
  method DrawFrame(fb: Framebuffer, font: Font, l: Look)
    requires fb.Valid()
    modifies fb.addr
    ensures forall px, py | fb.OnScreen(px, py) :: fb.At(px, py) == FramePixel(font, l, px - l.x, py - l.y, old(fb.At(px, py)))
  {
    hide Framebuffer.At, BorderPixel, TextPixel, ButtonPixel, TitleChars;
    DrawBorder(fb, l);
    fb.PutRect(l.x + BORDER, l.y + BORDER, l.contentW, TITLE_HEIGHT, l.TitleColour());
    DrawTitle(fb, font, l);
    DrawButton(fb, l);
  }

  /** draw_window_content: the window's own pixels, behind the frame. */
  method DrawContent(fb: Framebuffer, w: Window)
    requires fb.Valid() && w.buffer != fb.addr && w.Appearance().Shaped()
    modifies fb.addr
    ensures forall px, py | fb.OnScreen(px, py) ::
        fb.At(px, py) == ContentPixel(w.Appearance(), px - w.x, py - w.y, old(fb.At(px, py)))
  {
    hide Framebuffer.At;
    var l := w.Appearance();
    var left, top := l.x + BORDER, l.y + BORDER + TITLE_HEIGHT;
    var ry := 0;
    while ry < w.contentH
      invariant ry <= l.contentH && w.Appearance() == l
      invariant forall px, py | fb.OnScreen(px, py) ::
          fb.At(px, py) ==
            if InRect(px, py, left, top, l.contentW, ry) then ContentPixel(l, px - l.x, py - l.y, 0) else old(fb.At(px, py))
    {
      var rx := 0;
      while rx < w.contentW
        invariant rx <= l.contentW && w.Appearance() == l
        invariant forall px, py | fb.OnScreen(px, py) ::
            fb.At(px, py) ==
              if InRect(px, py, left, top, l.contentW, ry) || InRect(px, py, left, top + ry, rx, 1) then
                ContentPixel(l, px - l.x, py - l.y, 0)
              else old(fb.At(px, py))
      {
        IndexFits(l.contentW, l.contentH, l.contentW, rx, ry);
        fb.Put(left + rx, top + ry, w.buffer[ry * w.contentW + rx]);
        rx := rx + 1;
      }
      ry := ry + 1;
    }
  }

  // ---------------------------------------------------------------- the window manager

  ghost function LooksOf(ws: seq<Window>): (ls: seq<Look>)
    reads ws, set w <- ws :: w.buffer
    ensures |ls| == |ws| && forall k | 0 <= k < |ws| :: ls[k] == ws[k].Appearance()
  {
    if ws == [] then [] else LooksOf(ws[..|ws| - 1]) + [ws[|ws| - 1].Appearance()]
  }

  function Inserted<T>(s: seq<T>, k: nat, x: T): seq<T>
    requires k <= |s|
  {
    s[..k] + [x] + s[k..]
  }

  function Without<T>(s: seq<T>, k: nat): seq<T>
    requires k < |s|
  {
    s[..k] + s[k + 1..]
  }

  class WindowManager {
    const fb: Framebuffer
    const cursor: Cursor
    const font: Font
    var windows: Window?
    var focused: Window?
    var count: nat
    /** The windows from the lowest to the highest, and their heights. */
    ghost var list: seq<Window>
    ghost var heights: seq<nat>
    /** All windows that ever were in the list. */
    ghost var owned: set<Window>

    /** wm_init. */
    constructor (cursor: Cursor, font: Font)
      requires cursor.Valid()
      ensures Valid() && list == [] && this.cursor == cursor && fb == cursor.fb
    {
      this.fb, this.cursor, this.font := cursor.fb, cursor, font;
      windows, focused, count, list, heights, owned := null, null, 0, [], [], {};
    }

    /** The window at position `k`, or the end of the list. */
    ghost function Node(k: nat): Window?
      requires k <= |list|
      reads this`list
    {
      if k < |list| then list[k] else null
    }

    /** The links run through `list`, each window once. */
    ghost predicate Linked()
      reads this`windows, this`list, this`owned, owned`next
    {
      && (forall k | 0 <= k < |list| :: list[k] in owned)
      && (forall a, b | 0 <= a < b < |list| :: list[a] != list[b])
      && windows == Node(0)
      && (forall k | 0 < k <= |list| :: list[k - 1].next == Node(k))
    }

    ghost predicate High()
      reads this`list, this`heights, this`owned, owned`zOrder
    {
      && (forall k | 0 <= k < |list| :: list[k] in owned)
      && |heights| == |list| && forall k | 0 <= k < |list| :: list[k].zOrder == heights[k]
    }

    /** The window with the focus, and no other, is marked. */
    ghost predicate Marked()
      reads this`focused, this`list, this`owned, owned`focused
    {
      && (forall k | 0 <= k < |list| :: list[k] in owned)
      && (focused != null ==> focused in owned && exists k :: 0 <= k < |list| && list[k] == focused)
      && (forall k | 0 <= k < |list| :: list[k].focused <==> list[k] == focused)
    }

    ghost predicate Buffers()
      reads this`owned, owned`contentW, owned`contentH, owned`buffer
    {
      forall w | w in owned :: w.buffer.Length == w.contentW * w.contentH && w.buffer != fb.addr
    }

    /** All of the invariant but the place of the focus, which is not yet right while a window is being
        created. */
    ghost predicate Usable()
      reads this, owned
    {
      && cursor.Valid() && cursor.fb == fb && Linked() && High() && Ascending(heights) && Marked() && Buffers()
      && count == |list| <= MAX_WINDOWS
    }

    /** The list is linked as it should be, heights ascend, and the window with the focus is the
        highest. */
    ghost predicate Valid()
      reads this, owned
    {
      Usable() && (focused != null ==> list[|list| - 1] == focused)
    }

    ghost function Looks(): seq<Look>
      reads this`list, list, set w <- list :: w.buffer
    {
      LooksOf(list)
    }

    // -------------------------------------------------------------- the list

    /** get_next_z_order. */
    method NextZ() returns (z: nat)
      requires Linked() && High()
      ensures z == MaxZ(heights, 0) + 1
    {
      z := 0;
      var w := windows;
      ghost var k := 0;
      while w != null
        invariant k <= |list| && w == Node(k) && MaxZ(heights, 0) == MaxZ(heights, k, z)
        decreases |list| - k
      {
        if w.zOrder > z { z := w.zOrder; }
        assert w.next == Node(k + 1);
        w := w.next;
        k := k + 1;
      }
      z := z + 1;
    }

    /** insert_sorted: behind the last window that is not higher. */
    method InsertSorted(win: Window)
      requires Linked() && High() && win in owned && win !in list
      modifies this`windows, this`list, this`heights, owned`next
      ensures Linked() && High()
      ensures var p := Place(old(heights), win.zOrder);
        list == Inserted<Window>(old(list), p, win) && heights == Inserted<nat>(old(heights), p, win.zOrder)
    {
      hide Place;
      PlaceStep(heights, win.zOrder, 0);
      assert windows == Node(0);
      if windows == null || win.zOrder < windows.zOrder {
        LinkFirst(win);
      } else {
        var prev, k := FindPlace(win.zOrder);
        LinkBehind(prev, win, k);
      }
    }

    /** The loop of insert_sorted: the last window that is not higher than `z`. */
    method FindPlace(z: nat) returns (prev: Window, ghost k: nat)
      requires Linked() && High() && windows != null && windows.zOrder <= z
      ensures 1 <= k <= |list| && prev == list[k - 1] && k == Place(heights, z)
    {
      hide Place;
      assert windows == Node(0);
      prev, k := windows, 1;
      assert prev.next == Node(1);
      PlaceStep(heights, z, 0);
      PlaceStep(heights, z, 1);
      while prev.next != null && prev.next.zOrder <= z
        invariant 1 <= k <= |list| && prev == list[k - 1] && prev.next == Node(k)
        invariant Place(heights, z) == Place(heights, z, k)
        invariant Place(heights, z, k) == if k == |heights| || heights[k] > z then k else Place(heights, z, k + 1)
        decreases |list| - k
      {
        prev := prev.next;
        k := k + 1;
        assert prev.next == Node(k);
        PlaceStep(heights, z, k);
      }
    }

    lemma PlaceStep(zs: seq<nat>, z: nat, k: nat)
      ensures k <= |zs| ==> Place(zs, z, k) == if k == |zs| || zs[k] > z then k else Place(zs, z, k + 1)
    {
    }

    method LinkFirst(win: Window)
      requires Linked() && High() && win in owned && win !in list
      modifies this`windows, this`list, this`heights, owned`next
      ensures Linked() && High() && list == Inserted<Window>(old(list), 0, win) && heights == Inserted<nat>(old(heights), 0, win.zOrder)
    {
      assert windows == Node(0);
      win.next := windows;
      windows := win;
      list, heights := [win] + list, [win.zOrder] + heights;
      forall k | 0 < k <= |list| ensures list[k - 1].next == Node(k) {
        if k > 1 { assert old(Node(k - 1)) == Node(k); }
      }
    }

    /** `win` goes between positions `k - 1` and `k`. */
    method LinkBehind(prev: Window, win: Window, ghost k: nat)
      requires Linked() && High() && win in owned && win !in list && 1 <= k <= |list| && prev == list[k - 1]
      modifies this`list, this`heights, owned`next
      ensures Linked() && High() && list == Inserted<Window>(old(list), k, win) && heights == Inserted<nat>(old(heights), k, win.zOrder)
    {
      ghost var before := list;
      assert prev.next == Node(k) && windows == Node(0);
      win.next := prev.next;
      prev.next := win;
      list, heights := Inserted<Window>(list, k, win), Inserted<nat>(heights, k, win.zOrder);
      forall i | 0 < i <= |list| ensures list[i - 1].next == Node(i) {
        if i < k {
          assert old(Node(i)) == Node(i);
        } else if i > k + 1 {
          assert old(Node(i - 1)) == Node(i) && list[i - 1] == before[i - 2];
        }
      }
    }

    /** remove_from_list; `k` is the window's position, or the length of the list if it is not there. */
    method RemoveFromList(win: Window, ghost k: nat)
      requires Linked() && High() && (if k < |list| then list[k] == win else k == |list| && win !in list)
      modifies this`windows, this`list, this`heights, owned`next
      ensures Linked() && High()
      ensures list == (if k < |old(list)| then Without<Window>(old(list), k) else old(list))
      ensures heights == (if k < |old(list)| then Without<nat>(old(heights), k) else old(heights))
    {
      assert windows == Node(0);
      if windows == null { return; }
      if windows == win {
        LinkSecond(win);
        return;
      }
      var prev: Window := windows;
      ghost var i := 1;
      assert prev.next == Node(1);
      while prev.next != null
        invariant Linked() && High() && list == old(list) && heights == old(heights)
        invariant 1 <= i <= |list| && i <= k && prev == list[i - 1] && prev.next == Node(i)
        decreases |list| - i
      {
        if prev.next == win {
          LinkPast(prev, win, i);
          return;
        }
        prev := prev.next;
        i := i + 1;
        assert prev.next == Node(i);
      }
    }

    method LinkSecond(win: Window)
      requires Linked() && High() && list != [] && windows == win
      modifies this`windows, this`list, this`heights
      ensures Linked() && High() && list == Without<Window>(old(list), 0) && heights == Without<nat>(old(heights), 0)
    {
      assert windows == Node(0) && win.next == Node(1);
      windows := win.next;
      list, heights := list[1..], heights[1..];
      forall k | 0 < k <= |list| ensures list[k - 1].next == Node(k) { assert old(Node(k + 1)) == Node(k); }
    }

    /** The window at position `k` leaves the list. */
    method LinkPast(prev: Window, win: Window, ghost k: nat)
      requires Linked() && High() && 1 <= k < |list| && prev == list[k - 1] && win == list[k]
      modifies this`list, this`heights, owned`next
      ensures Linked() && High() && list == Without<Window>(old(list), k) && heights == Without<nat>(old(heights), k)
    {
      ghost var before := list;
      assert win.next == Node(k + 1) && windows == Node(0);
      prev.next := win.next;
      list, heights := Without<Window>(list, k), Without<nat>(heights, k);
      forall i | 0 < i <= |list| ensures list[i - 1].next == Node(i) {
        if i < k {
          assert old(Node(i)) == Node(i);
        } else if i > k {
          assert old(Node(i + 1)) == Node(i) && list[i - 1] == before[i];
        } else {
          assert old(Node(k + 1)) == Node(k);
        }
      }
    }

    // -------------------------------------------------------------- windows

    /** wm_focus_window: the window at position `k` gets the focus and becomes the highest. */
    method FocusWindow(win: Window, ghost k: nat)
      requires Usable() && k < |list| && list[k] == win && (focused == win ==> Valid())
      modifies this`windows, this`list, this`heights, this`focused, owned`next, owned`focused, win`zOrder
      ensures Valid() && focused == win
      ensures old(focused) == win ==> list == old(list) && heights == old(heights)
      ensures old(focused) != win ==>
                && list == Without<Window>(old(list), k) + [win]
                && heights == Without<nat>(old(heights), k) + [MaxZ(old(heights), 0) + 1]
    {
      hide Linked, Without, High, Buffers;
      if focused == win { return; }
      MarkedWindow();
      if focused != null { focused.focused := false; }
      win.focused := true;
      focused := win;
      ghost var before := list;
      assert forall i | 0 <= i < |before| :: before[i].focused <==> before[i] == win;
      Raise(win, k);
      FocusDone(before, k, win);
    }

    lemma MarkedWindow()
      requires Marked()
      ensures focused != null ==> focused in owned
    {
    }

    lemma FocusDone(before: seq<Window>, k: nat, win: Window)
      requires cursor.Valid() && cursor.fb == fb && Linked() && High() && Ascending(heights) && Buffers()
      requires k < |before| && before[k] == win && list == Without<Window>(before, k) + [win]
      requires focused == win && win in owned && count == |before| <= MAX_WINDOWS
      requires forall i | 0 <= i < |before| :: before[i].focused <==> before[i] == win
      ensures Valid()
    {
      hide High, Ascending, Buffers;
      assert list[|list| - 1] == win;
    }

    /** The second half of wm_focus_window: out of the list, above all others, and in again. */
    method Raise(win: Window, ghost k: nat)
      requires Linked() && High() && Ascending(heights) && k < |list| && list[k] == win
      modifies this`windows, this`list, this`heights, owned`next, win`zOrder
      ensures Linked() && High() && Ascending(heights)
      ensures list == Without<Window>(old(list), k) + [win] && heights == Without<nat>(old(heights), k) + [MaxZ(old(heights), 0) + 1]
    {
      hide Without, Inserted, Ascending;
      var z := NextZ();
      ghost var ws, zs: seq<nat> := list, heights;
      GoneFrom(ws, k);
      RaisedHeights(zs, k);
      RemoveFromList(win, k);
      assert list == Without<Window>(ws, k) && heights == Without<nat>(zs, k);
      win.zOrder := z;
      assert win !in list;
      assert High();
      InsertSorted(win);
      assert list == Inserted<Window>(Without<Window>(ws, k), |ws| - 1, win) && heights == Inserted<nat>(Without<nat>(zs, k), |zs| - 1, z);
    }

    lemma GoneFrom(ws: seq<Window>, k: nat)
      requires k < |ws| && forall a, b | 0 <= a < b < |ws| :: ws[a] != ws[b]
      ensures ws[k] !in Without<Window>(ws, k) && |Without<Window>(ws, k)| == |ws| - 1
      ensures Inserted<Window>(Without<Window>(ws, k), |ws| - 1, ws[k]) == Without<Window>(ws, k) + [ws[k]]
    {
    }

    lemma RaisedHeights(zs: seq<nat>, k: nat)
      requires k < |zs| && Ascending(zs)
      ensures var rest: seq<nat>, z: nat := Without<nat>(zs, k), MaxZ(zs, 0) + 1;
        && Place(rest, z) == |rest| == |zs| - 1 && Inserted<nat>(rest, |rest|, z) == rest + [z] && Ascending(rest + [z])
    {
      var rest: seq<nat> := Without<nat>(zs, k);
      forall i | 0 <= i < |rest| ensures rest[i] == zs[if i < k then i else i + 1] && rest[i] <= MaxZ(zs, 0) { }
    }

    /** wm_create_window; `memory` says whether kmalloc finds room for the window and its buffer. */
    method CreateWindow(x: int, y: int, contentW: nat, contentH: nat, title: seq<u8>, memory: bool) returns (win: Window?)
      requires Valid() && 0 !in title
      modifies this`windows, this`list, this`heights, this`owned, this`focused, this`count, owned`next, owned`focused
      ensures Valid()
      ensures win == null <==> old(count) >= MAX_WINDOWS || !memory
      ensures win == null ==> list == old(list) && heights == old(heights) && focused == old(focused)
      ensures win != null ==> fresh(win) && list == old(list) + [win] && focused == win
      ensures win != null ==>
                win.LooksLike(Look(x, y, contentW, contentH, if |title| > MAX_TITLE then title[..MAX_TITLE] else title, true, true,
                  seq(contentW * contentH, _ => 0xF5F5F5)))
    {
      hide Linked, High, Ascending, Buffers, Marked, Without;
      if count >= MAX_WINDOWS || !memory { return null; }
      var w := new Window(x, y, contentW, contentH, if |title| > MAX_TITLE then title[..MAX_TITLE] else title);
      ghost var before, l := list, w.Appearance();
      Adopt(w);
      AddLast(w);
      FocusWindow(w, |before|);
      assert Without<Window>(before + [w], |before|) == before by { DropLast(before, w); }
      assert w.buffer[..] == l.pixels;
      FocusIsMarked();
      assert w.Appearance() == l.(focused := true);
      win := w;
    }

    lemma FocusIsMarked()
      requires Marked()
      ensures focused != null ==> focused.focused
    {
    }

    lemma DropLast(ws: seq<Window>, w: Window)
      ensures Without<Window>(ws + [w], |ws|) == ws
    {
    }

    ghost method Adopt(win: Window)
      requires Usable() && win.buffer.Length == win.contentW * win.contentH && win.buffer != fb.addr
      modifies this`owned
      ensures Usable() && owned == old(owned) + {win}
    {
      owned := owned + {win};
    }

    /** The middle of wm_create_window: above all others, and into the list. */
    method AddLast(win: Window)
      requires Usable() && win in owned && win !in list && !win.focused && count < MAX_WINDOWS
      modifies this`windows, this`list, this`heights, this`count, owned`next, win`zOrder
      ensures Usable() && list == old(list) + [win] && focused != win
    {
      hide Inserted, Ascending, Linked, Buffers;
      var z := NextZ();
      win.zOrder := z;
      ghost var before, zs: seq<nat> := list, heights;
      AddedHeights(zs);
      InsertSorted(win);
      LastOne(before, win);
      count := count + 1;
      AddDone(before, win);
    }

    lemma AddDone(before: seq<Window>, win: Window)
      requires cursor.Valid() && cursor.fb == fb && Linked() && High() && Ascending(heights) && Buffers()
      requires list == before + [win] && focused != win && !win.focused && win in owned && count == |list| <= MAX_WINDOWS
      requires focused != null ==> focused in owned && exists k :: 0 <= k < |before| && before[k] == focused
      requires forall i | 0 <= i < |before| :: before[i].focused <==> before[i] == focused
      ensures Usable()
    {
      hide High, Ascending, Buffers;
      if focused != null {
        var k :| 0 <= k < |before| && before[k] == focused;
        assert list[k] == focused;
      }
    }

    lemma LastOne(ws: seq<Window>, w: Window)
      ensures Inserted<Window>(ws, |ws|, w) == ws + [w]
    {
    }

    lemma AddedHeights(zs: seq<nat>)
      requires Ascending(zs)
      ensures var z := MaxZ(zs, 0) + 1; Place(zs, z) == |zs| && Ascending(Inserted<nat>(zs, |zs|, z))
    {
    }

    /** wm_destroy_window: the window leaves the list, and the focus goes with it. */
    method DestroyWindow(win: Window, ghost k: nat)
      requires Valid() && k < |list| && list[k] == win
      modifies this`windows, this`list, this`heights, this`focused, this`count, owned`next
      ensures Valid() && list == Without<Window>(old(list), k) && heights == Without<nat>(old(heights), k)
      ensures focused == if old(focused) == win then null else old(focused)
    {
      hide Without, Buffers;
      ghost var before, zs: seq<nat> := list, heights;
      RemoveFromList(win, k);
      LoweredHeights(zs, k);
      if focused == win { focused := null; }
      count := count - 1;
      DestroyDone(before, k, win);
    }

    lemma LoweredHeights(zs: seq<nat>, k: nat)
      requires k < |zs| && Ascending(zs)
      ensures Ascending(Without<nat>(zs, k))
    {
    }

    lemma DestroyDone(before: seq<Window>, k: nat, win: Window)
      requires cursor.Valid() && cursor.fb == fb && Linked() && High() && Ascending(heights) && Buffers()
      requires k < |before| && before[k] == win && list == Without<Window>(before, k) && count == |before| - 1 < MAX_WINDOWS
      requires forall a, b | 0 <= a < b < |before| :: before[a] != before[b]
      requires focused != null ==> focused in owned && before[|before| - 1] == focused && focused != win
      requires forall i | 0 <= i < |before| && i != k :: before[i].focused <==> before[i] == focused
      ensures Valid()
    {
      hide Ascending, Buffers;
      forall i | 0 <= i < |list| ensures list[i] == before[if i < k then i else i + 1] { }
      if focused != null { assert list[|list| - 1] == before[|before| - 1]; }
    }

    /** wm_move_window. */
    method MoveWindow(win: Window, x: int, y: int)
      requires Valid() && win in owned
      modifies win`x, win`y
      ensures Valid() && win.x == x && win.y == y
    {
      win.x, win.y := x, y;
    }

    // -------------------------------------------------------------- painting and hit testing

    lemma LooksUpTo(k: nat)
      requires k < |list|
      ensures LooksOf(list[..k + 1]) == LooksOf(list[..k]) + [list[k].Appearance()]
      ensures LooksOf(list[..0]) == [] && LooksOf(list[..|list|]) == Looks()
    {
      assert list[..k + 1][..k] == list[..k];
      assert list[..|list|] == list;
    }

    /** wm_get_window_at. */
    method GetWindowAt(px: int, py: int) returns (r: Window?)
      requires Valid()
      ensures var top := TopAt(Looks(), px, py);
        && r == (if top < 0 then null else list[top])
        && |heights| == |Looks()| && IsHighestAt(Looks(), heights, top, px, py)
    {
      hide LooksOf, TopAt, Ascending;
      LookedUp(px, py);
      r := null;
      var w := windows;
      ghost var k := 0;
      assert windows == Node(0);
      NothingAbove(px, py);
      while w != null
        invariant k <= |list| && w == Node(k)
        invariant var top := TopAt(LooksOf(list[..k]), px, py); r == if top < 0 then null else list[top]
        decreases |list| - k
      {
        OneAbove(k, px, py);
        if w.visible && w.Appearance().Contains(px, py) { r := w; }
        assert w.next == Node(k + 1);
        w := w.next;
        k := k + 1;
      }
      assert list[..|list|] == list;
    }

    lemma LookedUp(px: int, py: int)
      requires Valid()
      ensures |heights| == |Looks()| && IsHighestAt(Looks(), heights, TopAt(Looks(), px, py), px, py)
    {
      hide LooksOf, TopAt;
      ShapedLooks();
      var ls := Looks();
      forall i | 0 <= i < |ls| && ls[i].visible && ls[i].Contains(px, py)
        ensures TopAt(ls, px, py) >= 0 && heights[i] <= heights[TopAt(ls, px, py)]
      {
        TopIsHighest(ls, heights, px, py, i);
      }
    }

    lemma NothingAbove(px: int, py: int)
      ensures TopAt(LooksOf(list[..0]), px, py) == -1
    {
      NoLooks();
    }

    lemma OneAbove(k: nat, px: int, py: int)
      requires k < |list|
      ensures var l := list[k].Appearance();
        TopAt(LooksOf(list[..k + 1]), px, py) == if l.visible && l.Contains(px, py) then k else TopAt(LooksOf(list[..k]), px, py)
    {
      hide LooksOf;
      LooksUpTo(k);
      assert (LooksOf(list[..k]) + [list[k].Appearance()])[..k] == LooksOf(list[..k]);
    }

    lemma NoLooks()
      ensures LooksOf([]) == [] && LooksOf(list[..0]) == []
    {
      assert list[..0] == [];
    }

    lemma ShapedLooks()
      requires Valid()
      ensures |Looks()| == |list| && forall k | 0 <= k < |list| :: Looks()[k] == list[k].Appearance() && Looks()[k].Shaped()
      ensures forall l | l in Looks() :: l.Shaped()
    {
    }

    /** The loop of wm_composite: all visible windows, the lowest first. */
    method PaintWindows()
      requires Valid()
      modifies fb.addr
      ensures forall l | l in Looks() :: l.Shaped()
      ensures Looks() == old(Looks()) && Valid()
      ensures forall px, py | fb.OnScreen(px, py) :: fb.At(px, py) == PixelAfter(font, Looks(), px, py, old(fb.At(px, py)))
    {
      hide LooksOf, WindowPixel, Framebuffer.At, FramePixel, ContentPixel;
      ghost var ls := Looks();
      ShapedLooks();
      var w := windows;
      ghost var k := 0;
      assert windows == Node(0);
      while w != null
        invariant k <= |list| && w == Node(k) && Looks() == ls && Valid()
        invariant forall px, py | fb.OnScreen(px, py) :: fb.At(px, py) == PixelAfter(font, ls[..k], px, py, old(fb.At(px, py)))
        decreases |list| - k
      {
        assert ls[k] == w.Appearance();
        assert ls[..k + 1][..k] == ls[..k];
        if w.visible { PaintWindow(w); }
        assert w.next == Node(k + 1);
        w := w.next;
        k := k + 1;
      }
      assert ls[..k] == ls;
    }

    method PaintWindow(w: Window)
      requires fb.Valid() && w.buffer != fb.addr && w.Appearance().Shaped()
      modifies fb.addr
      ensures w.Appearance() == old(w.Appearance())
      ensures forall px, py | fb.OnScreen(px, py) :: fb.At(px, py) == WindowPixel(font, w.Appearance(), px, py, old(fb.At(px, py)))
    {
      hide Framebuffer.At, FramePixel, ContentPixel;
      DrawFrame(fb, font, w.Appearance());
      DrawContent(fb, w);
    }

    /** wm_composite with at least one window, over the image `base` beneath the cursor: afterwards the
        cursor is over the image `after`. */
    method Composite(ghost base: seq<u32>) returns (ghost after: seq<u32>)
      requires Valid() && count > 0 && fb.IsPicture(base)
      requires if cursor.visible then cursor.Shown(base) else base == fb.addr[..]
      modifies fb.addr, cursor`oldX, cursor`oldY, cursor.saved
      ensures Valid() && Looks() == old(Looks()) && fb.IsPicture(after)
      ensures if cursor.visible then cursor.Shown(after) else after == fb.addr[..]
      ensures forall l | l in Looks() :: l.Shaped()
      ensures forall px, py | fb.OnScreen(px, py) :: fb.Of(after, px, py) == PixelAfter(font, Looks(), px, py, fb.Of(base, px, py))
      ensures AllRoomy(Looks()) ==> |heights| == |Looks()| && forall px, py | fb.OnScreen(px, py) ::
        var top := TopAt(Looks(), px, py);
        && IsHighestAt(Looks(), heights, top, px, py)
        && fb.Of(after, px, py) == if top < 0 then fb.Of(base, px, py) else WindowPixel(font, Looks()[top], px, py, 0)
    {
      hide LooksOf, PixelAfter, Framebuffer.At, Framebuffer.Of, WindowPixel, IsHighestAt, AllRoomy, TopAt, Ascending;
      fb.AtIsOf(fb.addr[..]);
      cursor.Remove(base);
      fb.AtIsOf(fb.addr[..]);
      assert forall px, py | fb.OnScreen(px, py) :: fb.At(px, py) == fb.Of(base, px, py);
      PaintWindows();
      after := fb.addr[..];
      fb.AtIsOf(after);
      cursor.Restore();
      ShapedLooks();
      if AllRoomy(Looks()) { ShowsHighest(base, after); }
    }

    lemma ShowsHighest(base: seq<u32>, after: seq<u32>)
      requires Valid() && fb.IsPicture(base) && fb.IsPicture(after)
      requires (forall l | l in Looks() :: l.Shaped()) && AllRoomy(Looks())
      requires forall px, py | fb.OnScreen(px, py) :: fb.Of(after, px, py) == PixelAfter(font, Looks(), px, py, fb.Of(base, px, py))
      ensures |heights| == |Looks()| && forall px, py | fb.OnScreen(px, py) ::
        var top := TopAt(Looks(), px, py);
        && IsHighestAt(Looks(), heights, top, px, py)
        && fb.Of(after, px, py) == if top < 0 then fb.Of(base, px, py) else WindowPixel(font, Looks()[top], px, py, 0)
    {
      hide LooksOf, PixelAfter, WindowPixel, IsHighestAt, AllRoomy, TopAt, Framebuffer.Of;
      ShapedLooks();
      forall px, py | fb.OnScreen(px, py)
        ensures var top := TopAt(Looks(), px, py);
          && IsHighestAt(Looks(), heights, top, px, py)
          && fb.Of(after, px, py) == if top < 0 then fb.Of(base, px, py) else WindowPixel(font, Looks()[top], px, py, 0)
      {
        PictureShowsHighest(font, Looks(), heights, px, py, fb.Of(base, px, py));
      }
    }
  }
}
