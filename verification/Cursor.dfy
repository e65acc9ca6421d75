/** drivers/cursor.c: the mouse cursor leaves no trail. */
module Cursor {
  import opened Wrappers
  import opened Screen

  const SIZE: nat := 16
  const BLACK: u32 := 0
  const WHITE: u32 := 0xFFFFFF

  /** s_cursor_sprite: 0 is transparent, 1 black, 2 white. */
  function Sprite(row: nat, col: nat): (v: nat)
    requires row < SIZE && col < SIZE
    ensures v <= 2
  {
    if row == 12 then (if col <= 12 then 1 else 0)
    else if row > 12 then 0
    else if row <= 1 then (if col <= row then 1 else 0)
    else if col == 0 || col == row then 1
    else if col < row then 2
    else 0
  }

  function Colour(v: nat): u32 { if v == 1 then BLACK else WHITE }

  function Clamp(v: int, extent: nat): int {
    var w := if v < 0 then 0 else v;
    if w + SIZE > extent then extent - SIZE else w
  }

  /** The pixel at distance (dx, dy) from the hot spot, over a background `under`. */
  function Over(dx: int, dy: int, under: u32): u32 {
    if 0 <= dx < SIZE && 0 <= dy < SIZE && Sprite(dy, dx) != 0 then Colour(Sprite(dy, dx)) else under
  }

  /** Whether the loops have passed (dx, dy) when they stand at (row, col). */
  predicate Passed(dx: int, dy: int, row: nat, col: nat) {
    0 <= dx < SIZE && 0 <= dy && (dy < row || (dy == row && dx < col))
  }

  class Cursor {
    const fb: Framebuffer
    const saved: array2<u32>
    var x: int
    var y: int
    var oldX: int
    var oldY: int
    var visible: bool

    ghost predicate Valid() {
      fb.Valid() && saved.Length0 == SIZE && saved.Length1 == SIZE
    }

    constructor (fb: Framebuffer)
      requires fb.Valid()
      ensures Valid() && this.fb == fb && fresh(saved) && !visible
    {
      this.fb := fb;
      saved := new u32[SIZE, SIZE];
      x, y, oldX, oldY, visible := 0, 0, 0, 0, false;
    }

    /** The image `base` is on the screen with the cursor over it, and what the cursor covers is saved. */
    ghost predicate Shown(base: seq<u32>)
      reads this`x, this`y, fb.addr, saved
    {
      && Valid() && fb.IsPicture(base) && Holds(base)
      && forall px, py | fb.OnScreen(px, py) :: fb.At(px, py) == Over(px - x, py - y, fb.Of(base, px, py))
    }

    /** saved_bg holds what `base` has at the cursor. */
    ghost predicate Holds(base: seq<u32>)
      requires Valid() && fb.IsPicture(base)
      reads this`x, this`y, saved
    {
      forall px, py | fb.OnScreen(px, py) && InRect(px, py, x, y, SIZE, SIZE) :: saved[py - y, px - x] == fb.Of(base, px, py)
    }

    /** save_background. */
    method SaveBackground()
      requires Valid()
      modifies saved
      ensures Holds(fb.addr[..])
    {
      hide Framebuffer.At, Framebuffer.Of;
      fb.AtIsOf(fb.addr[..]);
      var row := 0;
      while row < SIZE
        invariant row <= SIZE
        invariant forall px, py | fb.OnScreen(px, py) && InRect(px, py, x, y, SIZE, row) :: saved[py - y, px - x] == fb.At(px, py)
      {
        var col := 0;
        while col < SIZE
          invariant col <= SIZE
          invariant forall px, py | fb.OnScreen(px, py) && Passed(px - x, py - y, row, col) :: saved[py - y, px - x] == fb.At(px, py)
        {
          if fb.OnScreen(x + col, y + row) { saved[row, col] := fb.At(x + col, y + row); }
          col := col + 1;
        }
        row := row + 1;
      }
    }

    /** The loops of restore_background and cursor_remove, for the saved area at (left, top). */
    method PutBack(left: int, top: int)
      requires Valid()
      modifies fb.addr
      ensures forall px, py | fb.OnScreen(px, py) ::
          fb.At(px, py) ==
            if InRect(px, py, left, top, SIZE, SIZE) then saved[py - top, px - left] else old(fb.At(px, py))
    {
      var row := 0;
      while row < SIZE
        invariant row <= SIZE
        invariant forall px, py | fb.OnScreen(px, py) ::
            fb.At(px, py) ==
              if InRect(px, py, left, top, SIZE, row) then saved[py - top, px - left] else old(fb.At(px, py))
      {
        var col := 0;
        while col < SIZE
          invariant col <= SIZE
          invariant forall px, py | fb.OnScreen(px, py) ::
              fb.At(px, py) ==
                if Passed(px - left, py - top, row, col) then saved[py - top, px - left] else old(fb.At(px, py))
        {
          fb.Put(left + col, top + row, saved[row, col]);
          col := col + 1;
        }
        row := row + 1;
      }
    }

    /** draw_cursor. */
    method DrawCursor()
      requires Valid()
      modifies fb.addr
      ensures forall px, py | fb.OnScreen(px, py) :: fb.At(px, py) == Over(px - x, py - y, old(fb.At(px, py)))
    {
      hide Sprite;
      var row := 0;
      while row < SIZE
        invariant row <= SIZE
        invariant forall px, py | fb.OnScreen(px, py) ::
            fb.At(px, py) ==
              if InRect(px, py, x, y, SIZE, row) then Over(px - x, py - y, old(fb.At(px, py))) else old(fb.At(px, py))
      {
        var col := 0;
        while col < SIZE
          invariant col <= SIZE
          invariant forall px, py | fb.OnScreen(px, py) ::
              fb.At(px, py) ==
                if Passed(px - x, py - y, row, col) then Over(px - x, py - y, old(fb.At(px, py))) else old(fb.At(px, py))
        {
          var v := Sprite(row, col);
          if v != 0 { fb.Put(x + col, y + row, Colour(v)); }
          col := col + 1;
        }
        row := row + 1;
      }
    }

    /** cursor_init: the cursor stands in the middle of the screen. */
    method Init()
      requires Valid()
      modifies this, fb.addr, saved
      ensures visible && Shown(old(fb.addr[..])) && x == Clamp(fb.width / 2, fb.width) && y == Clamp(fb.height / 2, fb.height)
    {
      hide Over, Framebuffer.At, Framebuffer.Of;
      fb.AtIsOf(fb.addr[..]);
      x, y := Clamp(fb.width / 2, fb.width), Clamp(fb.height / 2, fb.height);
      oldX, oldY, visible := x, y, true;
      SaveBackground();
      DrawCursor();
    }

    /** cursor_move: whatever the cursor covered before is back, and it now covers the new place. */
    method Move(dx: int, dy: int, ghost base: seq<u32>)
      requires Valid() && (visible ==> Shown(base))
      modifies this, fb.addr, saved
      ensures visible == old(visible)
      ensures visible ==> Shown(base) && x == Clamp(old(x) + dx, fb.width) && y == Clamp(old(y) + dy, fb.height)
      ensures !visible ==> x == old(x) && y == old(y) && fb.addr[..] == old(fb.addr[..])
    {
      hide Over, Framebuffer.At, Framebuffer.Of;
      if !visible { return; }
      oldX, oldY := x, y;
      x, y := Clamp(x + dx, fb.width), Clamp(y + dy, fb.height);
      if x == oldX && y == oldY { return; }
      OutsideIsUnder();
      PutBack(oldX, oldY);
      assert forall px, py | fb.OnScreen(px, py) :: fb.At(px, py) == fb.Of(base, px, py);
      fb.AtIsOf(fb.addr[..]);
      SaveBackground();
      DrawCursor();
    }

    lemma OutsideIsUnder()
      ensures forall dx, dy, under | !(0 <= dx < SIZE && 0 <= dy < SIZE) :: Over(dx, dy, under) == under
    {
    }

    /** cursor_poll_mouse: all pending events, with the vertical axis turned round. */
    method PollMouse(events: seq<(int, int)>, ghost base: seq<u32>)
      requires Valid() && (visible ==> Shown(base))
      modifies this, fb.addr, saved
      ensures visible == old(visible)
      ensures visible ==> Shown(base) && (x, y) == Track(old(x), old(y), events, fb.width, fb.height)
      ensures !visible ==> x == old(x) && y == old(y) && fb.addr[..] == old(fb.addr[..])
    {
      var i := 0;
      while i < |events|
        invariant i <= |events| && visible == old(visible) && (visible ==> Shown(base))
        invariant !visible ==> x == old(x) && y == old(y) && fb.addr[..] == old(fb.addr[..])
        invariant visible ==> Track(old(x), old(y), events, fb.width, fb.height) == Track(x, y, events[i..], fb.width, fb.height)
      {
        Move(events[i].0, -events[i].1, base);
        assert events[i..][1..] == events[i + 1..];
        i := i + 1;
      }
    }

    /** cursor_remove: the screen shows the original image again. */
    method Remove(ghost base: seq<u32>)
      requires Valid() && fb.IsPicture(base) && (visible ==> Shown(base))
      modifies fb.addr
      ensures visible ==> forall px, py | fb.OnScreen(px, py) :: fb.At(px, py) == fb.Of(base, px, py)
      ensures !visible ==> fb.addr[..] == old(fb.addr[..])
    {
      hide Over;
      if !visible { return; }
      OutsideIsUnder();
      PutBack(x, y);
    }

    /** cursor_restore: the cursor is back over whatever has been drawn since cursor_remove. */
    method Restore()
      requires Valid()
      modifies this`oldX, this`oldY, fb.addr, saved
      ensures visible ==> Shown(old(fb.addr[..]))
      ensures !visible ==> fb.addr[..] == old(fb.addr[..])
    {
      hide Over, Framebuffer.At, Framebuffer.Of;
      if !visible { return; }
      fb.AtIsOf(fb.addr[..]);
      oldX, oldY := x, y;
      SaveBackground();
      DrawCursor();
    }
  }

  /** Where the cursor is after a sequence of mouse events. */
  function Track(x: int, y: int, events: seq<(int, int)>, width: nat, height: nat): (int, int)
    decreases |events|
  {
    if events == [] then (x, y)
    else Track(Clamp(x + events[0].0, width), Clamp(y - events[0].1, height), events[1..], width, height)
  }

  /** On a screen that can hold it the cursor never leaves the screen. */
  lemma {:induction false} TrackStaysOnScreen(x: int, y: int, events: seq<(int, int)>, width: nat, height: nat)
    requires width >= SIZE && height >= SIZE && 0 <= x <= width - SIZE && 0 <= y <= height - SIZE
    ensures var (x', y') := Track(x, y, events, width, height); 0 <= x' <= width - SIZE && 0 <= y' <= height - SIZE
    decreases |events|
  {
    if events != [] {
      TrackStaysOnScreen(Clamp(x + events[0].0, width), Clamp(y - events[0].1, height), events[1..], width, height);
    }
  }

  /** The place where a cursor that should be at `v` stands is the nearest one at which it is on the screen; on a
      screen that cannot hold it, its far edge is the screen's. */
  lemma ClampIsNearest(v: int, extent: nat, w: int)
    ensures extent < 16 ==> Clamp(v, extent) + 16 == extent
    ensures extent >= 16 ==> 0 <= Clamp(v, extent) <= extent - 16
    ensures extent >= 16 && 0 <= w <= extent - 16 ==> Distance(Clamp(v, extent), v) <= Distance(w, v)
  {
  }

  function Distance(a: int, b: int): nat { if a < b then b - a else a - b }

  /** How far the first `n` events move the mouse, to the right and up. */
  function Moved(events: seq<(int, int)>, n: nat): (int, int)
    requires n <= |events|
  {
    if n == 0 then (0, 0)
    else var (a, b) := Moved(events, n - 1); (a + events[n - 1].0, b + events[n - 1].1)
  }

  lemma {:induction false} MovedOnce(events: seq<(int, int)>, n: nat)
    requires 0 < n <= |events|
    ensures Moved(events, n) == (events[0].0 + Moved(events[1..], n - 1).0, events[0].1 + Moved(events[1..], n - 1).1)
  {
    if n > 1 { MovedOnce(events, n - 1); }
  }

  /** While it meets no edge the cursor goes as far as the events say, to the right and up. */
  lemma {:induction false} TrackFollowsMouse(x: int, y: int, events: seq<(int, int)>, width: nat, height: nat)
    requires forall n | 0 <= n <= |events| ::
      0 <= x + Moved(events, n).0 <= width - SIZE && 0 <= y - Moved(events, n).1 <= height - SIZE
    ensures Track(x, y, events, width, height) == (x + Moved(events, |events|).0, y - Moved(events, |events|).1)
    decreases |events|
  {
    if events != [] {
      var x1, y1 := x + events[0].0, y - events[0].1;
      assert Moved(events, 0) == (0, 0) && Moved(events, 1) == events[0];
      forall n | 0 <= n <= |events| - 1
        ensures 0 <= x1 + Moved(events[1..], n).0 <= width - SIZE && 0 <= y1 - Moved(events[1..], n).1 <= height - SIZE
      {
        MovedOnce(events, n + 1);
      }
      MovedOnce(events, |events|);
      TrackFollowsMouse(x1, y1, events[1..], width, height);
    }
  }

  /** The arrow: black (#) around white (+), transparent elsewhere. */
  const ARROW: seq<string> := [
    "#...............",
    "##..............",
    "#+#.............",
    "#++#............",
    "#+++#...........",
    "#++++#..........",
    "#+++++#.........",
    "#++++++#........",
    "#+++++++#.......",
    "#++++++++#......",
    "#+++++++++#.....",
    "#++++++++++#....",
    "#############...",
    "................",
    "................",
    "................"]

  /** What the cursor shows: the arrow, its tip at the hot spot, and around it what is beneath. */
  lemma CursorIsArrow(dx: int, dy: int, under: u32)
    ensures Over(dx, dy, under) ==
      if !(0 <= dx < 16 && 0 <= dy < 16) || ARROW[dy][dx] == '.' then under else if ARROW[dy][dx] == '#' then 0x000000 else 0xFFFFFF
  {
    if 0 <= dx < 16 && 0 <= dy < 16 { ArrowRow(dy, dx); }
  }

  lemma ArrowRow(row: nat, col: nat)
    requires row < 16 && col < 16
    ensures |ARROW[row]| == 16 && Sprite(row, col) == if ARROW[row][col] == '.' then 0 else if ARROW[row][col] == '#' then 1 else 2
  {
  }
}
