/** drivers/window.c pixel by pixel: what one window paints, what all windows paint in order of height,
    and which window a point belongs to. */
module WindowSpec {
  import opened Wrappers
  import opened Screen

  const MAX_WINDOWS: nat := 16
  const MAX_TITLE: nat := 31
  const TITLE_HEIGHT: nat := 20
  const BORDER: nat := 2
  const BUTTON: nat := 14
  const BUTTON_MARGIN: nat := 3
  const GLYPH_WIDTH: nat := 8
  const GLYPH_HEIGHT: nat := 16
  const GLYPHS: nat := 96
  const FIRST_GLYPH: nat := 32
  const CLOSE_COLOUR: u32 := 0xC83232
  const TEXT_COLOUR: u32 := 0xFFFFFF

  type u8 = b: int | 0 <= b < 256
  type Glyph = g: seq<u8> | |g| == GLYPH_HEIGHT witness seq(GLYPH_HEIGHT, _ => 0)
  type Font = f: seq<Glyph> | |f| == GLYPHS witness seq<Glyph>(GLYPHS, _ => seq(GLYPH_HEIGHT, _ => 0))
  type Title = t: seq<u8> | |t| <= MAX_TITLE

  /** What painting looks at in a window. */
  datatype Look = Look(x: int, y: int, contentW: nat, contentH: nat, title: Title, visible: bool, focused: bool, pixels: seq<u32>) {
    predicate Shaped() { |pixels| == contentW * contentH }

    function Width(): nat { contentW + 2 * BORDER }

    function Height(): nat { contentH + TITLE_HEIGHT + BORDER }

    /** window_contains. */
    predicate Contains(px: int, py: int) { InRect(px, py, x, y, Width(), Height()) }

    function BorderColour(): u32 { if focused then 0x506EE6 else 0x82828C }

    function TitleColour(): u32 { if focused then 0x3250C8 else 0x646478 }
  }

  /** How many characters the title bar is thought to hold: an unsigned difference. */
  function MaxChars(contentW: nat): nat { (contentW + 0x1_0000_0000 - 24) % 0x1_0000_0000 / GLYPH_WIDTH }

  function TitleChars(l: Look): nat { if |l.title| < MaxChars(l.contentW) then |l.title| else MaxChars(l.contentW) }

  function GlyphOf(font: Font, c: u8): Glyph {
    if FIRST_GLYPH <= c < FIRST_GLYPH + GLYPHS then font[c - FIRST_GLYPH] else font[0]
  }

  /** `bits & (0x80 >> col)`. */
  predicate GlyphBit(bits: u8, col: nat)
    requires col < GLYPH_WIDTH
  {
    bits / [128, 64, 32, 16, 8, 4, 2, 1][col] % 2 == 1
  }

  function ButtonX(l: Look): int { l.Width() - BORDER - BUTTON_MARGIN - BUTTON }

  const BUTTON_Y: nat := 5
  const TEXT_X: nat := 6
  const TEXT_Y: nat := 4

  // ---------------------------------------------------------------- one window, stage by stage
  // (dx, dy) is the distance from the window's corner, `under` the pixel that is there before.

  predicate OnBorder(l: Look, dx: int, dy: int) {
    InRect(dx, dy, 0, 0, l.Width(), l.Height()) &&
    (dy < BORDER || dy >= l.Height() - BORDER || dx < BORDER || dx >= l.Width() - BORDER)
  }

  function BorderPixel(l: Look, dx: int, dy: int, under: u32): u32 {
    if OnBorder(l, dx, dy) then l.BorderColour() else under
  }

  function TitlePixel(l: Look, dx: int, dy: int, under: u32): u32 {
    if InRect(dx, dy, BORDER, BORDER, l.contentW, TITLE_HEIGHT) then l.TitleColour() else under
  }

  /** The first `n` characters of the title. */
  function TextPixel(font: Font, l: Look, n: nat, dx: int, dy: int, under: u32): u32
    requires n <= |l.title|
  {
    if InRect(dx, dy, TEXT_X, TEXT_Y, GLYPH_WIDTH * n, GLYPH_HEIGHT) then
      CharPixel(font, l, (dx - TEXT_X) / GLYPH_WIDTH, (dx - TEXT_X) % GLYPH_WIDTH, dy - TEXT_Y)
    else under
  }

  /** Pixel (col, row) of the title's character `ci`. */
  function CharPixel(font: Font, l: Look, ci: nat, col: nat, row: nat): u32
    requires ci < |l.title| && col < GLYPH_WIDTH && row < GLYPH_HEIGHT
  {
    if GlyphBit(GlyphOf(font, l.title[ci])[row], col) then TEXT_COLOUR else l.TitleColour()
  }

  predicate OnCross(l: Look, dx: int, dy: int) {
    var cx, cy := dx - ButtonX(l), dy - BUTTON_Y;
    0 <= cx < BUTTON && 0 <= cy < BUTTON && (cy == cx || cy == BUTTON - 1 - cx)
  }

  function ButtonPixel(l: Look, dx: int, dy: int, under: u32): u32 {
    if OnCross(l, dx, dy) then TEXT_COLOUR
    else if InRect(dx, dy, ButtonX(l), BUTTON_Y, BUTTON, BUTTON) then CLOSE_COLOUR
    else under
  }

  function ContentPixel(l: Look, dx: int, dy: int, under: u32): u32
    requires l.Shaped()
  {
    if InRect(dx, dy, BORDER, BORDER + TITLE_HEIGHT, l.contentW, l.contentH) then
      IndexFits(l.contentW, l.contentH, l.contentW, dx - BORDER, dy - BORDER - TITLE_HEIGHT);
      l.pixels[(dy - BORDER - TITLE_HEIGHT) * l.contentW + (dx - BORDER)]
    else under
  }

  /** draw_window_frame. */
  function FramePixel(font: Font, l: Look, dx: int, dy: int, under: u32): u32 {
    ButtonPixel(l, dx, dy, TextPixel(font, l, TitleChars(l), dx, dy, TitlePixel(l, dx, dy, BorderPixel(l, dx, dy, under))))
  }

  /** What stands at (px, py) once the window has been painted. */
  function WindowPixel(font: Font, l: Look, px: int, py: int, under: u32): u32
    requires l.Shaped()
  {
    ContentPixel(l, px - l.x, py - l.y, FramePixel(font, l, px - l.x, py - l.y, under))
  }

  /** The pixels of a row of a glyph are the digits of its byte, the highest one on the left. */
  lemma GlyphRow(bits: u8)
    ensures bits == Digit(bits, 0, 128) + Digit(bits, 1, 64) + Digit(bits, 2, 32) + Digit(bits, 3, 16)
                  + Digit(bits, 4, 8) + Digit(bits, 5, 4) + Digit(bits, 6, 2) + Digit(bits, 7, 1)
  {
    hide Digit;
    DigitIs(bits, 0, 128);
    DigitIs(bits, 1, 64);
    DigitIs(bits, 2, 32);
    DigitIs(bits, 3, 16);
    DigitIs(bits, 4, 8);
    DigitIs(bits, 5, 4);
    DigitIs(bits, 6, 2);
    DigitIs(bits, 7, 1);
    Digits(bits);
  }

  lemma DigitIs(bits: u8, col: nat, value: nat)
    requires col < GLYPH_WIDTH && value == [128, 64, 32, 16, 8, 4, 2, 1][col]
    ensures value > 0 && Digit(bits, col, value) == if bits / value % 2 == 1 then value else 0
  {
  }

  lemma Digits(b: u8)
    ensures b == (if b / 128 % 2 == 1 then 128 else 0) + (if b / 64 % 2 == 1 then 64 else 0) + (if b / 32 % 2 == 1 then 32 else 0)
      + (if b / 16 % 2 == 1 then 16 else 0) + (if b / 8 % 2 == 1 then 8 else 0) + (if b / 4 % 2 == 1 then 4 else 0)
      + (if b / 2 % 2 == 1 then 2 else 0) + (if b % 2 == 1 then 1 else 0)
  {
    var high, low := b / 16, b % 16;
    Upper(b, high, low);
    Lower(b, high, low);
    Nibble(high);
    Nibble(low);
  }

  lemma Upper(b: u8, high: nat, low: nat)
    requires low < 16 && b == 16 * high + low
    ensures b / 128 == high / 8 && b / 64 == high / 4 && b / 32 == high / 2 && b / 16 == high
  {
  }

  lemma Lower(b: u8, high: nat, low: nat)
    requires low < 16 && b == 16 * high + low
    ensures b / 8 % 2 == low / 8 % 2 && b / 4 % 2 == low / 4 % 2 && b / 2 % 2 == low / 2 % 2 && b % 2 == low % 2
  {
    assert b / 8 == 2 * high + low / 8 && b / 4 == 4 * high + low / 4 && b / 2 == 8 * high + low / 2;
  }

  lemma Nibble(n: nat)
    requires n < 16
    ensures n == (if n / 8 % 2 == 1 then 8 else 0) + (if n / 4 % 2 == 1 then 4 else 0)
      + (if n / 2 % 2 == 1 then 2 else 0) + (if n % 2 == 1 then 1 else 0)
  {
  }

  function Digit(bits: u8, col: nat, value: nat): nat
    requires col < GLYPH_WIDTH
  {
    if GlyphBit(bits, col) then value else 0
  }

  /** The frame of a window `w` wide and `h` high, from the top: a close button of 14 by 14 pixels with a white
      cross, 19 pixels from the right; the title in white, from (6, 4) on, eight columns to a character, as far as
      there is room; a title bar of 20 rows; and two pixels of border. */
  lemma FrameShows(font: Font, l: Look, dx: int, dy: int, under: u32)
    ensures var w, h := l.contentW + 4, l.contentH + 22;
      var bar, line := if l.focused then 0x3250C8 else 0x646478, if l.focused then 0x506EE6 else 0x82828C;
      var cx, cy := dx - (w - 19), dy - 5;
      var room := (l.contentW + 0x1_0000_0000 - 24) % 0x1_0000_0000 / 8;
      FramePixel(font, l, dx, dy, under) ==
        if 0 <= cx < 14 && 0 <= cy < 14 then (if cx == cy || cx + cy == 13 then 0xFFFFFF else 0xC83232)
        else if 6 <= dx < 6 + 8 * (if |l.title| < room then |l.title| else room) && 4 <= dy < 20 then
          var c := l.title[(dx - 6) / 8];
          if GlyphBit(font[if 32 <= c < 128 then c - 32 else 0][dy - 4], (dx - 6) % 8) then 0xFFFFFF else bar
        else if 2 <= dx < w - 2 && 2 <= dy < 22 then bar
        else if 0 <= dx < w && 0 <= dy < h && (dx < 2 || dy < 2 || dx >= w - 2 || dy >= h - 2) then line
        else under
  {
    hide GlyphBit;
  }

  /** Inside the frame, two columns from the left and 22 rows from the top, a window shows its own pixels, row by row;
      they lie over the lower border. */
  lemma WindowShows(font: Font, l: Look, px: int, py: int, under: u32)
    requires l.Shaped()
    ensures var col, row := px - l.x - 2, py - l.y - 22;
      if 0 <= col < l.contentW && 0 <= row < l.contentH then
        0 <= row * l.contentW + col < |l.pixels| && WindowPixel(font, l, px, py, under) == l.pixels[row * l.contentW + col]
      else WindowPixel(font, l, px, py, under) == FramePixel(font, l, px - l.x, py - l.y, under)
  {
    hide FramePixel;
    var col, row := px - l.x - 2, py - l.y - 22;
    if 0 <= col < l.contentW && 0 <= row < l.contentH { IndexFits(l.contentW, l.contentH, l.contentW, col, row); }
  }

  /** The windows whose paint stays within their rectangle, in terms of what the caller of
      wm_create_window passes. */
  predicate RoomyEnough(l: Look) {
    l.contentW >= 24 || (l.contentW >= 15 && GLYPH_WIDTH * |l.title| + 2 <= l.contentW)
  }

  /** A roomy window paints every pixel of its rectangle and no other. */
  lemma WindowFillsItsRect(font: Font, l: Look, px: int, py: int, u: u32, v: u32)
    requires l.Shaped() && RoomyEnough(l) && l.contentW < 0x1_0000_0000
    ensures WindowPixel(font, l, px, py, u) == if l.Contains(px, py) then WindowPixel(font, l, px, py, v) else u
  {
    var dx, dy := px - l.x, py - l.y;
    TextStaysInside(l);
    if l.Contains(px, py) && !OnBorder(l, dx, dy) && dy >= BORDER + TITLE_HEIGHT {
      assert InRect(dx, dy, BORDER, BORDER + TITLE_HEIGHT, l.contentW, l.contentH);
    }
  }

  lemma TextStaysInside(l: Look)
    requires RoomyEnough(l) && l.contentW < 0x1_0000_0000
    ensures TEXT_X + GLYPH_WIDTH * TitleChars(l) <= l.Width() && ButtonX(l) >= 0
  {
    if l.contentW >= 24 {
      assert (l.contentW + 0x1_0000_0000 - 24) % 0x1_0000_0000 == l.contentW - 24;
    }
  }

  /** Any other window paints a pixel outside its rectangle: its close button sticks out on the left,
      or its title runs out on the right. */
  lemma NarrowWindowSpills(font: Font, l: Look) returns (px: int, py: int, under: u32)
    requires l.Shaped() && !RoomyEnough(l) && l.contentW < 0x1_0000_0000
    ensures !l.Contains(px, py) && WindowPixel(font, l, px, py, under) != under
  {
    if l.contentW < 15 {
      px, py, under := l.x + ButtonX(l), l.y + BUTTON_Y, 0;
      assert OnCross(l, ButtonX(l), BUTTON_Y);
    } else {
      assert (l.contentW + 0x1_0000_0000 - 24) % 0x1_0000_0000 == l.contentW + 0x1_0000_0000 - 24;
      assert TitleChars(l) == |l.title|;
      px, py, under := l.x + l.Width(), l.y + TEXT_Y, 0;
      var dx: int := l.Width();
      assert InRect(dx, TEXT_Y, TEXT_X, TEXT_Y, GLYPH_WIDTH * TitleChars(l), GLYPH_HEIGHT);
    }
  }

  // ---------------------------------------------------------------- all windows, lowest first

  /** What stands at (px, py) after the visible windows have been painted in order. */
  function PixelAfter(font: Font, ls: seq<Look>, px: int, py: int, under: u32): u32
    requires forall l | l in ls :: l.Shaped()
  {
    if ls == [] then under
    else
      var n := |ls| - 1;
      var below := PixelAfter(font, ls[..n], px, py, under);
      if ls[n].visible then WindowPixel(font, ls[n], px, py, below) else below
  }

  /** wm_get_window_at: the last visible window that contains the point, or -1. */
  function TopAt(ls: seq<Look>, px: int, py: int): (r: int)
    ensures -1 <= r < |ls| && (r >= 0 ==> ls[r].visible && ls[r].Contains(px, py))
    ensures forall k | r < k < |ls| :: !(ls[k].visible && ls[k].Contains(px, py))
  {
    if ls == [] then -1
    else if ls[|ls| - 1].visible && ls[|ls| - 1].Contains(px, py) then |ls| - 1
    else TopAt(ls[..|ls| - 1], px, py)
  }

  predicate AllRoomy(ls: seq<Look>) {
    forall l | l in ls && l.visible :: RoomyEnough(l) && l.contentW < 0x1_0000_0000
  }

  /** The picture agrees with hit testing: each pixel is the one that the window found at that point
      paints there, and where no window is found the old pixel stays. */
  lemma {:induction false} PictureMatchesHitTest(font: Font, ls: seq<Look>, px: int, py: int, under: u32, any: u32)
    requires (forall l | l in ls :: l.Shaped()) && AllRoomy(ls)
    ensures var top := TopAt(ls, px, py);
      PixelAfter(font, ls, px, py, under) == if top < 0 then under else WindowPixel(font, ls[top], px, py, any)
  {
    hide WindowPixel, RoomyEnough;
    if ls != [] {
      var n := |ls| - 1;
      PictureMatchesHitTest(font, ls[..n], px, py, under, any);
      if ls[n].visible {
        WindowFillsItsRect(font, ls[n], px, py, PixelAfter(font, ls[..n], px, py, under), any);
      }
    }
  }

  // ---------------------------------------------------------------- the list order

  ghost predicate Ascending(zs: seq<nat>) { forall a, b | 0 <= a < b < |zs| :: zs[a] < zs[b] }

  /** Where insert_sorted puts height `z`: before the first greater one. */
  function Place(zs: seq<nat>, z: nat, k: nat := 0): (r: nat)
    requires k <= |zs|
    ensures k <= r <= |zs| && (r < |zs| ==> zs[r] > z) && forall i | k <= i < r :: zs[i] <= z
    decreases |zs| - k
  {
    if k == |zs| || zs[k] > z then k else Place(zs, z, k + 1)
  }

  /** get_next_z_order's running maximum. */
  function MaxZ(zs: seq<nat>, n: nat, m: nat := 0): (r: nat)
    requires n <= |zs|
    ensures r >= m && (r == m || exists k :: n <= k < |zs| && zs[k] == r) && forall k | n <= k < |zs| :: zs[k] <= r
    decreases |zs| - n
  {
    if n == |zs| then m else MaxZ(zs, n + 1, if zs[n] > m then zs[n] else m)
  }

  /** In an ascending list the window found at a point is the highest visible one there. */
  lemma TopIsHighest(ls: seq<Look>, zs: seq<nat>, px: int, py: int, k: nat)
    requires |zs| == |ls| && Ascending(zs) && k < |ls| && ls[k].visible && ls[k].Contains(px, py)
    ensures var top := TopAt(ls, px, py); k <= top && zs[k] <= zs[top]
  {
  }

  /** Window `k` is visible at the point and no visible window there is higher; -1 if none is there. */
  ghost predicate IsHighestAt(ls: seq<Look>, zs: seq<nat>, k: int, px: int, py: int)
    requires |zs| == |ls|
  {
    && -1 <= k < |ls| && (k >= 0 ==> ls[k].visible && ls[k].Contains(px, py))
    && forall i | 0 <= i < |ls| && ls[i].visible && ls[i].Contains(px, py) :: k >= 0 && zs[i] <= zs[k]
  }

  /** From end to end: each pixel of the picture is painted by the highest visible window at its place,
      which is the one that hit testing finds there; where there is none the old pixel stays. */
  lemma PictureShowsHighest(font: Font, ls: seq<Look>, zs: seq<nat>, px: int, py: int, under: u32)
    requires (forall l | l in ls :: l.Shaped()) && AllRoomy(ls) && |zs| == |ls| && Ascending(zs)
    ensures var top := TopAt(ls, px, py);
      && IsHighestAt(ls, zs, top, px, py)
      && PixelAfter(font, ls, px, py, under) == if top < 0 then under else WindowPixel(font, ls[top], px, py, 0)
  {
    hide WindowPixel, RoomyEnough;
    PictureMatchesHitTest(font, ls, px, py, under, 0);
    forall i | 0 <= i < |ls| && ls[i].visible && ls[i].Contains(px, py)
      ensures TopAt(ls, px, py) >= 0 && zs[i] <= zs[TopAt(ls, px, py)]
    {
      TopIsHighest(ls, zs, px, py, i);
    }
  }
}
