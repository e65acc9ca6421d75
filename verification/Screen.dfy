/** The framebuffer: pixels in rows of `pitch` words, of which the first `width` are on screen. */
module Screen {
  import opened Wrappers

  const WORD: nat := 0x1_0000_0000

  lemma IndexFits(width: nat, height: nat, pitch: nat, x: int, y: int)
    requires width <= pitch && 0 <= x < width && 0 <= y < height
    ensures 0 <= y * pitch + x < pitch * height
  {
    assert (y + 1) * pitch <= height * pitch;
  }

  /** Pixels of a higher row have higher words. */
  lemma RowsAreApart(width: nat, pitch: nat, x: int, y: int, x': int, y': int)
    requires width <= pitch && 0 <= x < width && 0 <= x' && y < y'
    ensures y * pitch + x < y' * pitch + x'
  {
    assert (y + 1) * pitch <= y' * pitch;
  }

  predicate InRect(x: int, y: int, left: int, top: int, w: nat, h: nat) {
    left <= x < left + w && top <= y < top + h
  }

  /** The clipping of fb_fill_rect in one direction. */
  function Clip(x: u32, w: u32, width: u32): (r: u32)
    requires x < width
    ensures x + w < WORD ==> r == if x + w > width then width - x else w
    ensures x + w >= WORD ==> r == w
    ensures r == 0 <==> w == 0
  {
    if (x + w) % WORD > width then width - x else w
  }

  class Framebuffer {
    const width: nat
    const height: nat
    const pitch: nat
    const addr: array<u32>

    constructor (width: nat, height: nat, pitch: nat)
      requires width <= pitch
      ensures this.width == width && this.height == height && this.pitch == pitch && Valid() && fresh(addr)
    {
      this.width, this.height, this.pitch := width, height, pitch;
      addr := new u32[pitch * height];
    }

    ghost predicate Valid() { width <= pitch && addr.Length == pitch * height }

    predicate OnScreen(x: int, y: int) { 0 <= x < width && 0 <= y < height }

    /** A picture: all words of the framebuffer at some time. */
    ghost predicate IsPicture(p: seq<u32>) { Valid() && |p| == addr.Length }

    ghost function Of(p: seq<u32>, x: int, y: int): u32
      requires IsPicture(p) && OnScreen(x, y)
    {
      IndexFits(width, height, pitch, x, y);
      p[y * pitch + x]
    }

    /** The pixel at (x, y). */
    function At(x: int, y: int): u32
      requires Valid() && OnScreen(x, y)
      reads addr
    {
      IndexFits(width, height, pitch, x, y);
      addr[y * pitch + x]
    }

    lemma AtIsOf(p: seq<u32>)
      requires Valid() && p == addr[..]
      ensures IsPicture(p) && forall x, y | OnScreen(x, y) :: At(x, y) == Of(p, x, y)
    {
      forall x, y | OnScreen(x, y) ensures At(x, y) == Of(p, x, y) { WordIsOf(p, x, y); }
    }

    lemma WordIsOf(p: seq<u32>, x: int, y: int)
      requires Valid() && p == addr[..] && OnScreen(x, y)
      ensures At(x, y) == Of(p, x, y)
    {
      IndexFits(width, height, pitch, x, y);
      var k := y * pitch + x;
      assert p[k] == addr[k];
    }

    /** The store itself; beyond the width it falls on another row or behind the last. */
    method PutWord(x: nat, y: nat, v: u32)
      requires Valid() && y * pitch + x < addr.Length
      modifies addr
      ensures x < width ==> forall px, py | OnScreen(px, py) :: At(px, py) == if (px, py) == (x, y) then v else old(At(px, py))
    {
      addr[y * pitch + x] := v;
      if x < width {
        forall px, py | OnScreen(px, py) ensures At(px, py) == if (px, py) == (x, y) then v else old(At(px, py)) {
          IndexFits(width, height, pitch, px, py);
          if py < y { RowsAreApart(width, pitch, px, py, x, y); }
          if y < py { RowsAreApart(width, pitch, x, y, px, py); }
        }
      }
    }

    /** The clipped store of most drawing loops. */
    method Put(x: int, y: int, v: u32)
      requires Valid()
      modifies addr
      ensures forall px, py | OnScreen(px, py) :: At(px, py) == if (px, py) == (x, y) then v else old(At(px, py))
    {
      if OnScreen(x, y) {
        IndexFits(width, height, pitch, x, y);
        PutWord(x, y, v);
      }
    }

    /** A loop over rows and columns that stores one colour, each store being clipped. */
    method PutRect(left: int, top: int, w: nat, h: nat, v: u32)
      requires Valid()
      modifies addr
      ensures forall px, py | OnScreen(px, py) :: At(px, py) == if InRect(px, py, left, top, w, h) then v else old(At(px, py))
    {
      var row := 0;
      while row < h
        invariant row <= h
        invariant forall px, py | OnScreen(px, py) :: At(px, py) == if InRect(px, py, left, top, w, row) then v else old(At(px, py))
      {
        var col := 0;
        while col < w
          invariant col <= w
          invariant forall px, py | OnScreen(px, py) ::
              At(px, py) ==
                if InRect(px, py, left, top, w, row) || InRect(px, py, left, top + row, col, 1) then v else old(At(px, py))
        {
          Put(left + col, top + row, v);
          col := col + 1;
        }
        row := row + 1;
      }
    }

    /** The inner loop of fb_fill_rect: one row without a test. False where it leaves the framebuffer. */
    method FillRow(x: nat, y: nat, w: nat, v: u32) returns (ok: bool)
      requires Valid()
      modifies addr
      ensures ok <==> w == 0 || y * pitch + x + w <= addr.Length
      ensures ok && x + w <= width ==>
          forall px, py | OnScreen(px, py) :: At(px, py) == if InRect(px, py, x, y, w, 1) then v else old(At(px, py))
    {
      var ptr := y * pitch + x;
      var col := 0;
      while col < w
        invariant col <= w && (col > 0 ==> ptr + col <= addr.Length)
        invariant x + w <= width ==>
            forall px, py | OnScreen(px, py) :: At(px, py) == if InRect(px, py, x, y, col, 1) then v else old(At(px, py))
      {
        if ptr + col >= addr.Length { return false; }
        PutWord(x + col, y, v);
        col := col + 1;
      }
      return true;
    }

    /** Whether fb_fill_rect runs out of the framebuffer: its clipping adds unsigned words, and a sum that
        wraps around is not greater than the width or height. */
    predicate Overruns(x: u32, y: u32, w: u32, h: u32) {
      OnScreen(x, y) && ((x + w >= WORD && h > 0) || (y + h >= WORD && w > 0))
    }

    /** fb_fill_rect: clipped once, then stored without a test. False where a store leaves the framebuffer. */
    method FillRect(x: u32, y: u32, w: u32, h: u32, v: u32) returns (ok: bool)
      requires Valid() && addr.Length < WORD && width < WORD && height < WORD
      modifies addr
      ensures ok <==> !Overruns(x, y, w, h)
      ensures ok ==> forall px, py | OnScreen(px, py) :: At(px, py) == if InRect(px, py, x, y, w, h) then v else old(At(px, py))
    {
      hide At, Clip;
      if x >= width || y >= height { return true; }
      var cw, ch := Clip(x, w, width), Clip(y, h, height);
      var row := 0;
      while row < ch
        invariant row <= ch && (cw > 0 ==> y + row <= height) && (row > 0 ==> x + cw <= width)
        invariant forall px, py | OnScreen(px, py) :: At(px, py) == if InRect(px, py, x, y, cw, row) then v else old(At(px, py))
      {
        if cw > 0 { RowIsInside(x, y + row, cw); }
        ok := FillRow(x, y + row, cw, v);
        if !ok { return; }
        row := row + 1;
      }
      return true;
    }

    /** A row on screen lies in the framebuffer, one below the screen does not. */
    lemma RowIsInside(x: nat, y: nat, w: nat)
      requires Valid() && w > 0
      ensures y < height && x + w <= width ==> y * pitch + x + w <= addr.Length
      ensures y >= height ==> y * pitch + x + w > addr.Length
    {
      if y < height { assert (y + 1) * pitch <= height * pitch; } else { assert y * pitch >= height * pitch; }
    }

    /** fb_clear. */
    method Clear(v: u32)
      requires Valid() && addr.Length < WORD && width < WORD && height < WORD
      modifies addr
      ensures forall px, py | OnScreen(px, py) :: At(px, py) == v
    {
      var ok := FillRect(0, 0, width, height, v);
      assert ok;
    }
  }
}
