/** Pure pixel arithmetic of the Tiger bitmap cache: kate palette colors, the ARGB32
    word Cairo stores per pixel, the red/blue channel swap and the working copy of a
    palette that the paletted factory builds before blitting. */
module Pixels {

  /** A kate_color: four unsigned 8-bit channels. */
  datatype Color = Color(r: bv8, g: bv8, b: bv8, a: bv8)

  /** One CAIRO_FORMAT_ARGB32 pixel: a native-endian 32-bit word, alpha in the top byte. */
  type Word = bv32

  function AlphaOf(w: Word): bv8 { (w >> 24) as bv8 }
  function RedOf(w: Word): bv8 { ((w >> 16) & 0xff) as bv8 }
  function GreenOf(w: Word): bv8 { ((w >> 8) & 0xff) as bv8 }
  function BlueOf(w: Word): bv8 { (w & 0xff) as bv8 }

  /** The word the paletted blit writes for color `c`: `(a<<24)|(r<<16)|(g<<8)|b`.
      Each channel lands in its own byte, so unpacking gives the channels back. */
  function Pack(c: Color): (w: Word)
    ensures AlphaOf(w) == c.a && RedOf(w) == c.r && GreenOf(w) == c.g && BlueOf(w) == c.b
  {
    (c.a as bv32 << 24) | (c.r as bv32 << 16) | (c.g as bv32 << 8) | c.b as bv32
  }

  /** Every word is the packing of its own four channels. */
  lemma PackOfChannels(w: Word)
    ensures Pack(Color(RedOf(w), GreenOf(w), BlueOf(w), AlphaOf(w))) == w
  {
  }

  /** One step of the in-place PNG swap pass: the word keeps its alpha and green
      bits (mask 0xff00ff00) and bits 16..23 trade places with bits 0..7. */
  function SwapWord(w: Word): (r: Word)
    ensures r & 0xff00ff00 == w & 0xff00ff00
    ensures AlphaOf(r) == AlphaOf(w) && GreenOf(r) == GreenOf(w)
    ensures RedOf(r) == BlueOf(w) && BlueOf(r) == RedOf(w)
  {
    (w & 0xff00ff00) | ((w & 0x00ff0000) >> 16) | ((w & 0x000000ff) << 16)
  }

  /** The swap pass computes one word as `(w & 0xff00ff00) | r | b` from the red byte
      `r` moved down and the blue byte `b` moved up: that is SwapWord. */
  lemma SwapWordByMasks(w: Word, r: Word, b: Word)
    requires r == (w & 0x00ff0000) >> 16 && b == (w & 0x000000ff) << 16
    ensures (w & 0xff00ff00) | r | b == SwapWord(w)
  {
  }

  /** Swapping twice restores the word. */
  lemma SwapWordInvolutive(w: Word)
    ensures SwapWord(SwapWord(w)) == w
  {
  }

  /** The swap pass over a whole pixel buffer. */
  function SwapAll(ws: seq<Word>): seq<Word>
  {
    seq(|ws|, i requires 0 <= i < |ws| => SwapWord(ws[i]))
  }

  /** Running the swap pass twice over a buffer is the identity. */
  lemma SwapAllInvolutive(ws: seq<Word>)
    ensures SwapAll(SwapAll(ws)) == ws
  {
    forall i | 0 <= i < |ws|
      ensures SwapAll(SwapAll(ws))[i] == ws[i]
    {
      SwapWordInvolutive(ws[i]);
    }
  }

  /** The palette-entry swap done on the working copy when swap_rgb is set. */
  function SwapRB(c: Color): Color
  {
    c.(r := c.b, b := c.r)
  }

  /** Swapping a palette entry and then packing it is the same as packing it and then
      running the word swap pass. */
  lemma PackSwapRB(c: Color)
    ensures Pack(SwapRB(c)) == SwapWord(Pack(c))
  {
    var p, q := Pack(SwapRB(c)), SwapWord(Pack(c));
    assert AlphaOf(p) == AlphaOf(q) && RedOf(p) == RedOf(q);
    assert GreenOf(p) == GreenOf(q) && BlueOf(p) == BlueOf(q);
    PackOfChannels(p);
    PackOfChannels(q);
  }

  /** Entry `c` of the working palette: the source entry, red and blue exchanged when
      swap_rgb is set, then forced to black when it is fully transparent. */
  function WorkingEntry(c: Color, swapRgb: bool): (e: Color)
    ensures e.a == c.a
    ensures c.a == 0 ==> e.r == 0 && e.g == 0 && e.b == 0
    ensures c.a != 0 && swapRgb ==> e.r == c.b && e.g == c.g && e.b == c.r
    ensures c.a != 0 && !swapRgb ==> e == c
  {
    var e := if swapRgb then SwapRB(c) else c;
    if e.a == 0 then e.(r := 0, g := 0, b := 0) else e
  }

  /** The working copy of a palette: one entry per source color. */
  function WorkingPalette(colors: seq<Color>, swapRgb: bool): (p: seq<Color>)
    ensures |p| == |colors|
    ensures forall c :: 0 <= c < |colors| ==> p[c].a == colors[c].a
    ensures forall c :: 0 <= c < |colors| && colors[c].a == 0 ==> p[c] == Color(0, 0, 0, 0)
    ensures forall c :: 0 <= c < |colors| && colors[c].a != 0 ==>
              p[c] == if swapRgb then SwapRB(colors[c]) else colors[c]
  {
    seq(|colors|, c requires 0 <= c < |colors| => WorkingEntry(colors[c], swapRgb))
  }

  /** The swapped working palette is the unswapped one with each entry swapped. */
  lemma WorkingPaletteSwap(colors: seq<Color>, c: nat)
    requires c < |colors|
    ensures WorkingPalette(colors, true)[c] == SwapRB(WorkingPalette(colors, false)[c])
  {
  }

  /** The first `n` source pixels are palette indices below `ncolors`. */
  predicate IndicesInRange(pixels: seq<bv8>, ncolors: nat, n: nat)
  {
    n <= |pixels| && forall i :: 0 <= i < n ==> pixels[i] as int < ncolors
  }

  /** The paletted blit: pixel `i` of the surface is the packed working-palette color of
      source index `i`, for the first `n` (= width * height) source indices. */
  function Blit(pixels: seq<bv8>, palette: seq<Color>, n: nat): seq<Word>
    requires IndicesInRange(pixels, |palette|, n)
  {
    seq(n, i requires 0 <= i < n => Pack(palette[pixels[i]]))
  }

  /** Row `y` of a `w`-wide grid starts at y * w and the next one at (y + 1) * w,
      which is still inside a grid of `h` rows when y < h. */
  lemma NextRow(w: nat, h: nat, y: nat)
    requires y < h
    ensures (y + 1) * w == y * w + w <= w * h
  {
    var rest := h - y - 1;
    assert h == (y + 1) + rest;
    calc {
      w * h;
      == w * ((y + 1) + rest);
      == w * (y + 1) + w * rest;
      >= w * (y + 1);
    }
  }

  /** Row-major position of column `x` in row `y` lies inside a `w` by `h` grid. */
  lemma RowMajorInGrid(w: nat, h: nat, x: nat, y: nat)
    requires x < w && y < h
    ensures y * w + x < w * h
  {
    NextRow(w, h, y);
  }

  /** Pixel (x, y) of a blitted `w` by `h` grid is the packed working-palette color of
      source index y * w + x: exactly w * h indices, consumed in row-major order. */
  lemma BlitAt(pixels: seq<bv8>, palette: seq<Color>, w: nat, h: nat, x: nat, y: nat)
    requires IndicesInRange(pixels, |palette|, w * h)
    requires x < w && y < h
    ensures |Blit(pixels, palette, w * h)| == w * h
    ensures y * w + x < w * h
    ensures AlphaOf(Blit(pixels, palette, w * h)[y * w + x]) == palette[pixels[y * w + x]].a
    ensures Blit(pixels, palette, w * h)[y * w + x] == Pack(palette[pixels[y * w + x]])
  {
    RowMajorInGrid(w, h, x, y);
  }

  /** Blitting with the swapped working palette gives the swap pass applied to the
      blit with the unswapped one: both paths of the factory agree on what swap_rgb means. */
  lemma BlitSwap(pixels: seq<bv8>, colors: seq<Color>, n: nat)
    requires IndicesInRange(pixels, |colors|, n)
    ensures Blit(pixels, WorkingPalette(colors, true), n)
         == SwapAll(Blit(pixels, WorkingPalette(colors, false), n))
  {
    var swapped, plain := WorkingPalette(colors, true), WorkingPalette(colors, false);
    forall i | 0 <= i < n
      ensures Blit(pixels, swapped, n)[i] == SwapAll(Blit(pixels, plain, n))[i]
    {
      var c := pixels[i] as int;
      WorkingPaletteSwap(colors, c);
      PackSwapRB(plain[c]);
    }
  }

  /** A source pixel whose palette entry is fully transparent becomes the word 0:
      alpha 0 and red, green and blue 0, whatever color the entry held. */
  lemma BlitTransparentIsBlack(pixels: seq<bv8>, colors: seq<Color>, swapRgb: bool, n: nat, i: nat)
    requires IndicesInRange(pixels, |colors|, n)
    requires i < n && colors[pixels[i]].a == 0
    ensures Blit(pixels, WorkingPalette(colors, swapRgb), n)[i] == 0
  {
  }

  /** The worked example: a 2 by 1 grid with indices [0, 1] over an opaque red and an
      opaque green entry, without swap, gives the words 0xffff0000 and 0xff00ff00. */
  lemma BlitTwoByOne()
    ensures Blit([0, 1], WorkingPalette([Color(255, 0, 0, 255), Color(0, 255, 0, 255)], false), 2)
         == [0xffff0000, 0xff00ff00]
  {
  }
}
