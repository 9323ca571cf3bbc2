/** The surface factory of the Tiger bitmap cache: the kate bitmap and palette
    descriptors it reads, the ARGB32 Cairo surfaces it produces, the bounded stream
    reader that feeds a PNG payload to Cairo's decoder, and the two creation paths
    (decoded PNG with an optional red/blue swap pass, paletted grid blitted through a
    working copy of the palette). */
module Surfaces {
  import opened Wrappers
  import opened Pixels

  /** A kate_bitmap. It is read-only and compared by identity. When `bpp` is 0,
      `pixels` holds a PNG payload of `size` bytes; otherwise it is a row-major grid of
      `width * height` palette indices. */
  class Bitmap {
    const width: nat
    const height: nat
    const bpp: nat
    const size: nat
    const pixels: seq<bv8>

    constructor (width: nat, height: nat, bpp: nat, size: nat, pixels: seq<bv8>)
      ensures this.width == width && this.height == height && this.bpp == bpp
      ensures this.size == size && this.pixels == pixels
    {
      this.width, this.height, this.bpp := width, height, bpp;
      this.size, this.pixels := size, pixels;
    }
  }

  /** A kate_palette: `colors` holds its `ncolors` entries. Read-only, compared by identity. */
  class Palette {
    const colors: seq<Color>

    constructor (colors: seq<Color>)
      ensures this.colors == colors
    {
      this.colors := colors;
    }
  }

  /** What the factory relies on and does not check: a PNG payload really has `size`
      bytes, and every index of a paletted grid names an entry of its palette. */
  predicate InputOk(kb: Bitmap, kp: Palette?)
  {
    if kb.bpp == 0 then kb.size <= |kb.pixels|
    else kp != null ==> IndicesInRange(kb.pixels, |kp.colors|, kb.width * kb.height)
  }

  /** A decoded or rendered picture: `width * height` ARGB32 words, row after row. */
  datatype RawImage = RawImage(width: nat, height: nat, words: seq<Word>)
  type Image = i: RawImage | |i.words| == i.width * i.height witness RawImage(0, 0, [])

  /** A CAIRO_FORMAT_ARGB32 image surface. The pixel words are stored row after row in
      `data`, one word per pixel (the row stride is taken to be 4 * width). */
  class Surface {
    const width: nat
    const height: nat
    const data: array<Word>

    predicate Valid()
    {
      data.Length == width * height
    }

    /** cairo_image_surface_create: a fresh surface, all pixels transparent black. */
    constructor Blank(width: nat, height: nat)
      ensures Valid() && this.width == width && this.height == height && fresh(data)
      ensures forall k :: 0 <= k < data.Length ==> data[k] == 0
    {
      this.width, this.height := width, height;
      data := new Word[width * height](_ => 0);
    }

    /** A fresh surface holding a decoded image. */
    constructor FromImage(img: Image)
      ensures Valid() && fresh(data) && Shows(img)
    {
      width, height := img.width, img.height;
      data := new Word[|img.words|](k requires 0 <= k < |img.words| => img.words[k]);
    }

    /** The surface holds exactly the picture `img`. */
    ghost predicate Shows(img: Image)
      reads data
    {
      width == img.width && height == img.height && data[..] == img.words
    }
  }

  /** The PNG decoding collaborator, cairo_image_surface_create_from_png_stream: it asks
      the reader for `requests[0]`, `requests[1]`, ... bytes in turn, and when every read
      succeeds `decode` turns the bytes read into an image, or rejects them. */
  datatype PngDecoder = PngDecoder(requests: seq<nat>, decode: seq<bv8> -> Option<Image>)

  /** Outcomes of the calls the cache makes into code outside this model: whether
      tiger_realloc succeeds, whether cairo_image_surface_create succeeds, and how the
      PNG decoder behaves. */
  datatype Env = Env(reallocOk: bool, surfaceOk: bool, png: PngDecoder)

  /** cairo_status_t as the reader returns it. */
  datatype ReadStatus = StatusSuccess | StatusReadError

  /** tiger_png_reader_state: the payload being streamed and how far it has been read. */
  class PngReaderState {
    const kb: Bitmap
    var offset: nat

    constructor (kb: Bitmap)
      ensures this.kb == kb && offset == 0
    {
      this.kb := kb;
      offset := 0;
    }

    /** read_from_kate_bitmap: copy the next `length` payload bytes into `data`, or fail
        without moving when fewer than `length` bytes are left. */
    method Read(data: array<bv8>, length: nat) returns (status: ReadStatus)
      requires offset <= kb.size <= |kb.pixels|
      requires length <= data.Length
      modifies this, data
      ensures offset <= kb.size
      ensures status == StatusReadError <==> length > kb.size - old(offset)
      ensures status == StatusReadError ==> offset == old(offset) && data[..] == old(data[..])
      ensures status == StatusSuccess ==>
                offset == old(offset) + length &&
                data[..length] == kb.pixels[old(offset)..offset] &&
                data[length..] == old(data[length..])
    {
      if length > kb.size - offset {
        return StatusReadError;
      }
      forall k | 0 <= k < length {
        data[k] := kb.pixels[offset + k];
      }
      offset := offset + length;
      status := StatusSuccess;
    }
  }

  /** The number of bytes a sequence of read requests asks for. */
  function Total(requests: seq<nat>): nat
  {
    if requests == [] then 0 else Total(requests[..|requests| - 1]) + requests[|requests| - 1]
  }

  /** Asking for a prefix of the requests never asks for more bytes than all of them. */
  lemma {:induction false} TotalOfPrefix(requests: seq<nat>, k: nat)
    requires k <= |requests|
    ensures Total(requests[..k]) <= Total(requests)
  {
    if k < |requests| {
      var front := requests[..|requests| - 1];
      assert front[..k] == requests[..k];
      TotalOfPrefix(front, k);
    } else {
      assert requests[..k] == requests;
    }
  }

  /** What decoding a PNG payload yields: nothing when the decoder asks for more bytes
      than the payload holds, otherwise its verdict on the bytes it read. */
  function PngImage(kb: Bitmap, dec: PngDecoder): Option<Image>
    requires kb.size <= |kb.pixels|
  {
    var n := Total(dec.requests);
    if n <= kb.size then dec.decode(kb.pixels[..n]) else None
  }

  /** Cairo's stream decoder driven over read_from_kate_bitmap. It sees exactly a prefix
      of the payload, in order, and fails as soon as one read does not fit. */
  method DecodePngStream(kb: Bitmap, dec: PngDecoder) returns (cs: Surface?)
    requires kb.size <= |kb.pixels|
    ensures cs == null <==> PngImage(kb, dec).None?
    ensures cs != null ==> fresh(cs) && fresh(cs.data) && cs.Valid() && cs.Shows(PngImage(kb, dec).value)
  {
    var state := new PngReaderState(kb);
    var consumed: seq<bv8> := [];
    var i := 0;
    while i < |dec.requests|
      invariant 0 <= i <= |dec.requests|
      invariant state.kb == kb && state.offset == Total(dec.requests[..i]) && state.offset <= kb.size
      invariant consumed == kb.pixels[..state.offset]
    {
      var length := dec.requests[i];
      var buffer := new bv8[length];
      assert dec.requests[..i + 1][..i] == dec.requests[..i];
      var status := state.Read(buffer, length);
      if status == StatusReadError {
        TotalOfPrefix(dec.requests, i + 1);
        return null;
      }
      consumed := consumed + buffer[..];
      i := i + 1;
    }
    assert dec.requests[..i] == dec.requests;
    var img := dec.decode(consumed);
    if img.None? {
      return null;
    }
    cs := new Surface.FromImage(img.value);
  }

  /** The image the swap pass leaves behind. */
  function SwapImage(img: Image): Image
  {
    RawImage(img.width, img.height, SwapAll(img.words))
  }

  /** The in-place red/blue swap pass over a decoded surface, row by row. */
  method SwapPass(cs: Surface)
    requires cs.Valid()
    modifies cs.data
    ensures cs.data[..] == SwapAll(old(cs.data[..]))
  {
    var w, h := cs.width, cs.height;
    ghost var orig := cs.data[..];
    var row := 0;
    var y := 0;
    while y < h
      invariant 0 <= y <= h && row == y * w <= cs.data.Length
      invariant forall k :: 0 <= k < row ==> cs.data[k] == SwapWord(orig[k])
      invariant forall k :: row <= k < cs.data.Length ==> cs.data[k] == orig[k]
    {
      NextRow(w, h, y);
      var x := 0;
      while x < w
        invariant 0 <= x <= w && row + w <= cs.data.Length
        invariant forall k :: 0 <= k < row + x ==> cs.data[k] == SwapWord(orig[k])
        invariant forall k :: row + x <= k < cs.data.Length ==> cs.data[k] == orig[k]
      {
        var word := cs.data[row + x];
        var r := (word & 0x00ff0000) >> 16;
        var b := (word & 0x000000ff) << 16;
        SwapWordByMasks(word, r, b);
        cs.data[row + x] := (word & 0xff00ff00) | r | b;
        x := x + 1;
      }
      row := row + w;
      y := y + 1;
    }
    assert row == cs.data.Length;
  }

  /** tiger_bitmap_cache_create_png: decode the payload, then swap red and blue in place
      when decoding succeeded and swap_rgb is set. */
  method CreatePng(kb: Bitmap, swapRgb: bool, dec: PngDecoder) returns (cs: Surface?)
    requires kb.size <= |kb.pixels|
    ensures cs == null <==> PngImage(kb, dec).None?
    ensures cs != null ==>
              fresh(cs) && fresh(cs.data) && cs.Valid() &&
              cs.Shows(var img := PngImage(kb, dec).value; if swapRgb then SwapImage(img) else img)
  {
    cs := DecodePngStream(kb, dec);
    if cs != null && swapRgb {
      SwapPass(cs);
    }
  }

  /** The working copy of the palette, built entry by entry. */
  method CopyPalette(kp: Palette, swapRgb: bool) returns (palette: array<Color>)
    ensures fresh(palette)
    ensures palette[..] == WorkingPalette(kp.colors, swapRgb)
  {
    var n := |kp.colors|;
    palette := new Color[n];
    var c := 0;
    while c < n
      invariant 0 <= c <= n
      invariant forall k :: 0 <= k < c ==> palette[k] == WorkingEntry(kp.colors[k], swapRgb)
    {
      palette[c] := kp.colors[c];
      if swapRgb {
        var tmp := palette[c].r;
        palette[c] := palette[c].(r := palette[c].b);
        palette[c] := palette[c].(b := tmp);
      }
      if palette[c].a == 0 {
        palette[c] := palette[c].(r := 0, g := 0, b := 0);
      }
      c := c + 1;
    }
  }

  /** The brute-force blit: one packed word per source index, row after row, with a
      write cursor per row and a running source index `p`. */
  method BlitPaletted(cs: Surface, pixels: seq<bv8>, palette: array<Color>)
    requires cs.Valid() && IndicesInRange(pixels, palette.Length, cs.width * cs.height)
    requires palette as object != cs.data
    modifies cs.data
    ensures cs.data[..] == Blit(pixels, palette[..], cs.width * cs.height)
  {
    var w, h := cs.width, cs.height;
    ghost var colors := palette[..];
    var p := 0;
    var row := 0;
    var y := 0;
    while y < h
      invariant 0 <= y <= h && row == y * w <= cs.data.Length && p == row
      invariant palette[..] == colors
      invariant forall k :: 0 <= k < p ==> cs.data[k] == Pack(colors[pixels[k]])
    {
      NextRow(w, h, y);
      var x := 0;
      while x < w
        invariant 0 <= x <= w && row + w <= cs.data.Length && p == row + x
        invariant palette[..] == colors
        invariant forall k :: 0 <= k < p ==> cs.data[k] == Pack(colors[pixels[k]])
      {
        var kc := palette[pixels[p]];
        assert kc == colors[pixels[p]];
        p := p + 1;
        cs.data[row + x] := Pack(kc);
        x := x + 1;
      }
      row := row + w;
      y := y + 1;
    }
    assert p == cs.data.Length;
  }

  /** The picture the paletted path renders. */
  function PalettedImage(kb: Bitmap, kp: Palette, swapRgb: bool): Image
    requires IndicesInRange(kb.pixels, |kp.colors|, kb.width * kb.height)
  {
    RawImage(kb.width, kb.height, Blit(kb.pixels, WorkingPalette(kp.colors, swapRgb), kb.width * kb.height))
  }

  /** tiger_bitmap_cache_create_paletted_bitmap: allocate a width by height surface
      (which may fail), build the working palette and blit into the surface. */
  method CreatePaletted(kb: Bitmap, kp: Palette, swapRgb: bool, surfaceOk: bool) returns (cs: Surface?)
    requires IndicesInRange(kb.pixels, |kp.colors|, kb.width * kb.height)
    ensures cs == null <==> !surfaceOk
    ensures cs != null ==> fresh(cs) && fresh(cs.data) && cs.Valid() && cs.Shows(PalettedImage(kb, kp, swapRgb))
  {
    if !surfaceOk {
      return null;
    }
    cs := new Surface.Blank(kb.width, kb.height);
    var palette := CopyPalette(kp, swapRgb);
    BlitPaletted(cs, kb.pixels, palette);
  }

  /** What creating a surface for (kb, kp) comes to. */
  datatype Outcome = Rendered(image: Image) | InvalidInput | CreationFailed

  /** The outcome of the factory dispatch on bpp: a PNG payload is decoded and maybe
      swapped; a paletted grid needs a palette and a successful surface allocation. */
  function Render(kb: Bitmap, kp: Palette?, swapRgb: bool, env: Env): (r: Outcome)
    requires InputOk(kb, kp)
    ensures r.InvalidInput? <==> kb.bpp != 0 && kp == null
    ensures kb.bpp == 0 && Total(env.png.requests) > kb.size ==> r.CreationFailed?
    ensures kb.bpp != 0 && kp != null ==> (r.Rendered? <==> env.surfaceOk)
    ensures r.Rendered? && kb.bpp != 0 ==> r.image.width == kb.width && r.image.height == kb.height
  {
    if kb.bpp == 0 then
      match PngImage(kb, env.png)
      case None => CreationFailed
      case Some(img) => Rendered(if swapRgb then SwapImage(img) else img)
    else if kp == null then InvalidInput
    else if !env.surfaceOk then CreationFailed
    else Rendered(PalettedImage(kb, kp, swapRgb))
  }

  /** The channel-swap property on both paths: with swap_rgb the outcome is the same
      kind, of the same size, and its words are the unswapped words with red and blue
      exchanged (alpha and green identical). */
  lemma RenderSwap(kb: Bitmap, kp: Palette?, env: Env)
    requires InputOk(kb, kp)
    ensures Render(kb, kp, true, env).Rendered? <==> Render(kb, kp, false, env).Rendered?
    ensures Render(kb, kp, true, env).Rendered? ==>
              var a, b := Render(kb, kp, true, env).image, Render(kb, kp, false, env).image;
              a.width == b.width && a.height == b.height && a.words == SwapAll(b.words)
  {
    if kb.bpp != 0 && kp != null && env.surfaceOk {
      BlitSwap(kb.pixels, kp.colors, kb.width * kb.height);
    }
  }
}
