# Tiger bitmap cache, modelled in Dafny

This project models the bitmap cache of the Tiger subtitle renderer
(`contrib/native/libtiger/src/tiger_bitmap_cache.c`). The cache maps a pair of kate
descriptors (a `kate_bitmap`, plus an optional `kate_palette`) to a rendered Cairo
ARGB32 image surface. Repeated requests for the same pair get the same surface back.

The model follows the three parts of the C file:

- **Pixels** (`pixels.dfy`) is pure pixel arithmetic:
  - kate colors;
  - the packed 32-bit word `(a<<24)|(r<<16)|(g<<8)|b`;
  - the red/blue swap of a word and of a palette entry;
  - the working copy of a palette, where zero-alpha entries are forced to black;
  - the paletted blit as a function of the indices and the working palette.
- **Surfaces** (`surfaces.dfy`) is the surface factory:
  - the descriptors, as classes with constant fields, so that they are compared by identity;
  - the ARGB32 surface, an `array` of words;
  - the bounded stream reader `read_from_kate_bitmap`, over a reader-state object whose `offset` advances;
  - the PNG path, with its in-place swap pass written as nested row/column loops;
  - the paletted path, with the palette copy loop and the brute-force blit that uses a running source index;
  - `Render`, the outcome of the dispatch on `bpp`, as a function.
- **BitmapCache** (`bitmap_cache.dfy`) is the slot store and the façade:
  - the `tiger_bitmap` slot record;
  - the store invariant;
  - the lookup and free-slot functions;
  - `create_bitmap`;
  - the `Cache` class, with `init`, `clear`, `expand` and `get` written as methods over its `tb` array and `size` field.

Calls into code outside the file are parameters of type `Env`:

- whether `tiger_realloc` succeeds;
- whether `cairo_image_surface_create` succeeds;
- a PNG decoder: the fixed list of read lengths it requests, and a function from the bytes it read to an image, or to failure.

The store invariant (`StoreInvariant`, kept by `Cache.Valid`) has three parts:

- An empty slot (null surface) has null keys, and an occupied one has a bitmap key and a well-formed surface.
- No two occupied slots hold the same (bitmap, palette) pair.
- No surface is owned by two slots.

Where the code's behaviour differs from how the cache is usually described, the
model follows the code:

- On a miss, the slot reused is the **last** empty slot the scan passes (line 241), not the first.
- `clear` frees the slot array but leaves `tb` and `size` as they were. The model records the freeing in a ghost `live` flag. After a `clear` on a cache that had an array, `Valid` no longer holds, and the cache must be set up again with `Init`. So "clear, then get again" without a new `init` is not safe in the code.
- When a miss has to expand and creation then fails, the expanded array is kept. This includes the invalid-input case of a paletted bitmap with no palette, which therefore can grow the store.
- The allocation of the working palette (line 111) is not checked. The model treats it as always succeeding.
- The paletted blit reads `palette[kb->pixels[p]]` without a range check. The model states as a precondition (`InputOk`) that the first `width * height` indices are below the palette length, and that a PNG payload has at least `size` bytes.

## Model

| member | source | states |
|---|---|---|
| Pixels.Pack | contrib/native/libtiger/src/tiger_bitmap_cache.c:135 | The packed word has the color's alpha in bits 24..31, red in 16..23, green in 8..15 and blue in 0..7. |
| Pixels.PackOfChannels | contrib/native/libtiger/src/tiger_bitmap_cache.c:135 | Packing is onto: every word is the packing of its own four channels. |
| Pixels.SwapWord | contrib/native/libtiger/src/tiger_bitmap_cache.c:72-74 | The swapped word keeps its 0xff00ff00 bits (alpha and green), and its red and blue bytes are exchanged. |
| Pixels.SwapWordByMasks | contrib/native/libtiger/src/tiger_bitmap_cache.c:72-74 | The C update, the masked word OR-ed with the shifted red and blue bytes, is exactly the red/blue exchange. |
| Pixels.SwapWordInvolutive | contrib/native/libtiger/src/tiger_bitmap_cache.c:69-77 | Swapping a word twice gives back the word. |
| Pixels.SwapAllInvolutive | contrib/native/libtiger/src/tiger_bitmap_cache.c:69-77 | Running the swap pass twice over a buffer leaves it unchanged. |
| Pixels.PackSwapRB | contrib/native/libtiger/src/tiger_bitmap_cache.c:114-118 | Packing the entry with r and b exchanged equals swapping the packed word. |
| Pixels.WorkingEntry | contrib/native/libtiger/src/tiger_bitmap_cache.c:113-123 | The working entry keeps alpha. A zero-alpha entry gets r = g = b = 0. Otherwise the entry is the source entry, with r and b exchanged exactly when swap_rgb is set. |
| Pixels.WorkingPalette | contrib/native/libtiger/src/tiger_bitmap_cache.c:111-124 | The working palette has exactly ncolors entries and keeps every alpha. A zero-alpha entry is (0,0,0,0). Any other entry is the source entry, swapped iff swap_rgb. |
| Pixels.WorkingPaletteSwap | contrib/native/libtiger/src/tiger_bitmap_cache.c:111-124 | Each entry of the swapped working palette is the unswapped working entry with r and b exchanged. |
| Pixels.BlitAt | contrib/native/libtiger/src/tiger_bitmap_cache.c:127-137 | The blit has exactly w*h words. Pixel (x, y) sits at y*w+x, inside the grid, and is the packed working-palette color of source index y*w+x. |
| Pixels.BlitSwap | contrib/native/libtiger/src/tiger_bitmap_cache.c:111-137 | Blitting with the swapped working palette equals the swap pass applied to the blit with the unswapped one. |
| Pixels.BlitTransparentIsBlack | contrib/native/libtiger/src/tiger_bitmap_cache.c:107-135 | A pixel whose palette entry has alpha 0 becomes the word 0 (alpha 0, black), whatever RGB the entry held. |
| Pixels.BlitTwoByOne | contrib/native/libtiger/src/tiger_bitmap_cache.c:127-137 | Indices [0, 1] over opaque red and opaque green, without swap, give the words 0xffff0000 and 0xff00ff00. |
| Surfaces.Surface.Blank | contrib/native/libtiger/src/tiger_bitmap_cache.c:95-97 | A newly allocated surface has the requested width and height, w*h words, all zero. |
| Surfaces.PngReaderState.Read | contrib/native/libtiger/src/tiger_bitmap_cache.c:43-50 | The read fails iff length > size - offset. On failure, neither the offset nor the buffer changes. On success, the buffer's first length bytes are payload bytes [offset, offset+length), the rest are unchanged, and offset advances by length. offset <= size always holds. |
| Surfaces.TotalOfPrefix | contrib/native/libtiger/src/tiger_bitmap_cache.c:46-48 | The bytes asked for by a prefix of the decoder's read requests never exceed those asked for by all of them. |
| Surfaces.DecodePngStream | contrib/native/libtiger/src/tiger_bitmap_cache.c:55-58 | Streaming through the reader yields a surface iff every request fits the payload and the decoder accepts the prefix it read. The surface then shows the decoded image. |
| Surfaces.SwapPass | contrib/native/libtiger/src/tiger_bitmap_cache.c:61-77 | After the in-place pass, every word of the surface is the swap of the word that was there before. |
| Surfaces.CreatePng | contrib/native/libtiger/src/tiger_bitmap_cache.c:52-80 | A surface is returned iff decoding succeeds. It shows the decoded image, red/blue swapped exactly when swap_rgb is set. |
| Surfaces.CopyPalette | contrib/native/libtiger/src/tiger_bitmap_cache.c:111-124 | The newly allocated working palette built by the copy loop equals WorkingPalette of the source colors. |
| Surfaces.BlitPaletted | contrib/native/libtiger/src/tiger_bitmap_cache.c:126-137 | After the nested row/column loops, the surface words equal the row-major blit of the first w*h indices through the working palette. |
| Surfaces.CreatePaletted | contrib/native/libtiger/src/tiger_bitmap_cache.c:82-151 | The result is null iff surface allocation fails. Otherwise it is a new width by height surface showing the blit through the working palette. |
| Surfaces.Render | contrib/native/libtiger/src/tiger_bitmap_cache.c:153-168 | Invalid input iff bpp != 0 and the palette is null. A PNG whose reads overrun the payload fails. A paletted bitmap with a palette renders iff surface allocation succeeds, at the bitmap's width and height. |
| Surfaces.RenderSwap | contrib/native/libtiger/src/tiger_bitmap_cache.c:52-137 | On both paths, swap_rgb changes neither whether rendering succeeds nor the size; the words with swap are the swap pass over the words without it. |
| BitmapCache.FindSlot | contrib/native/libtiger/src/tiger_bitmap_cache.c:236-240 | The lookup returns the first slot whose bitmap and palette are identical to the query, or none when no slot matches. |
| BitmapCache.LastEmpty | contrib/native/libtiger/src/tiger_bitmap_cache.c:236-242 | The free-slot candidate is an empty slot with only occupied slots after it, or none when every slot is occupied. |
| BitmapCache.NewCapacity | contrib/native/libtiger/src/tiger_bitmap_cache.c:183 | The new capacity is 8 for an empty store, otherwise twice the size, and always larger than the size. |
| BitmapCache.NewCapacityIsCapacity | contrib/native/libtiger/src/tiger_bitmap_cache.c:183 | Growing keeps the capacity on the sequence 0, 8, 16, 32, ... |
| BitmapCache.Grown | contrib/native/libtiger/src/tiger_bitmap_cache.c:184-191 | After growth the old slots are a prefix of the new array, and every position from the old size up to the new one is empty. |
| BitmapCache.GrownInvariant | contrib/native/libtiger/src/tiger_bitmap_cache.c:184-194 | Growth keeps the store invariant. |
| BitmapCache.GrownFind | contrib/native/libtiger/src/tiger_bitmap_cache.c:184-194 | After growth every lookup returns what it returned before: old slots stay where they were, and no new slot matches a non-null bitmap. |
| BitmapCache.OccupyInvariant | contrib/native/libtiger/src/tiger_bitmap_cache.c:170-171 | Occupying an empty slot with an absent pair and an unowned surface keeps the invariant, and the pair is then found in that slot. |
| BitmapCache.HitsDistinct | contrib/native/libtiger/src/tiger_bitmap_cache.c:236-240 | Two different (bitmap, palette) pairs that both hit are answered with different surfaces. |
| BitmapCache.SurfacesOf | contrib/native/libtiger/src/tiger_bitmap_cache.c:216-221 | The surfaces clear destroys are exactly the non-null surfaces of the slots. |
| BitmapCache.SurfacesOfDistinct | contrib/native/libtiger/src/tiger_bitmap_cache.c:216-221 | When no surface is owned twice, no surface is destroyed twice. |
| BitmapCache.MissSlots | contrib/native/libtiger/src/tiger_bitmap_cache.c:244-249 | When there is an empty slot, or the expansion succeeds, the slot a miss uses exists in the array it works on. |
| BitmapCache.HitAfterMiss | contrib/native/libtiger/src/tiger_bitmap_cache.c:244-255 | After a miss stores a new surface, the invariant holds, and the next lookup of the pair hits that slot and returns that surface, so the factory is not called again. |
| BitmapCache.CreateBitmap | contrib/native/libtiger/src/tiger_bitmap_cache.c:153-174 | A null slot or bitmap gives INVALID_PARAMETER. Otherwise the status is that of Render. On any error the slots are unchanged, so keys are never written without a surface. On success, only slot n changes, to (kb, kp, a new surface showing the rendered image). |
| BitmapCache.Cache.Init | contrib/native/libtiger/src/tiger_bitmap_cache.c:199-208 | After init there is no array, the size is 0, the swap flag is stored, and the invariant holds. |
| BitmapCache.Cache.Clear | contrib/native/libtiger/src/tiger_bitmap_cache.c:210-226 | Every non-null surface is destroyed exactly once, in slot order. The array is freed iff it existed. tb, size and the swap flag are left stale. |
| BitmapCache.Cache.Expand | contrib/native/libtiger/src/tiger_bitmap_cache.c:176-197 | On success: capacity NewCapacity(size), a new array holding the old slots followed by empty ones, and the invariant kept. On realloc failure: OUT_OF_MEMORY with tb and size unchanged. |
| BitmapCache.Cache.Scan | contrib/native/libtiger/src/tiger_bitmap_cache.c:236-242 | The scan loop finds the same slot as FindSlot. On a miss, its `available` cursor is the last empty slot, LastEmpty. |
| BitmapCache.Cache.EnsureFreeSlot | contrib/native/libtiger/src/tiger_bitmap_cache.c:244-249 | The scan's empty slot is used, or else slot old-size after a successful expansion. OUT_OF_MEMORY, with nothing changed, iff there is no empty slot and realloc fails. |
| BitmapCache.Cache.Miss | contrib/native/libtiger/src/tiger_bitmap_cache.c:244-255 | The miss path either runs out of memory with nothing changed, or returns the status of Render. On failure any expansion is kept. On success the chosen slot holds (kb, kp, a new surface) and that surface is returned. |
| BitmapCache.Cache.Get | contrib/native/libtiger/src/tiger_bitmap_cache.c:228-256 | A null kb or out-pointer gives INVALID_PARAMETER with nothing changed. A hit returns the slot's surface with nothing changed. A miss behaves as Miss. The out-pointer is written only on success, and the invariant (no duplicate pairs, empty slots with null keys) is kept. |

## Left out

- The `!tbc` checks of expand, init, clear and get are not modelled, because a Dafny method's receiver cannot be null. The null `tb` argument of create_bitmap and the null `cs` out-pointer of get are modelled, as nullable parameters.
- Cairo's own code is not modelled: the PNG decoder, surface allocation, `cairo_surface_flush` and `cairo_surface_destroy`. Decoding and allocation outcomes are parameters, and destroying is the ghost sequence `Clear` returns.
- The PNG decoder is modelled as a fixed list of read lengths chosen in advance. A real decoder may choose its next read length from the bytes it has read so far.
- The row stride and the `uint32_t*` casts are not modelled. A surface is w*h words, row after row, and the PNG surface is taken to use the same 4-byte ARGB32 layout.
- Surfaces.Render: overflow of the C `int` arithmetic is not modelled. Examples are `w*h`, and `kc.a<<24` for alpha at least 128. Packing is done on 32-bit words, which gives the bit pattern the code intends.
- BitmapCache.NewCapacity: the `size_t` wrap-around of `size*2` and of `size*sizeof(tiger_bitmap)` is not modelled.
- Allocator behaviour is modelled only as success or failure of `tiger_realloc`. The unchecked `tiger_malloc` of the working palette always succeeds, and `tiger_free` of the working palette is not modelled.
- `tiger_log` and the disabled debug block that writes a PNG file (lines 141-148) are diagnostics and are left out.
- `modules/audio_filter/resampler/bandlimited.h` is not part of this model. It is constant floating-point filter data with no control flow.
- Concurrency: the cache is single-threaded, and the model is sequential.
