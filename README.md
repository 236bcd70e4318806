# elefont glyph cache, modelled in Dafny

elefont sits between a font's rasterizer and a text renderer. It keeps rendered
glyphs on one texture (an atlas) and remembers the region where each glyph is
stored, so that every glyph is rasterized and uploaded only once.

The model covers three things:

- The private `Cache`. It holds the lookup table, the three cursor fields `h_cursor`,
  `v_cursor` and `current_line_height`, and the shelf-packing allocator in `render_glyph`.
- The public `FontCache` around `Cache`: construction, `clear`, `render_glyph`,
  `render_string`, `cache_string` and `replace_texture`.
- The value types `Glyph`, `Bounds`, `TextureGlyph`, `Metrics` and `CacheError`.

The files:

- `types.dfy` (module `Types`) defines the value types and the two foreign collaborators:
  - The font provider is a record of total functions: pixel type, shaping, metrics and rasterization.
  - `put_rect` calls on the texture are recorded as `Write` values.
- `packing.dfy` (module `Packing`) defines `Resolve`: one `render_glyph` call as a pure
  function from the packing state to the next state, the result and the texture writes.
  - The `Resolve...` lemmas state each branch of `render_glyph`.
  - `Packed` is the packer invariant. Every entry is keyed by its own glyph, lies inside the
    texture and sits behind the cursor. Any two entries are at least one free column or row
    apart. `ResolvePreservesPacked` proves that every resolve keeps it, and
    `PackedEntriesDisjoint` derives that cached regions never share a pixel.
- `shaping.dfy` (module `Shaping`) models whitespace stripping (`String::retain` with
  `char::is_whitespace`) and the two string paths:
  - `RenderAll` resolves every shaped glyph in order, as a fully drained `render_string` does.
  - `WarmAll` stops at the first failure, as `cache_string`'s collect into `Result` does.
  - `WarmIsRenderUntilFirstError` ties the two together.
- `cache.dfy` (module `GlyphCache`) holds the classes `Texture`, `Cache` and `FontCache`:
  - Their fields are the source's fields.
  - Every method is proved to leave exactly the state, and to return exactly the result,
    that the functions above describe.
  - `RenderString` and `DrainUntilError`, which `CacheString` calls, are loops that pop the glyph buffer as `Vec::drain` does.

The model follows the code in two places where a reader might expect otherwise:

- **Cursors after a failure.** One might expect a failed resolve to change nothing.
  - In the code, `render_glyph` moves the cursor to the next shelf (src/lib.rs:210-214) before it
    checks for room (src/lib.rs:215-216) and before rasterization can fail (src/lib.rs:219).
  - So after `OutOfSpace`, or after a rasterization error, the cursor may already be on the new
    shelf. The table is always unchanged.
  - `ResolveOutOfSpace`, `ResolveRasterizeFails` and `ResolveFailureKeepsTable` state exactly this.
- **Glyphs without bounds.** The documentation of `NonRenderableGlyph` names unsized glyphs as
  its example (src/lib.rs:284-289).
  - In the code, `render_glyph` unwraps the missing bounds (src/lib.rs:206), which panics.
  - The model makes "cached, or has bounds" a precondition of every resolve. It never returns
    `NonRenderableGlyph` itself. That error can only come from the font provider's rasterizer.

## Model

| member | source | states |
|---|---|---|
| Packing.Resolve | src/lib.rs:201-235 | a resolve never changes or removes an existing entry and can add only the requested glyph; a success returns exactly the region the table then holds for that glyph |
| Packing.ResolveHit | src/lib.rs:202-204 | a cached glyph returns its stored region with the provider's metrics; state unchanged, nothing written |
| Packing.ResolveOversize | src/lib.rs:205-209 | an uncached glyph wider or taller than the texture fails with TextureTooSmall whatever the state; state unchanged, nothing written |
| Packing.ResolveOutOfSpace | src/lib.rs:210-217 | an uncached glyph that fits the texture but not below the cursor of its shelf fails with OutOfSpace; the table is kept, nothing is written, and the cursor is left on the shelf chosen, possibly the next one |
| Packing.ResolveRasterizeFails | src/lib.rs:218-219 | with room on its shelf, a glyph whose rasterization fails returns that error; the table is kept, nothing is written, and the cursor stays on the chosen shelf |
| Packing.ResolveFailureKeepsTable | src/lib.rs:207-219 | every failure keeps the table and writes nothing; the state is either unchanged or moved to the start of the next shelf |
| Packing.ResolvePlaces | src/lib.rs:210-234 | a placed glyph gets its own size and a region inside the texture; it goes at the cursor of the current shelf when its width fits beside the cursor, and at the start of the next shelf, one row below the tallest glyph, otherwise; the cursor then moves one column past the glyph; the shelf height becomes the maximum; the table gains exactly this entry; exactly one put_rect is issued, with the provider's pixel type and bytes |
| Packing.ResolveKeepsShelfOrder | src/lib.rs:210-214 | the vertical cursor never decreases |
| Packing.EmptyIsPacked | src/lib.rs:116-123 | the state of a new or cleared cache satisfies the packer invariant |
| Packing.NextShelfPacked | src/lib.rs:210-214 | starting a new shelf keeps the invariant and puts every existing entry above the new shelf |
| Packing.ResolvePreservesPacked | src/lib.rs:201-235 | every resolve, hit, failure or placement, keeps the packer invariant |
| Packing.PackedEntriesDisjoint | src/lib.rs:220-232 | in a packed state every region lies inside the texture and no two regions share a pixel |
| Packing.RepeatIsHit | src/lib.rs:202-203 | resolving a glyph again after it succeeded is a hit on the same region that writes nothing, so the pair issues at most one write |
| Packing.OutOfSpaceKeepsHits | src/lib.rs:210-216 | after OutOfSpace every previously cached glyph is still a hit on its old region |
| Packing.EightByFourScenario | src/lib.rs:201-235 | on an 8x4 texture three 3x2 glyphs take (0,0) and (4,0); the third moves to a shelf at row 3, is out of space there, and the first two stay hits |
| Packing.CursorArithmeticFitsU32 | src/lib.rs:207-231 | when both texture sides are below 2^31, every u32 sum of a resolve and both i32 casts of the cursor stay in range |
| Shaping.StripWhitespace | src/lib.rs:155 | the result holds every non-whitespace character and no whitespace character; it is no longer than the input and equals the input when the input has no whitespace (these alone do not fix the order; StripConcat does) |
| Shaping.StripConcat | src/lib.rs:155 | stripping distributes over concatenation; together with the one-character cases this fixes the result as the non-whitespace characters in their original order |
| Shaping.StripIdempotent | src/lib.rs:155 | stripping twice is stripping once |
| Shaping.RenderAll | src/lib.rs:156-161 | one result per shaped glyph, and no existing entry is changed or removed |
| Shaping.RenderAllStillHeld | src/lib.rs:159-161 | every region a drained render_string hands out is still the region the table holds at its end |
| Shaping.WarmAll | src/lib.rs:169-171 | no existing entry is changed or removed; it needs only the glyphs up to the first failure to be renderable |
| Shaping.RenderableWarms | src/lib.rs:169-171 | a run whose every glyph is renderable satisfies the warm-up's weaker precondition |
| Shaping.WarmStopsBeforeUnsized | src/lib.rs:170 | on an 8x4 texture, a 9x9 glyph followed by a glyph without bounds is accepted by the warm-up, which returns TextureTooSmall and never reaches the second glyph, though the run is not renderable as a whole |
| Shaping.WarmAllCachesAll | src/lib.rs:169-171 | when cache_string succeeds, every shaped glyph is cached |
| Shaping.WarmIsRenderUntilFirstError | src/lib.rs:164-171 | cache_string succeeds exactly when every glyph of render_string would; otherwise it returns the first error, and leaves the state and writes of resolving the glyphs up to and including the failing one |
| Shaping.RenderAllPreservesPacked | src/lib.rs:156-161 | a run of resolves keeps the packer invariant |
| Shaping.WarmAllPreservesPacked | src/lib.rs:169-171 | a warm-up that stops at the first failure keeps the packer invariant |
| GlyphCache.Texture.PutRect | src/lib.rs:86 | one write of the given pixel type, bytes and region is appended to the texture's log |
| GlyphCache.Cache.constructor | src/lib.rs:116-123 | the cache holds the given font and texture with an empty table and zero cursors, and the invariant holds |
| GlyphCache.Cache.Clear | src/lib.rs:194-199 | the table is emptied and all three cursor fields are zero; the texture is kept and the invariant holds |
| GlyphCache.Cache.RenderGlyph | src/lib.rs:201-235 | the new state, the result and the texture writes are those of Resolve on the old state |
| GlyphCache.FontCache.constructor | src/lib.rs:113-125 | a fresh cache with the given font and texture, an empty table, zero cursors and an empty glyph buffer |
| GlyphCache.FontCache.Clear | src/lib.rs:131-133 | the table and cursors are reset; the texture and the glyph buffer are kept |
| GlyphCache.FontCache.RenderGlyph | src/lib.rs:136-138 | delegates to Cache.RenderGlyph: state, result and writes are those of Resolve, and the invariant is kept |
| GlyphCache.FontCache.RenderString | src/lib.rs:144-162 | strips whitespace, shapes into the buffer and drains it; state, results and writes are those of RenderAll over the buffer followed by the shaped glyphs; the buffer ends empty and the invariant is kept |
| GlyphCache.FontCache.CacheString | src/lib.rs:169-171 | requires renderability only up to the first failure; state, outcome and writes are those of WarmAll over the buffer followed by the shaped glyphs of the stripped string; the buffer ends empty and the invariant is kept |
| GlyphCache.FontCache.DrainUntilError | src/lib.rs:159-170 | resolves the buffered glyphs in order until one fails and empties the buffer; state, outcome and writes are those of WarmAll over the old buffer |
| GlyphCache.FontCache.ReplaceTexture | src/lib.rs:177-182 | the cache is cleared, the new texture is installed, the previous one is returned and the invariant holds for the new texture |

## Left out

- Floating-point metrics (`bearing_x`, `advance_x`, `bearing_y`, `advance_y`) and `FontProvider::line_height` and `kerning`. The cache only passes them through, and Dafny has no IEEE floats here.
- `FontProvider::single_glyph` is not used by the cache.
- Pixel contents. A texture is modelled as the log of its `put_rect` calls. What a write does to the pixels belongs to the texture implementation, as do `PixelType` conversions.
- Unicode NFC normalization, under the `unicode-normalization` feature, is not modelled. The model is the build without that feature.
- The backends under the `image`, `rusttype` and `fontdue` features, and the `Display` and `Error` implementations of `CacheError`, are not part of this model.
- The `texture()` and `font()` accessors are plain borrows with nothing to state.
- Fixed-width arithmetic. Cursors and sizes are unbounded naturals. `CursorArithmeticFitsU32` shows that the `u32` sums and `i32` casts never wrap when both texture sides are below 2^31; wrap-around on larger textures is not modelled.
- The font provider is modelled as pure functions, so metrics, shaping and rasterization are assumed deterministic. Their foreign implementations are not part of this model.
- The panic at `metrics.bounds.unwrap()` is a precondition of `Resolve` and of the methods that call it. The model does not describe what happens once it panics.
- GlyphCache.FontCache.RenderString: requires every shaped glyph to be cached or sized. The source panics only when the lazy iterator reaches such a glyph, so a caller who drops the iterator early is not covered.
- GlyphCache.FontCache.RenderString: laziness is not modelled. The returned iterator is taken as fully drained, so the results are one sequence.
- GlyphCache.Cache.RenderGlyph: its contract does not state preservation of the packer invariant. That follows from `Packing.ResolvePreservesPacked`, and `FontCache.RenderGlyph` states it.
