/**
  The stateful cache: `Cache` owns the lookup table, the cursor fields and the
  texture; `FontCache` wraps it with the scratch buffer that shaping fills and
  the string operations drain. Every method is proved to do exactly what the
  functions of `Packing` and `Shaping` describe.
 */
module GlyphCache {
  import opened Types
  import opened Packing
  import opened Shaping

  /**
    A texture, standing in for the foreign `Texture` trait: a fixed size and
    the log of every `put_rect` call made on it. What the writes do to the
    pixels is the implementor's business and is not modelled.
   */
  class Texture {
    const width: nat
    const height: nat
    var writes: seq<Write>

    constructor (width: nat, height: nat)
      ensures this.width == width && this.height == height && writes == []
    {
      this.width := width;
      this.height := height;
      writes := [];
    }

    method PutRect(pixel: PixelType, data: seq<byte>, target: TextureGlyph)
      modifies this
      ensures writes == old(writes) + [Write(pixel, data, target)]
    {
      writes := writes + [Write(pixel, data, target)];
    }
  }

  /** The private `Cache`: font, texture, lookup table and the packing cursor. */
  class Cache {
    const font: FontProvider
    var texture: Texture
    var entries: map<Glyph, TextureGlyph>
    var hCursor: nat
    var vCursor: nat
    var currentLineHeight: nat

    /** The packing state as a value. */
    function State(): Packer
      reads this
    {
      Packer(entries, hCursor, vCursor, currentLineHeight)
    }

    ghost predicate Valid()
      reads this, texture
    {
      Packed(State(), texture.width, texture.height)
    }

    /** The fields `FontCache::new` gives a fresh cache. */
    constructor (font: FontProvider, texture: Texture)
      ensures this.font == font && this.texture == texture
      ensures State() == Empty && Valid()
    {
      this.font := font;
      this.texture := texture;
      entries := map[];
      hCursor := 0;
      vCursor := 0;
      currentLineHeight := 0;
      EmptyIsPacked(texture.width, texture.height);
    }

    /** Forget every entry and rewind the cursor; the texture's pixels are left alone. */
    method Clear()
      modifies this
      ensures State() == Empty && texture == old(texture)
      ensures Valid()
    {
      entries := map[];
      hCursor := 0;
      vCursor := 0;
      currentLineHeight := 0;
      EmptyIsPacked(texture.width, texture.height);
    }

    method RenderGlyph(glyph: Glyph) returns (r: Result<(Metrics, TextureGlyph)>)
      requires glyph in entries || Sized(font, glyph)
      modifies this, texture
      ensures texture == old(texture)
      ensures var s := Resolve(old(State()), texture.width, texture.height, font, glyph);
              State() == s.next && r == s.result && texture.writes == old(texture.writes) + s.written
    {
      if glyph in entries {
        return Ok((font.metrics(glyph), entries[glyph]));
      }
      var metrics := font.metrics(glyph);
      var bounds := metrics.bounds.value;
      if bounds.width > texture.width || bounds.height > texture.height {
        return Err(TextureTooSmall);
      }
      if bounds.width + hCursor > texture.width {
        hCursor := 0;
        vCursor := vCursor + currentLineHeight + 1;
        currentLineHeight := 0;
      }
      if bounds.height + vCursor > texture.height {
        return Err(OutOfSpace);
      }
      var pixelType := font.pixelType;
      var data := font.rasterize(glyph);
      if data.Err? {
        return Err(data.error);
      }
      var gpu := TextureGlyph(glyph, Bounds(hCursor, vCursor, bounds.width, bounds.height));
      texture.PutRect(pixelType, data.value, gpu);
      hCursor := hCursor + gpu.bounds.width + 1;
      currentLineHeight := Max(currentLineHeight, gpu.bounds.height);
      entries := entries[glyph := gpu];
      return Ok((font.metrics(glyph), gpu));
    }
  }

  /** The public cache: the packing `Cache` and a reusable buffer of shaped glyphs. */
  class FontCache {
    var glyphBuffer: seq<Glyph>
    const cache: Cache

    /** Between calls the buffer is empty and the packer invariant holds. */
    ghost predicate Valid()
      reads this, cache, cache.texture
    {
      glyphBuffer == [] && cache.Valid()
    }

    constructor (font: FontProvider, texture: Texture)
      ensures fresh(cache) && cache.font == font && cache.texture == texture
      ensures cache.State() == Empty && glyphBuffer == []
      ensures Valid()
    {
      glyphBuffer := [];
      cache := new Cache(font, texture);
    }

    method Clear()
      modifies cache
      ensures cache.State() == Empty && cache.texture == old(cache.texture)
      ensures glyphBuffer == old(glyphBuffer)
      ensures old(Valid()) ==> Valid()
    {
      cache.Clear();
    }

    method RenderGlyph(glyph: Glyph) returns (r: Result<(Metrics, TextureGlyph)>)
      requires glyph in cache.entries || Sized(cache.font, glyph)
      modifies cache, cache.texture
      ensures cache.texture == old(cache.texture) && glyphBuffer == old(glyphBuffer)
      ensures var s := Resolve(old(cache.State()), cache.texture.width, cache.texture.height, cache.font, glyph);
              cache.State() == s.next && r == s.result && cache.texture.writes == old(cache.texture.writes) + s.written
      ensures old(Valid()) ==> Valid()
    {
      if Valid() {
        ResolvePreservesPacked(cache.State(), cache.texture.width, cache.texture.height, cache.font, glyph);
      }
      r := cache.RenderGlyph(glyph);
    }

    /**
      Strip whitespace, shape into the buffer, then drain the buffer, resolving
      every glyph in order. Every glyph is resolved, whether or not an earlier
      one failed; the buffer is empty afterwards.
     */
    method RenderString(s: string) returns (results: seq<Result<(Metrics, TextureGlyph)>>)
      requires Renderable(cache.State(), cache.font, glyphBuffer + cache.font.glyphs(StripWhitespace(s)))
      modifies this, cache, cache.texture
      ensures cache.texture == old(cache.texture) && glyphBuffer == []
      ensures var t := RenderAll(old(cache.State()), cache.texture.width, cache.texture.height, cache.font,
                                 old(glyphBuffer) + cache.font.glyphs(StripWhitespace(s)));
              cache.State() == t.next && results == t.results && cache.texture.writes == old(cache.texture.writes) + t.written
      ensures old(Valid()) ==> Valid()
    {
      var text := StripWhitespace(s);
      glyphBuffer := glyphBuffer + cache.font.glyphs(text);
      ghost var all := glyphBuffer;
      ghost var start := cache.State();
      ghost var written: seq<Write> := [];
      var w, h := cache.texture.width, cache.texture.height;
      results := [];
      while glyphBuffer != []
        invariant cache.texture == old(cache.texture)
        invariant Renderable(cache.State(), cache.font, glyphBuffer)
        invariant cache.texture.writes == old(cache.texture.writes) + written
        invariant var rest := RenderAll(cache.State(), w, h, cache.font, glyphBuffer);
                  RenderAll(start, w, h, cache.font, all) == Trace(rest.next, results + rest.results, written + rest.written)
        decreases |glyphBuffer|
      {
        var glyph := glyphBuffer[0];
        RenderAllAdvance(start, w, h, cache.font, all, cache.State(), glyphBuffer, results, written);
        ghost var step := Resolve(cache.State(), w, h, cache.font, glyph);
        glyphBuffer := glyphBuffer[1..];
        var r := cache.RenderGlyph(glyph);
        ConcatAssoc(old(cache.texture.writes), written, step.written);
        written := written + step.written;
        results := results + [r];
      }
      if old(Valid()) {
        RenderAllPreservesPacked(start, w, h, cache.font, all);
      }
    }

    /**
      Strip whitespace, shape into the buffer, and resolve the glyphs in order
      until one fails; that failure is returned, the glyphs after it are
      dropped unresolved, and the buffer is empty afterwards.
     */
    method CacheString(s: string) returns (r: Result<()>)
      requires WarmRenderable(cache.State(), cache.texture.width, cache.texture.height, cache.font,
                              glyphBuffer + cache.font.glyphs(StripWhitespace(s)))
      modifies this, cache, cache.texture
      ensures cache.texture == old(cache.texture) && glyphBuffer == []
      ensures var t := WarmAll(old(cache.State()), cache.texture.width, cache.texture.height, cache.font,
                               old(glyphBuffer) + cache.font.glyphs(StripWhitespace(s)));
              cache.State() == t.next && r == t.result && cache.texture.writes == old(cache.texture.writes) + t.written
      ensures old(Valid()) ==> Valid()
    {
      var text := StripWhitespace(s);
      glyphBuffer := glyphBuffer + cache.font.glyphs(text);
      r := DrainUntilError();
      if old(Valid()) {
        WarmAllPreservesPacked(old(cache.State()), cache.texture.width, cache.texture.height, cache.font, old(glyphBuffer) + cache.font.glyphs(text));
      }
    }

    /**
      The short-circuiting collect over the drained buffer: resolve the
      buffered glyphs in order until one fails, then drop the drain, which
      discards the glyphs not yet resolved.
     */
    method DrainUntilError() returns (r: Result<()>)
      requires WarmRenderable(cache.State(), cache.texture.width, cache.texture.height, cache.font, glyphBuffer)
      modifies this, cache, cache.texture
      ensures cache.texture == old(cache.texture) && glyphBuffer == []
      ensures var t := WarmAll(old(cache.State()), cache.texture.width, cache.texture.height, cache.font, old(glyphBuffer));
              cache.State() == t.next && r == t.result && cache.texture.writes == old(cache.texture.writes) + t.written
    {
      ghost var all := glyphBuffer;
      ghost var start := cache.State();
      ghost var written: seq<Write> := [];
      var w, h := cache.texture.width, cache.texture.height;
      r := Ok(());
      while glyphBuffer != []
        invariant cache.texture == old(cache.texture)
        invariant r == Ok(())
        invariant WarmRenderable(cache.State(), w, h, cache.font, glyphBuffer)
        invariant cache.texture.writes == old(cache.texture.writes) + written
        invariant var rest := WarmAll(cache.State(), w, h, cache.font, glyphBuffer);
                  WarmAll(start, w, h, cache.font, all) == Warm(rest.next, rest.result, written + rest.written)
        decreases |glyphBuffer|
      {
        var glyph := glyphBuffer[0];
        WarmAllAdvance(start, w, h, cache.font, all, cache.State(), glyphBuffer, written);
        ghost var step := Resolve(cache.State(), w, h, cache.font, glyph);
        glyphBuffer := glyphBuffer[1..];
        var res := cache.RenderGlyph(glyph);
        ConcatAssoc(old(cache.texture.writes), written, step.written);
        written := written + step.written;
        if res.Err? {
          glyphBuffer := [];
          return Err(res.error);
        }
      }
    }

    /** Clear the cache, install `texture` and hand back the texture it replaces. */
    method ReplaceTexture(texture: Texture) returns (previous: Texture)
      modifies cache
      ensures previous == old(cache.texture) && cache.texture == texture
      ensures cache.State() == Empty && glyphBuffer == old(glyphBuffer)
      ensures cache.Valid()
    {
      Clear();
      previous := cache.texture;
      cache.texture := texture;
      EmptyIsPacked(texture.width, texture.height);
    }

  }
}
