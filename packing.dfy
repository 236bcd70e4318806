/**
  The shelf-packing allocator behind `Cache::render_glyph`, as pure functions
  over the cache's lookup table and its three cursor fields. Glyphs are placed
  left to right on a shelf; a glyph that does not fit horizontally starts a
  new shelf below the tallest glyph of the current one. One free column
  separates neighbours on a shelf and one free row separates shelves.
 */
module Packing {
  import opened Types

  /** The lookup table and the cursor fields `h_cursor`, `v_cursor`, `current_line_height`. */
  datatype Packer = Packer(entries: map<Glyph, TextureGlyph>, hCursor: nat, vCursor: nat, lineHeight: nat)

  /** The state of a new or cleared cache. */
  const Empty: Packer := Packer(map[], 0, 0, 0)

  /** What one resolve does: the state after it, what it returns, and the texture writes it issues. */
  datatype Step = Step(next: Packer, result: Result<(Metrics, TextureGlyph)>, written: seq<Write>)

  function Max(a: nat, b: nat): nat { if a < b then b else a }

  /** The glyph has visual bounds; for one that is not cached yet the source unwraps them. */
  predicate Sized(font: FontProvider, glyph: Glyph) {
    font.metrics(glyph).bounds.Some?
  }

  /** A glyph of this size fits an empty `w` by `h` texture. */
  predicate FitsTexture(size: Bounds, w: nat, h: nat) {
    size.width <= w && size.height <= h
  }

  predicate Inside(b: Bounds, w: nat, h: nat) {
    0 <= b.x && 0 <= b.y && b.x + b.width <= w && b.y + b.height <= h
  }

  /** The two rectangles share at least one pixel. */
  predicate Overlap(a: Bounds, b: Bounds) {
    a.x < b.x + b.width && b.x < a.x + a.width && a.y < b.y + b.height && b.y < a.y + a.height
  }

  /** At least one free column or one free row lies between the two rectangles. */
  predicate Padded(a: Bounds, b: Bounds) {
    a.x + a.width < b.x || b.x + b.width < a.x || a.y + a.height < b.y || b.y + b.height < a.y
  }

  /** The rectangle ends at least one row above the current shelf. */
  predicate AboveShelf(b: Bounds, p: Packer) {
    b.y + b.height < p.vCursor
  }

  /** The rectangle is on the current shelf, left of the cursor with a free column, and no taller than the shelf. */
  predicate OnShelf(b: Bounds, p: Packer) {
    b.y == p.vCursor && b.x + b.width < p.hCursor && b.height <= p.lineHeight
  }

  /** The entry for `g` is keyed by its own glyph, lies inside the texture and is behind the cursor. */
  predicate Placed(p: Packer, g: Glyph, w: nat, h: nat)
    requires g in p.entries
  {
    var b := p.entries[g].bounds;
    p.entries[g].glyph == g && Inside(b, w, h) && (AboveShelf(b, p) || OnShelf(b, p))
  }

  /**
    The packer invariant for a `w` by `h` texture: every entry is placed
    behind the cursor, any two entries are apart by a free column or row,
    and the cursors stay within one pixel past the texture.
   */
  ghost predicate Packed(p: Packer, w: nat, h: nat) {
    && (forall g | g in p.entries :: Placed(p, g, w, h))
    && (forall g1, g2 | g1 in p.entries && g2 in p.entries && g1 != g2 ::
          Padded(p.entries[g1].bounds, p.entries[g2].bounds))
    && p.hCursor <= w + 1
    && p.vCursor <= h + 1
    && (p.hCursor == 0 ==> p.lineHeight == 0)
    && (p.hCursor > 0 ==> p.vCursor + p.lineHeight <= h)
  }

  /** The cursor at the start of the next shelf, one free row below the current one. */
  function NextShelf(p: Packer): Packer {
    Packer(p.entries, 0, p.vCursor + p.lineHeight + 1, 0)
  }

  /** The shelf a glyph `width` wide goes on: the current one if it fits beside the cursor, else the next. */
  function ShelfFor(p: Packer, width: nat, w: nat): Packer {
    if width + p.hCursor > w then NextShelf(p) else p
  }

  /** Every entry of `a` is in `b` with the same value. */
  predicate Grows(a: map<Glyph, TextureGlyph>, b: map<Glyph, TextureGlyph>) {
    forall g | g in a :: g in b && b[g] == a[g]
  }

  /**
    One call of `render_glyph` on a texture `w` wide and `h` high. Its
    behaviour case by case is stated by the `Resolve...` lemmas below.
   */
  function Resolve(p: Packer, w: nat, h: nat, font: FontProvider, glyph: Glyph): (s: Step)
    requires glyph in p.entries || Sized(font, glyph)
    // Entries are never overwritten and only the requested glyph can be added.
    ensures Grows(p.entries, s.next.entries) && s.next.entries.Keys <= p.entries.Keys + {glyph}
    // What a success returns is what the table then holds for the glyph.
    ensures s.result.Ok? ==> glyph in s.next.entries && s.next.entries[glyph] == s.result.value.1
  {
    if glyph in p.entries then
      Step(p, Ok((font.metrics(glyph), p.entries[glyph])), [])
    else
      var size := font.metrics(glyph).bounds.value;
      if size.width > w || size.height > h then
        Step(p, Err(TextureTooSmall), [])
      else
        var q := ShelfFor(p, size.width, w);
        if size.height + q.vCursor > h then
          Step(q, Err(OutOfSpace), [])
        else
          match font.rasterize(glyph)
          case Err(e) => Step(q, Err(e), [])
          case Ok(data) =>
            var placed := TextureGlyph(glyph, Bounds(q.hCursor, q.vCursor, size.width, size.height));
            Step(Packer(q.entries[glyph := placed], q.hCursor + size.width + 1, q.vCursor, Max(q.lineHeight, size.height)),
                 Ok((font.metrics(glyph), placed)),
                 [Write(font.pixelType, data, placed)])
  }

  /** A hit returns the stored region with fresh metrics; nothing changes and nothing is written. */
  lemma ResolveHit(p: Packer, w: nat, h: nat, font: FontProvider, glyph: Glyph)
    requires glyph in p.entries
    ensures Resolve(p, w, h, font, glyph) == Step(p, Ok((font.metrics(glyph), p.entries[glyph])), [])
  {
  }

  /** A glyph larger than the texture is refused whatever the state; nothing changes and nothing is written. */
  lemma ResolveOversize(p: Packer, w: nat, h: nat, font: FontProvider, glyph: Glyph)
    requires glyph !in p.entries && Sized(font, glyph)
    requires !FitsTexture(font.metrics(glyph).bounds.value, w, h)
    ensures Resolve(p, w, h, font, glyph) == Step(p, Err(TextureTooSmall), [])
  {
  }

  /**
    A new glyph that fits the texture but has no room below the cursor on the
    shelf it goes on is out of space; the table is kept and nothing is written,
    but the cursor stays on that shelf, which may be the next one.
   */
  lemma ResolveOutOfSpace(p: Packer, w: nat, h: nat, font: FontProvider, glyph: Glyph)
    requires glyph !in p.entries && Sized(font, glyph)
    requires var size := font.metrics(glyph).bounds.value;
             FitsTexture(size, w, h) && ShelfFor(p, size.width, w).vCursor + size.height > h
    ensures Resolve(p, w, h, font, glyph) ==
            Step(ShelfFor(p, font.metrics(glyph).bounds.value.width, w), Err(OutOfSpace), [])
  {
  }

  /** With room on its shelf, a new glyph whose rasterization fails gets that error; the cursor stays on the shelf. */
  lemma ResolveRasterizeFails(p: Packer, w: nat, h: nat, font: FontProvider, glyph: Glyph)
    requires glyph !in p.entries && Sized(font, glyph) && font.rasterize(glyph).Err?
    requires var size := font.metrics(glyph).bounds.value;
             FitsTexture(size, w, h) && ShelfFor(p, size.width, w).vCursor + size.height <= h
    ensures Resolve(p, w, h, font, glyph) ==
            Step(ShelfFor(p, font.metrics(glyph).bounds.value.width, w), Err(font.rasterize(glyph).error), [])
  {
  }

  /** Any failure writes nothing and keeps the table; at most the cursor has moved to the next shelf. */
  lemma ResolveFailureKeepsTable(p: Packer, w: nat, h: nat, font: FontProvider, glyph: Glyph)
    requires glyph in p.entries || Sized(font, glyph)
    ensures var s := Resolve(p, w, h, font, glyph);
            s.result.Err? ==> s.written == [] && s.next.entries == p.entries && (s.next == p || s.next == NextShelf(p))
  {
  }

  /**
    A new glyph that fits the texture and has room on its shelf, and whose
    rasterization succeeds, is placed: at its own size, inside the texture,
    at the cursor of the current shelf if it fits beside it and at the start
    of the next shelf otherwise; the cursor moves past it with one free
    column, the shelf grows to its height, it is added to the table and its
    pixels are written once.
   */
  lemma ResolvePlaces(p: Packer, w: nat, h: nat, font: FontProvider, glyph: Glyph)
    requires glyph !in p.entries && Sized(font, glyph) && font.rasterize(glyph).Ok?
    requires var size := font.metrics(glyph).bounds.value;
             FitsTexture(size, w, h) && ShelfFor(p, size.width, w).vCursor + size.height <= h
    ensures var s := Resolve(p, w, h, font, glyph);
            var size := font.metrics(glyph).bounds.value;
            && s.result.Ok?
            && var placed := s.result.value.1;
            && s.result.value.0 == font.metrics(glyph)
            && placed.glyph == glyph
            && placed.bounds.width == size.width && placed.bounds.height == size.height
            && Inside(placed.bounds, w, h)
            && placed.bounds.y == s.next.vCursor
            // It stays on this shelf when it fits beside the cursor, and wraps to the next one otherwise.
            && (size.width + p.hCursor <= w ==>
                  placed.bounds.x == p.hCursor && s.next.vCursor == p.vCursor
                  && s.next.lineHeight == Max(p.lineHeight, size.height))
            && (size.width + p.hCursor > w ==>
                  placed.bounds.x == 0 && s.next.vCursor == p.vCursor + p.lineHeight + 1
                  && s.next.lineHeight == size.height)
            && s.next.hCursor == placed.bounds.x + size.width + 1
            && s.next.entries == p.entries[glyph := placed]
            && s.written == [Write(font.pixelType, font.rasterize(glyph).value, placed)]
  {
  }

  /** The vertical cursor never moves up. */
  lemma ResolveKeepsShelfOrder(p: Packer, w: nat, h: nat, font: FontProvider, glyph: Glyph)
    requires glyph in p.entries || Sized(font, glyph)
    ensures p.vCursor <= Resolve(p, w, h, font, glyph).next.vCursor
  {
  }

  lemma EmptyIsPacked(w: nat, h: nat)
    ensures Packed(Empty, w, h)
  {
  }

  /** Moving to the next shelf keeps the invariant and leaves every entry above the new shelf. */
  lemma NextShelfPacked(p: Packer, w: nat, h: nat, width: nat)
    requires Packed(p, w, h) && width <= w && width + p.hCursor > w
    ensures Packed(NextShelf(p), w, h)
    ensures forall g | g in p.entries :: AboveShelf(p.entries[g].bounds, NextShelf(p))
  {
    var q := NextShelf(p);
    forall g | g in p.entries
      ensures AboveShelf(p.entries[g].bounds, q) && Placed(q, g, w, h)
    {
      assert Placed(p, g, w, h);
    }
  }

  /** Every resolve, whatever its outcome, keeps the packer invariant. */
  lemma ResolvePreservesPacked(p: Packer, w: nat, h: nat, font: FontProvider, glyph: Glyph)
    requires Packed(p, w, h)
    requires glyph in p.entries || Sized(font, glyph)
    ensures Packed(Resolve(p, w, h, font, glyph).next, w, h)
  {
    if glyph !in p.entries {
      var size := font.metrics(glyph).bounds.value;
      if size.width <= w && size.height <= h {
        var q := ShelfFor(p, size.width, w);
        if size.width + p.hCursor > w {
          NextShelfPacked(p, w, h, size.width);
        }
        assert Packed(q, w, h);
        if size.height + q.vCursor <= h && font.rasterize(glyph).Ok? {
          var placed := TextureGlyph(glyph, Bounds(q.hCursor, q.vCursor, size.width, size.height));
          var r := Packer(q.entries[glyph := placed], q.hCursor + size.width + 1, q.vCursor, Max(q.lineHeight, size.height));
          assert r == Resolve(p, w, h, font, glyph).next;
          forall g | g in q.entries
            ensures Placed(r, g, w, h) && Padded(q.entries[g].bounds, placed.bounds)
          {
            assert Placed(q, g, w, h);
          }
          assert Placed(r, glyph, w, h);
          forall g1, g2 | g1 in r.entries && g2 in r.entries && g1 != g2
            ensures Padded(r.entries[g1].bounds, r.entries[g2].bounds)
          {
            if g1 != glyph && g2 != glyph {
              assert Padded(q.entries[g1].bounds, q.entries[g2].bounds);
            }
          }
        }
      }
    }
  }

  /** Packed entries lie inside the texture and no two of them share a pixel. */
  lemma PackedEntriesDisjoint(p: Packer, w: nat, h: nat)
    requires Packed(p, w, h)
    ensures forall g | g in p.entries :: Inside(p.entries[g].bounds, w, h)
    ensures forall g1, g2 | g1 in p.entries && g2 in p.entries && g1 != g2 ::
              !Overlap(p.entries[g1].bounds, p.entries[g2].bounds)
  {
    forall g | g in p.entries ensures Inside(p.entries[g].bounds, w, h) {
      assert Placed(p, g, w, h);
    }
    forall g1, g2 | g1 in p.entries && g2 in p.entries && g1 != g2
      ensures !Overlap(p.entries[g1].bounds, p.entries[g2].bounds)
    {
      assert Padded(p.entries[g1].bounds, p.entries[g2].bounds);
    }
  }

  /**
    Resolving a glyph again right after it succeeded is a hit: the same region
    comes back and nothing is written, so two resolves write at most once.
   */
  lemma RepeatIsHit(p: Packer, w: nat, h: nat, font: FontProvider, glyph: Glyph)
    requires glyph in p.entries || Sized(font, glyph)
    ensures var s := Resolve(p, w, h, font, glyph);
            s.result.Ok? ==>
              && Resolve(s.next, w, h, font, glyph) == Step(s.next, s.result, [])
              && |s.written + Resolve(s.next, w, h, font, glyph).written| <= 1
  {
  }

  /** After `OutOfSpace` every glyph cached before is still a hit on its old region. */
  lemma OutOfSpaceKeepsHits(p: Packer, w: nat, h: nat, font: FontProvider, glyph: Glyph)
    requires glyph in p.entries || Sized(font, glyph)
    ensures var s := Resolve(p, w, h, font, glyph);
            s.result == Err(OutOfSpace) ==>
              && s.next.entries == p.entries
              && forall g | g in p.entries ::
                   Resolve(s.next, w, h, font, g) == Step(s.next, Ok((font.metrics(g), p.entries[g])), [])
  {
  }

  /** A font whose every glyph is `width` by `height` and rasterizes to no bytes. */
  function UniformFont(width: nat, height: nat): (font: FontProvider)
    ensures forall g :: && Sized(font, g)
                        && font.metrics(g).bounds.value.width == width
                        && font.metrics(g).bounds.value.height == height
                        && font.rasterize(g) == Ok([])
  {
    FontProvider(Alpha, s => [], g => Metrics(Some(Bounds(0, 0, width, height))), g => Ok([]))
  }

  /**
    On an 8 by 4 texture three 3 by 2 glyphs go to (0,0) and (4,0); the third
    moves the cursor to a new shelf at row 3, has no room there and is out of
    space, while the first two remain hits.
   */
  lemma EightByFourScenario()
    ensures var font := UniformFont(3, 2);
            var a := Resolve(Empty, 8, 4, font, Glyph(0));
            var b := Resolve(a.next, 8, 4, font, Glyph(1));
            var c := Resolve(b.next, 8, 4, font, Glyph(2));
            && a.result.Ok? && a.result.value.1 == TextureGlyph(Glyph(0), Bounds(0, 0, 3, 2))
            && b.result.Ok? && b.result.value.1 == TextureGlyph(Glyph(1), Bounds(4, 0, 3, 2))
            && c.result == Err(OutOfSpace)
            && c.next == Packer(b.next.entries, 0, 3, 0)
            && Resolve(c.next, 8, 4, font, Glyph(0)).result == a.result
            && Resolve(c.next, 8, 4, font, Glyph(1)).result == b.result
  {
    var font := UniformFont(3, 2);
    var a := Resolve(Empty, 8, 4, font, Glyph(0));
    assert a.next == Packer(map[Glyph(0) := TextureGlyph(Glyph(0), Bounds(0, 0, 3, 2))], 4, 0, 2);
    var b := Resolve(a.next, 8, 4, font, Glyph(1));
    assert b.next.hCursor == 8 && b.next.vCursor == 0 && b.next.lineHeight == 2;
  }

  const U32Limit: int := 0x1_0000_0000

  /**
    On a texture less than 2^31 pixels in each direction, every sum the
    source forms in `u32` during a resolve, and the `i32` casts of the
    cursor, stay in range, so unbounded naturals model it exactly.
   */
  lemma CursorArithmeticFitsU32(p: Packer, w: nat, h: nat, size: Bounds)
    requires Packed(p, w, h) && w < U32Limit / 2 && h < U32Limit / 2
    requires FitsTexture(size, w, h)
    ensures size.width + p.hCursor < U32Limit
    ensures p.vCursor + p.lineHeight + 1 < U32Limit
    ensures size.height + ShelfFor(p, size.width, w).vCursor < U32Limit
    ensures ShelfFor(p, size.width, w).hCursor + size.width + 1 < U32Limit
    ensures ShelfFor(p, size.width, w).hCursor < U32Limit / 2
    ensures ShelfFor(p, size.width, w).vCursor + size.height <= h ==> ShelfFor(p, size.width, w).vCursor < U32Limit / 2
  {
  }
}
