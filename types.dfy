/**
  Value types of the glyph cache: glyph identifiers, rectangles, metrics,
  errors, and the font provider the cache consults.
 */
module Types {

  datatype Option<T> = None | Some(value: T)

  /** A glyph index handed out by the font provider (a `u32` in the source). */
  datatype Glyph = Glyph(index: nat)

  /**
    An axis-aligned rectangle with its origin at the top left. In the source
    `x` and `y` are `i32` and `width` and `height` are `u32`.
   */
  datatype Bounds = Bounds(x: int, y: int, width: nat, height: nat)

  /** Where a glyph was stored on the texture. */
  datatype TextureGlyph = TextureGlyph(glyph: Glyph, bounds: Bounds)

  /**
    Layout information of a glyph. Only the optional visual bounds matter to
    the cache; the floating-point bearings and advances are not modelled.
   */
  datatype Metrics = Metrics(bounds: Option<Bounds>)

  datatype CacheError =
    | TextureTooSmall
    | OutOfSpace
    | NonRenderableGlyph(glyph: Glyph)

  datatype Result<T> = Ok(value: T) | Err(error: CacheError)

  /** How the rasterized pixels are represented. */
  datatype PixelType = Alpha | RGBA

  newtype byte = x: int | 0 <= x < 256

  /**
    The font provider, a foreign collaborator, as the total functions the
    cache calls on it: its pixel format, shaping of a string into glyphs
    (appended to the caller's buffer), metrics, and rasterization, which may
    fail with any `CacheError`.
   */
  datatype FontProvider = FontProvider(
    pixelType: PixelType,
    glyphs: string -> seq<Glyph>,
    metrics: Glyph -> Metrics,
    rasterize: Glyph -> Result<seq<byte>>)

  /** One `put_rect` call on a texture: pixel format, pixel bytes and target region. */
  datatype Write = Write(pixel: PixelType, data: seq<byte>, target: TextureGlyph)
}
