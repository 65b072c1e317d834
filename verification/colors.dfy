/**
  Colour values as the program sees them: palette entries of the animation
  (device colours with an alpha channel), the floating-point colours of the
  go-colorful library, and the colour operations the program takes from that
  library and from its blend helper.
 */
module Colors {
  import opened Wrappers

  /** An 8-bit channel value (Go's uint8). */
  type byte = x: int | 0 <= x < 256

  /**
    A palette entry. The GIF decoder fills palettes with alpha-premultiplied
    RGBA values; the remapped palettes hold non-premultiplied NRGBA values.
   */
  datatype DeviceColor =
    | RGBA(r: byte, g: byte, b: byte, a: byte)
    | NRGBA(r: byte, g: byte, b: byte, a: byte)

  /** The alpha channel as the colour's RGBA() method reports it: 16 bits, 0 to 0xffff. */
  function Alpha(c: DeviceColor): (alpha: nat)
    ensures alpha <= 0xffff
    ensures alpha == 0 <==> c.a == 0
    ensures c.a == 255 ==> alpha == 0xffff
  {
    c.a * 0x101
  }

  /** A go-colorful colour: three float64 components, modelled as reals. */
  datatype FloatColor = FloatColor(r: real, g: real, b: real)

  /** A colour inside the unit cube, the device gamut of go-colorful. */
  predicate InGamut(c: FloatColor) {
    0.0 <= c.r <= 1.0 && 0.0 <= c.g <= 1.0 && 0.0 <= c.b <= 1.0
  }

  /** The colour with 8-bit components r, g, b, each scaled to [0, 1]. */
  function FromRgb255(r: byte, g: byte, b: byte): (c: FloatColor)
    ensures InGamut(c)
  {
    FloatColor(r as real / 255.0, g as real / 255.0, b as real / 255.0)
  }

  /** Three 8-bit channels, as go-colorful's RGB255() returns them. */
  datatype Rgb = Rgb(r: byte, g: byte, b: byte)

  /**
    The colour operations whose floating-point definitions are not part of
    this model, each given as a function:
    - makeColor: colorful.MakeColor, None where it reports that it cannot convert;
    - clamped:   Color.Clamped, projection onto the gamut;
    - blend:     blendColor(overlay, base), the program's mixing step;
    - rgb255:    Color.RGB255, conversion to 8-bit channels;
    - hex:       colorful.Hex, None where it reports an error.
   */
  datatype ColorLib = ColorLib(
    makeColor: DeviceColor -> Option<FloatColor>,
    clamped: FloatColor -> FloatColor,
    blend: (FloatColor, FloatColor) -> FloatColor,
    rgb255: FloatColor -> Rgb,
    hex: string -> Option<FloatColor>)
}
