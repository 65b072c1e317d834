/**
  One frame of the animation (an image.Paletted) and the palette remap that
  tints it with one overlay colour.
 */
module Frames {
  import opened Wrappers
  import opened Colors

  datatype Point = Point(x: int, y: int)

  datatype Rectangle = Rectangle(min: Point, max: Point)

  /**
    A paletted frame: a buffer of palette indices, its stride, its bounds and
    its palette. The pixel buffer is shared between frames by reference.
   */
  class Paletted {
    var pix: array<byte>
    var stride: int
    var rect: Rectangle
    var palette: array<DeviceColor>

    /** The zero frame that new(image.Paletted) allocates: no pixels, no palette. */
    constructor ()
      ensures pix.Length == 0 && palette.Length == 0
      ensures stride == 0 && rect == Rectangle(Point(0, 0), Point(0, 0))
      ensures fresh(pix) && fresh(palette)
    {
      pix := new byte[0];
      stride := 0;
      rect := Rectangle(Point(0, 0), Point(0, 0));
      palette := new DeviceColor[0];
    }
  }

  /** The opaque colour that blending `overlay` into the in-gamut projection of `base` gives. */
  function Blended(lib: ColorLib, overlay: FloatColor, base: FloatColor): (c: DeviceColor)
    ensures c.NRGBA? && c.a == 255
    ensures Alpha(c) == 0xffff
  {
    var rgb := lib.rgb255(lib.blend(overlay, lib.clamped(base)));
    NRGBA(rgb.r, rgb.g, rgb.b, 255)
  }

  /**
    The new value of one palette entry: a transparent entry, or one the
    library cannot convert, is kept as it is; every other entry becomes the
    opaque blend of the overlay with it.
   */
  function RemapEntry(lib: ColorLib, overlay: FloatColor, c: DeviceColor): (r: DeviceColor)
    ensures Alpha(c) == 0 ==> r == c
    ensures lib.makeColor(c).None? ==> r == c
    ensures Alpha(c) != 0 && lib.makeColor(c).Some? ==> r == Blended(lib, overlay, lib.makeColor(c).value)
    ensures r == c || (r.NRGBA? && r.a == 255)
    ensures Alpha(r) == 0 <==> Alpha(c) == 0
  {
    if Alpha(c) == 0 || lib.makeColor(c).None? then c
    else Blended(lib, overlay, lib.makeColor(c).value)
  }

  /** A whole palette remapped entry by entry: same length, entry i from entry i. */
  function RemapPalette(lib: ColorLib, overlay: FloatColor, p: seq<DeviceColor>): (r: seq<DeviceColor>)
    ensures |r| == |p|
    ensures forall i :: 0 <= i < |p| ==> r[i] == RemapEntry(lib, overlay, p[i])
  {
    if p == [] then []
    else [RemapEntry(lib, overlay, p[0])] + RemapPalette(lib, overlay, p[1..])
  }

  /**
    Remapping keeps transparency exactly: an entry of the new palette is
    transparent if and only if the entry it came from is; every entry is
    either the old one or fully opaque.
   */
  lemma RemapKeepsTransparency(lib: ColorLib, overlay: FloatColor, p: seq<DeviceColor>)
    ensures forall i :: 0 <= i < |p| ==>
      (Alpha(RemapPalette(lib, overlay, p)[i]) == 0 <==> Alpha(p[i]) == 0)
    ensures forall i :: 0 <= i < |p| ==>
      RemapPalette(lib, overlay, p)[i] == p[i] || Alpha(RemapPalette(lib, overlay, p)[i]) == 0xffff
  {
  }

  /** `dst` is the frame that tinting `src` with `overlay` produces. */
  ghost predicate Prepared(lib: ColorLib, dst: Paletted, src: Paletted, overlay: FloatColor)
    reads dst, src, dst.palette, src.palette
  {
    && dst.pix == src.pix
    && dst.stride == src.stride
    && dst.rect == src.rect
    && dst.palette.Length == src.palette.Length
    && dst.palette[..] == RemapPalette(lib, overlay, src.palette[..])
  }

  /**
    prepareFrame: gives `dst` the pixel buffer, stride and bounds of `src`
    and a freshly allocated palette whose entries are the remapped entries of
    the source palette. The source frame is left as it was.
   */
  method PrepareFrame(lib: ColorLib, src: Paletted, dst: Paletted, overlay: FloatColor)
    requires src != dst
    modifies dst
    ensures Prepared(lib, dst, src, overlay)
    ensures fresh(dst.palette)
    ensures unchanged(src) && unchanged(src.palette)
  {
    dst.pix := src.pix;
    dst.stride := src.stride;
    dst.rect := src.rect;
    dst.palette := new DeviceColor[src.palette.Length];

    for pixelIndex := 0 to src.palette.Length
      invariant dst.pix == src.pix && dst.stride == src.stride && dst.rect == src.rect
      invariant fresh(dst.palette) && dst.palette.Length == src.palette.Length
      invariant forall j :: 0 <= j < pixelIndex ==>
        dst.palette[j] == RemapEntry(lib, overlay, src.palette[j])
    {
      var pixel := src.palette[pixelIndex];
      var alpha := Alpha(pixel);
      var converted := lib.makeColor(pixel);

      if alpha == 0 || converted.None? {
        dst.palette[pixelIndex] := pixel;
        continue;
      }

      var clamped := lib.clamped(converted.value);
      var blended := lib.blend(overlay, clamped);
      var rgb := lib.rgb255(blended);
      dst.palette[pixelIndex] := NRGBA(rgb.r, rgb.g, rgb.b, 255);
    }
    assert dst.palette[..] == RemapPalette(lib, overlay, src.palette[..]);
  }
}
