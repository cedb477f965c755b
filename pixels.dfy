/** Colours and bitmaps as the codec sees them: an Android ARGB_8888 bitmap
    is its width, its height and one 32-bit colour per pixel in row-major
    order, `getPixel(x, y)` and `setPixel(x, y, c)` addressing index
    `y * width + x`. */
module Pixels {
  import opened Bytes

  /** A Java `int` colour 0xAARRGGBB, as its unsigned 32-bit pattern. */
  type Argb = x: int | 0 <= x < 0x1_0000_0000

  const OPAQUE_BLACK: Argb := 0xFF00_0000

  /** `(pixel >> 16) & 0xFF` */
  function Red(p: Argb): byte {
    p / 0x1_0000 % 0x100
  }

  /** `(pixel >> 8) & 0xFF` */
  function Green(p: Argb): byte {
    p / 0x100 % 0x100
  }

  /** `pixel & 0xFF` */
  function Blue(p: Argb): byte {
    p % 0x100
  }

  /** `(0xFF << 24) | (red << 16) | (green << 8) | blue`: the four parts do
      not overlap, so the `|` is a sum. */
  function OpaqueColor(red: byte, green: byte, blue: byte): Argb {
    OPAQUE_BLACK + (red as int) * 0x1_0000 + (green as int) * 0x100 + (blue as int)
  }

  /** The alpha byte of a colour is 0xFF. */
  predicate IsOpaque(p: Argb) {
    p >= OPAQUE_BLACK
  }

  /** `0xFF000000 | (p & 0x00FFFFFF)`: the colour with its alpha forced to 0xFF. */
  function WithOpaqueAlpha(p: Argb): (r: Argb)
    ensures IsOpaque(r)
    ensures IsOpaque(p) ==> r == p
  {
    OPAQUE_BLACK + p % 0x100_0000
  }

  /** Rebuilding a colour from its red, green and blue bytes keeps them and
      forces the alpha to 0xFF. */
  lemma ChannelsRebuild(p: Argb)
    ensures OpaqueColor(Red(p), Green(p), Blue(p)) == WithOpaqueAlpha(p)
  {
    assert p / 0x100 == (p / 0x100 % 0x100) + 0x100 * (p / 0x1_0000);
    assert p % 0x100_0000 == (p / 0x1_0000 % 0x100) * 0x1_0000 + (p / 0x100 % 0x100) * 0x100 + p % 0x100;
  }

  /** The other direction: the channels of a rebuilt colour are the bytes
      it was built from, and it is opaque. */
  lemma OpaqueColorChannels(red: byte, green: byte, blue: byte)
    ensures var c := OpaqueColor(red, green, blue);
      Red(c) == red && Green(c) == green && Blue(c) == blue && IsOpaque(c)
  {
    var c := OpaqueColor(red, green, blue);
    assert c == (0xFF00 + red as int) * 0x1_0000 + ((green as int) * 0x100 + blue as int);
    assert c / 0x1_0000 == 0xFF00 + red as int;
    assert c == (0xFF_0000 + (red as int) * 0x100 + green as int) * 0x100 + blue as int;
    assert c / 0x100 == 0xFF_0000 + (red as int) * 0x100 + green as int;
  }

  /** The pixel (x, y) of a width-by-height bitmap lies inside its pixel
      sequence at y * width + x. */
  lemma PixelIndexInRange(width: int, height: int, x: int, y: int)
    requires 0 <= x < width && 0 <= y < height
    ensures 0 <= y * width + x < width * height
  {
    assert (y + 1) * width <= height * width by {
      assert (height - (y + 1)) * width >= 0;
    }
  }

  /** A bitmap as a value. */
  datatype Image = Image(width: int, height: int, pixels: seq<Argb>)

  /** What every bitmap satisfies: positive dimensions and one colour per pixel. */
  predicate WellFormed(img: Image) {
    1 <= img.width && 1 <= img.height && |img.pixels| == img.width * img.height
  }

  /** `getPixel(x, y)` of a bitmap value. */
  function PixelAt(img: Image, x: int, y: int): Argb
    requires WellFormed(img)
    requires 0 <= x < img.width && 0 <= y < img.height
  {
    PixelIndexInRange(img.width, img.height, x, y);
    img.pixels[y * img.width + x]
  }

  /** An Android ARGB_8888 bitmap: fixed dimensions, mutable pixels. */
  class Bitmap {
    const width: int
    const height: int
    const pixels: array<Argb>  // row-major

    ghost predicate Valid() {
      1 <= width && 1 <= height && pixels.Length == width * height
    }

    /** The bitmap's current contents as a value. */
    function Snapshot(): (img: Image)
      reads pixels
      requires Valid()
      ensures WellFormed(img)
    {
      Image(width, height, pixels[..])
    }

    /** `Bitmap.createBitmap(width, height, ARGB_8888)`: every pixel is 0,
        transparent black. The library refuses non-positive dimensions; the
        callers check them first. */
    constructor (w: int, h: int)
      requires 1 <= w && 1 <= h
      ensures Valid() && width == w && height == h && fresh(pixels)
      ensures forall i :: 0 <= i < pixels.Length ==> pixels[i] == 0
    {
      width, height := w, h;
      pixels := new Argb[w * h](_ => 0);
    }

    /** Where pixel (x, y) is stored. */
    function Index(x: int, y: int): (i: int)
      requires Valid()
      requires 0 <= x < width && 0 <= y < height
      ensures 0 <= i < pixels.Length
    {
      PixelIndexInRange(width, height, x, y);
      y * width + x
    }

    /** `getPixel(x, y)` */
    function GetPixel(x: int, y: int): Argb
      reads pixels
      requires Valid()
      requires 0 <= x < width && 0 <= y < height
    {
      pixels[Index(x, y)]
    }

    /** `setPixel(x, y, color)`: changes that one pixel. */
    method SetPixel(x: int, y: int, color: Argb)
      requires Valid()
      requires 0 <= x < width && 0 <= y < height
      modifies pixels
      ensures pixels[..] == old(pixels[..])[Index(x, y) := color]
    {
      pixels[Index(x, y)] := color;
    }
  }
}
