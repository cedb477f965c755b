/** The image-to-audio codec of MagicPix: `convertImageToAudio` writes a
    bitmap as a WAV-shaped byte array (the 44-byte PCM header, the width and
    height as big-endian ints, then red, green and blue bytes per pixel in
    row-major order) and `regenerateImageFromAudio` reads it back. */
module Codec {
  import opened Bytes
  import opened Outcomes
  import opened WavHeader
  import opened Pixels

  const SAMPLE_RATE: int := 44100
  const NUM_CHANNELS: int := 1
  const BIT_DEPTH: int := 8
  /** Width and height, four bytes each, right after the header. */
  const DIMENSION_SIZE: nat := 8
  /** Where the pixel bytes start. */
  const PIXEL_OFFSET: nat := HEADER_SIZE + DIMENSION_SIZE

  // ---------------------------------------------------------------------
  // The encoded layout, as values

  /** `width * height * 3`: the length of the pixel bytes, three per
      pixel, and at least three times either dimension. */
  function PixelDataLength(width: int, height: int): (n: int)
    requires 1 <= width && 1 <= height
    ensures n == 3 * (width * height)
    ensures 3 * width <= n && 3 * height <= n
  {
    MulGrows(height, width);
    MulGrows(width, height);
    width * height * 3
  }

  /** Bitmaps the encoder handles without Java int overflow: the whole
      output, header and dimensions included, has an int length. */
  predicate Encodable(img: Image) {
    WellFormed(img) && PIXEL_OFFSET + PixelDataLength(img.width, img.height) <= INT_MAX
  }

  /** Three bytes per pixel, red, green, blue, in order; alpha is dropped. */
  function PixelBytes(ps: seq<Argb>): (r: seq<byte>)
    ensures |r| == 3 * |ps|
  {
    if ps == [] then [] else [Red(ps[0]), Green(ps[0]), Blue(ps[0])] + PixelBytes(ps[1..])
  }

  /** One opaque pixel per three bytes. */
  function DecodePixels(b: seq<byte>): (r: seq<Argb>)
    requires |b| % 3 == 0
    ensures |r| == |b| / 3
    ensures forall i :: 0 <= i < |r| ==> IsOpaque(r[i])
  {
    if b == [] then []
    else
      OpaqueColorChannels(b[0], b[1], b[2]);
      [OpaqueColor(b[0], b[1], b[2])] + DecodePixels(b[3..])
  }

  /** Every colour with its alpha forced to 0xFF. */
  function OpaquePixels(ps: seq<Argb>): (r: seq<Argb>)
    ensures |r| == |ps|
  {
    seq(|ps|, i requires 0 <= i < |ps| => WithOpaqueAlpha(ps[i]))
  }

  /** The encoder's output for a bitmap. */
  function Encode(img: Image): seq<byte>
    requires Encodable(img)
  {
    DimensionsAreInts(img);
    Header(PixelDataLength(img.width, img.height), SAMPLE_RATE, NUM_CHANNELS, BIT_DEPTH)
    + BigEndian32(img.width) + BigEndian32(img.height)
    + PixelBytes(img.pixels)
  }

  /** Why `regenerateImageFromAudio` produces no bitmap. */
  datatype DecodeError =
    | TooShort              // at most 44 bytes: the method shows a message and returns null
    | DimensionsTruncated   // reading bytes 44..51 runs off the array: ArrayIndexOutOfBoundsException
    | InvalidDimensions     // width or height not positive: createBitmap throws IllegalArgumentException
    | PixelDataTruncated    // fewer than 3 * width * height pixel bytes: ArrayIndexOutOfBoundsException

  /** What `regenerateImageFromAudio` makes of a byte array, failures checked
      in the order the method runs into them. Bytes 0..43 are never looked
      at, and neither is anything after the last pixel. */
  function Decode(data: seq<byte>): (r: Result<Image, DecodeError>)
    ensures r == Err(TooShort) <==> |data| <= HEADER_SIZE
    ensures r.Ok? ==> WellFormed(r.value)
    ensures r.Ok? ==> PIXEL_OFFSET + PixelDataLength(r.value.width, r.value.height) <= |data|
    ensures r.Ok? ==> forall i :: 0 <= i < |r.value.pixels| ==> IsOpaque(r.value.pixels[i])
  {
    if |data| <= HEADER_SIZE then Err(TooShort)
    else if |data| < PIXEL_OFFSET then Err(DimensionsTruncated)
    else
      var width := ReadInt32BE(data[HEADER_SIZE..HEADER_SIZE + 4]);
      var height := ReadInt32BE(data[HEADER_SIZE + 4..PIXEL_OFFSET]);
      if width <= 0 || height <= 0 then Err(InvalidDimensions)
      else if |data| < PIXEL_OFFSET + PixelDataLength(width, height) then Err(PixelDataTruncated)
      else
        PixelCount(width, height);
        Ok(Image(width, height, DecodePixels(data[PIXEL_OFFSET..PIXEL_OFFSET + PixelDataLength(width, height)])))
  }

  /** The pixel bytes are three per pixel. */
  lemma PixelCount(width: int, height: int)
    requires 1 <= width && 1 <= height
    ensures 1 <= width * height
    ensures PixelDataLength(width, height) == 3 * (width * height)
    ensures PixelDataLength(width, height) % 3 == 0 && PixelDataLength(width, height) / 3 == width * height
  {
    MulGrows(width, height);
  }

  // ---------------------------------------------------------------------
  // Lemmas about the layout

  /** The dimensions of an encodable bitmap fit in an int. */
  lemma DimensionsAreInts(img: Image)
    requires Encodable(img)
    ensures 1 <= img.width <= INT_MAX && 1 <= img.height <= INT_MAX
    ensures PixelDataLength(img.width, img.height) == 3 * |img.pixels|
  {
    MulGrows(img.height, img.width);
    MulGrows(img.width, img.height);
  }

  /** Appending a pixel appends its three bytes. */
  lemma {:induction false} PixelBytesAppend(ps: seq<Argb>, p: Argb)
    ensures PixelBytes(ps + [p]) == PixelBytes(ps) + [Red(p), Green(p), Blue(p)]
  {
    if ps == [] {
      assert ps + [p] == [p];
    } else {
      assert (ps + [p])[1..] == ps[1..] + [p];
      PixelBytesAppend(ps[1..], p);
    }
  }

  /** Row y of a width-by-height bitmap: its pixels y * width up to
      (y + 1) * width lie inside the pixel sequence. */
  lemma RowInRange(width: int, height: int, y: int)
    requires 1 <= width && 0 <= y < height
    ensures 0 <= y * width && (y + 1) * width == y * width + width <= width * height
    ensures y + 1 == height ==> y * width + width == width * height
  {
    PixelIndexInRange(width, height, width - 1, y);
  }

  /** One more pixel of a sequence, three more bytes. */
  lemma PixelBytesPrefix(ps: seq<Argb>, k: int)
    requires 0 <= k < |ps|
    ensures PixelBytes(ps[..k + 1]) == PixelBytes(ps[..k]) + [Red(ps[k]), Green(ps[k]), Blue(ps[k])]
  {
    assert ps[..k + 1] == ps[..k] + [ps[k]];
    PixelBytesAppend(ps[..k], ps[k]);
  }

  /** Pixel k is stored at bytes 3k, 3k + 1 and 3k + 2. */
  lemma {:induction false} PixelBytesAt(ps: seq<Argb>, k: int)
    requires 0 <= k < |ps|
    ensures PixelBytes(ps)[3 * k] == Red(ps[k])
    ensures PixelBytes(ps)[3 * k + 1] == Green(ps[k])
    ensures PixelBytes(ps)[3 * k + 2] == Blue(ps[k])
  {
    if k > 0 {
      PixelBytesAt(ps[1..], k - 1);
    }
  }

  /** Appending three bytes appends the pixel they make. */
  lemma {:induction false} DecodePixelsAppend(b: seq<byte>, red: byte, green: byte, blue: byte)
    requires |b| % 3 == 0
    ensures DecodePixels(b + [red, green, blue]) == DecodePixels(b) + [OpaqueColor(red, green, blue)]
  {
    if b == [] {
      assert b + [red, green, blue] == [red, green, blue];
    } else {
      assert (b + [red, green, blue])[3..] == b[3..] + [red, green, blue];
      DecodePixelsAppend(b[3..], red, green, blue);
    }
  }

  /** Three more bytes of a slice, one more decoded pixel. */
  lemma DecodePixelsPrefix(b: seq<byte>, lo: int, hi: int)
    requires 0 <= lo <= hi && hi + 3 <= |b| && (hi - lo) % 3 == 0
    ensures DecodePixels(b[lo..hi + 3]) == DecodePixels(b[lo..hi]) + [OpaqueColor(b[hi], b[hi + 1], b[hi + 2])]
  {
    assert b[lo..hi + 3] == b[lo..hi] + [b[hi], b[hi + 1], b[hi + 2]];
    DecodePixelsAppend(b[lo..hi], b[hi], b[hi + 1], b[hi + 2]);
  }

  /** Setting the next pixel to the colour of the next three bytes extends
      the decoded prefix by one pixel. */
  lemma DecodeStep(data: seq<byte>, at: int, pixels: seq<Argb>, k: int)
    requires 0 <= k < |pixels| && at == PIXEL_OFFSET + 3 * k && at + 3 <= |data|
    requires pixels[..k] == DecodePixels(data[PIXEL_OFFSET..at])
    ensures pixels[k := OpaqueColor(data[at], data[at + 1], data[at + 2])][..k + 1]
      == DecodePixels(data[PIXEL_OFFSET..at + 3])
  {
    var updated := pixels[k := OpaqueColor(data[at], data[at + 1], data[at + 2])];
    assert updated[..k + 1] == pixels[..k] + [updated[k]];
    DecodePixelsPrefix(data, PIXEL_OFFSET, at);
  }

  /** Decoding the pixel bytes of some colours gives the colours back with
      their alpha forced to 0xFF. */
  lemma {:induction false} DecodePixelBytes(ps: seq<Argb>)
    ensures DecodePixels(PixelBytes(ps)) == OpaquePixels(ps)
  {
    if ps != [] {
      var b := PixelBytes(ps);
      assert b[3..] == PixelBytes(ps[1..]);
      DecodePixelBytes(ps[1..]);
      ChannelsRebuild(ps[0]);
      assert DecodePixels(b) == [WithOpaqueAlpha(ps[0])] + OpaquePixels(ps[1..]);
    }
  }

  /** Encoding decoded pixels gives the bytes back. */
  lemma {:induction false} PixelBytesOfDecoded(b: seq<byte>)
    requires |b| % 3 == 0
    ensures PixelBytes(DecodePixels(b)) == b
  {
    if b != [] {
      OpaqueColorChannels(b[0], b[1], b[2]);
      PixelBytesOfDecoded(b[3..]);
      assert DecodePixels(b)[1..] == DecodePixels(b[3..]);
      assert b == [b[0], b[1], b[2]] + b[3..];
    }
  }

  /** The encoder's output is the 44-byte header, then width and height
      big-endian, then the pixel bytes, and nothing else. The header is a
      consistent PCM header whose data size is the number of pixel bytes,
      8 fewer than the bytes that follow the header. */
  lemma EncodeLayout(img: Image)
    requires Encodable(img)
    ensures var e := Encode(img);
      var n := PixelDataLength(img.width, img.height);
      && |e| == PIXEL_OFFSET + n
      && e[..HEADER_SIZE] == Header(n, SAMPLE_RATE, NUM_CHANNELS, BIT_DEPTH)
      && ReadInt32BE(e[HEADER_SIZE..HEADER_SIZE + 4]) == img.width
      && ReadInt32BE(e[HEADER_SIZE + 4..PIXEL_OFFSET]) == img.height
      && e[PIXEL_OFFSET..] == PixelBytes(img.pixels)
      && ParseHeader(e[..HEADER_SIZE])
         == Some(PcmFormat(n + RIFF_OVERHEAD, 1, 1, SAMPLE_RATE, SAMPLE_RATE, 1, 8, n))
      && n == |e| - HEADER_SIZE - DIMENSION_SIZE
  {
    var e := Encode(img);
    var n := PixelDataLength(img.width, img.height);
    DimensionsAreInts(img);
    BigEndian32RoundTrip(img.width);
    BigEndian32RoundTrip(img.height);
    CodecHeaderIsConsistent(n);
    HeaderLayout(n, SAMPLE_RATE, NUM_CHANNELS, BIT_DEPTH);
    assert e[HEADER_SIZE..HEADER_SIZE + 4] == BigEndian32(img.width);
    assert e[HEADER_SIZE + 4..PIXEL_OFFSET] == BigEndian32(img.height);
  }

  /** After the header come the dimensions and the pixel bytes. */
  lemma EncodeTail(img: Image)
    requires Encodable(img)
    ensures IsInt32(img.width) && IsInt32(img.height)
    ensures Encode(img)[HEADER_SIZE..] == BigEndian32(img.width) + BigEndian32(img.height) + PixelBytes(img.pixels)
    ensures |Encode(img)| == PIXEL_OFFSET + 3 * |img.pixels|
    ensures Encode(img)[PIXEL_OFFSET..] == PixelBytes(img.pixels)
  {
    DimensionsAreInts(img);
    var h := Header(PixelDataLength(img.width, img.height), SAMPLE_RATE, NUM_CHANNELS, BIT_DEPTH);
    var rest := BigEndian32(img.width) + BigEndian32(img.height) + PixelBytes(img.pixels);
    assert Encode(img) == h + rest;
  }

  /** The pixel at (x, y) is stored as red, green, blue at offset
      52 + 3 * (y * width + x). */
  lemma EncodedPixelAt(img: Image, x: int, y: int)
    requires Encodable(img)
    requires 0 <= x < img.width && 0 <= y < img.height
    ensures var e := Encode(img);
      var at := PIXEL_OFFSET + 3 * (y * img.width + x);
      && at + 2 < |e|
      && e[at] == Red(PixelAt(img, x, y))
      && e[at + 1] == Green(PixelAt(img, x, y))
      && e[at + 2] == Blue(PixelAt(img, x, y))
  {
    var k := y * img.width + x;
    PixelIndexInRange(img.width, img.height, x, y);
    EncodeTail(img);
    PixelBytesAt(img.pixels, k);
  }

  /** The decoder accepts any array holding, after the header, two
      positive big-endian dimensions and at least as many pixel bytes as
      they call for. */
  lemma DecodeAccepts(data: seq<byte>, width: int, height: int)
    requires 1 <= width && 1 <= height
    requires PIXEL_OFFSET + PixelDataLength(width, height) <= |data|
    requires ReadInt32BE(data[HEADER_SIZE..HEADER_SIZE + 4]) == width
    requires ReadInt32BE(data[HEADER_SIZE + 4..PIXEL_OFFSET]) == height
    ensures PixelDataLength(width, height) % 3 == 0
    ensures Decode(data)
      == Ok(Image(width, height, DecodePixels(data[PIXEL_OFFSET..PIXEL_OFFSET + PixelDataLength(width, height)])))
  {
    PixelCount(width, height);
  }

  /** Round trip: decoding an encoded bitmap gives its width, its height and
      every pixel with red, green and blue kept and alpha forced to 0xFF. */
  lemma RoundTrip(img: Image)
    requires Encodable(img)
    ensures Decode(Encode(img)) == Ok(Image(img.width, img.height, OpaquePixels(img.pixels)))
  {
    var e := Encode(img);
    var n := PixelDataLength(img.width, img.height);
    EncodeLayout(img);
    assert e[PIXEL_OFFSET..PIXEL_OFFSET + n] == PixelBytes(img.pixels);
    DecodeAccepts(e, img.width, img.height);
    DecodePixelBytes(img.pixels);
  }

  /** The round trip pixel by pixel, as `getPixel` sees it. */
  lemma RoundTripPixels(img: Image, out: Image, x: int, y: int)
    requires Encodable(img) && Decode(Encode(img)) == Ok(out)
    requires 0 <= x < img.width && 0 <= y < img.height
    ensures out.width == img.width && out.height == img.height
    ensures PixelAt(out, x, y) == WithOpaqueAlpha(PixelAt(img, x, y))
  {
    RoundTrip(img);
    PixelIndexInRange(img.width, img.height, x, y);
  }

  /** Whatever the decoder accepts from an array a Java program can hold
      is an encodable bitmap. */
  lemma DecodedIsEncodable(data: seq<byte>)
    requires |data| <= INT_MAX
    requires Decode(data).Ok?
    ensures Encodable(Decode(data).value)
  {
  }

  /** The other direction: the encoder writes back, after its canonical
      header, exactly the bytes the decoder read. */
  lemma EncodeRestoresBytes(data: seq<byte>)
    requires |data| <= INT_MAX
    requires Decode(data).Ok?
    ensures var img := Decode(data).value;
      var n := PixelDataLength(img.width, img.height);
      Encodable(img) && Encode(img)[HEADER_SIZE..] == data[HEADER_SIZE..PIXEL_OFFSET + n]
  {
    var img := Decode(data).value;
    var n := PixelDataLength(img.width, img.height);
    var pixelBytes := data[PIXEL_OFFSET..PIXEL_OFFSET + n];
    var widthBytes := data[HEADER_SIZE..HEADER_SIZE + 4];
    var heightBytes := data[HEADER_SIZE + 4..PIXEL_OFFSET];
    assert img == Image(ReadInt32BE(widthBytes), ReadInt32BE(heightBytes), DecodePixels(pixelBytes));
    DecodedIsEncodable(data);
    EncodeTail(img);
    assert BigEndian32(img.width) == widthBytes by {
      ReadInt32BERoundTrip(widthBytes);
    }
    assert BigEndian32(img.height) == heightBytes by {
      ReadInt32BERoundTrip(heightBytes);
    }
    assert PixelBytes(img.pixels) == pixelBytes by {
      PixelBytesOfDecoded(pixelBytes);
    }
    assert data[HEADER_SIZE..PIXEL_OFFSET + n] == widthBytes + heightBytes + pixelBytes by {
      assert data[HEADER_SIZE..PIXEL_OFFSET] == widthBytes + heightBytes;
      assert data[HEADER_SIZE..PIXEL_OFFSET + n] == data[HEADER_SIZE..PIXEL_OFFSET] + pixelBytes;
    }
  }

  /** Re-encoding a decoded bitmap and decoding again gives the same bitmap:
      every decoded pixel is already opaque. */
  lemma DecodeEncodeDecode(data: seq<byte>)
    requires |data| <= INT_MAX
    requires Decode(data).Ok?
    ensures Encodable(Decode(data).value)
    ensures Decode(Encode(Decode(data).value)) == Decode(data)
  {
    var img := Decode(data).value;
    DecodedIsEncodable(data);
    RoundTrip(img);
    assert OpaquePixels(img.pixels) == img.pixels;
  }

  /** The decoder never looks at the header: arrays that differ only in
      bytes 0..43 decode alike, so the RIFF and WAVE tags are not checked. */
  lemma DecodeIgnoresHeader(a: seq<byte>, b: seq<byte>)
    requires |a| == |b|
    requires forall i :: HEADER_SIZE <= i < |a| ==> a[i] == b[i]
    ensures Decode(a) == Decode(b)
  {
    if |a| >= PIXEL_OFFSET {
      assert a[HEADER_SIZE..HEADER_SIZE + 4] == b[HEADER_SIZE..HEADER_SIZE + 4];
      assert a[HEADER_SIZE + 4..PIXEL_OFFSET] == b[HEADER_SIZE + 4..PIXEL_OFFSET];
      var w := ReadInt32BE(a[HEADER_SIZE..HEADER_SIZE + 4]);
      var h := ReadInt32BE(a[HEADER_SIZE + 4..PIXEL_OFFSET]);
      if w > 0 && h > 0 && |a| >= PIXEL_OFFSET + PixelDataLength(w, h) {
        var end := PIXEL_OFFSET + PixelDataLength(w, h);
        assert a[PIXEL_OFFSET..end] == b[PIXEL_OFFSET..end];
      }
    }
  }

  /** Bytes after the last pixel are ignored. */
  lemma DecodeIgnoresTrailingBytes(data: seq<byte>, extra: seq<byte>)
    requires Decode(data).Ok?
    ensures Decode(data + extra) == Decode(data)
  {
    var d := data + extra;
    assert d[HEADER_SIZE..HEADER_SIZE + 4] == data[HEADER_SIZE..HEADER_SIZE + 4];
    assert d[HEADER_SIZE + 4..PIXEL_OFFSET] == data[HEADER_SIZE + 4..PIXEL_OFFSET];
    var img := Decode(data).value;
    var end := PIXEL_OFFSET + PixelDataLength(img.width, img.height);
    assert d[PIXEL_OFFSET..end] == data[PIXEL_OFFSET..end];
  }

  /** The encoder's output is its three parts side by side. */
  lemma EncodeFromParts(img: Image, header: seq<byte>, dimensions: seq<byte>, pixelBytes: seq<byte>)
    requires Encodable(img)
    requires header == Header(PixelDataLength(img.width, img.height), SAMPLE_RATE, NUM_CHANNELS, BIT_DEPTH)
    requires dimensions == BigEndian32(img.width) + BigEndian32(img.height)
    requires pixelBytes == PixelBytes(img.pixels)
    ensures Encode(img) == header + dimensions + pixelBytes
  {
  }

  // ---------------------------------------------------------------------
  // The methods

  /** `System.arraycopy(src, srcPos, dest, destPos, length)` between two
      different arrays. */
  method ArrayCopy(src: array<byte>, srcPos: nat, dest: array<byte>, destPos: nat, length: nat)
    requires src != dest
    requires srcPos + length <= src.Length && destPos + length <= dest.Length
    modifies dest
    ensures dest[..destPos + length] == old(dest[..destPos]) + src[srcPos..srcPos + length]
    ensures dest[destPos + length..] == old(dest[destPos + length..])
  {
    var i := 0;
    while i < length
      invariant 0 <= i <= length
      invariant dest[..] == old(dest[..destPos]) + src[srcPos..srcPos + i] + old(dest[destPos + i..])
    {
      dest[destPos + i] := src[srcPos + i];
      i := i + 1;
    }
  }

  /** One pass of the first outer loop of `convertImageToAudio`: red,
      green and blue of every pixel of row y. */
  method ExtractRow(image: Bitmap, y: int, ghost done: int, pixelData: array<byte>, rowStart: int)
    returns (pixelIndex: int)
    requires image.Valid() && 0 <= y < image.height
    requires done == y * image.width && 0 <= done && done + image.width <= image.pixels.Length
    requires pixelData.Length == 3 * image.pixels.Length
    requires rowStart == 3 * done
    requires pixelData[..rowStart] == PixelBytes(image.pixels[..done])
    modifies pixelData
    ensures pixelIndex == 3 * (done + image.width)
    ensures pixelData[..pixelIndex] == PixelBytes(image.pixels[..done + image.width])
    ensures pixelData[pixelIndex..] == old(pixelData[pixelIndex..])
  {
    var width := image.width;
    pixelIndex := rowStart;
    ghost var k := done;     // y * width + x
    var x := 0;
    while x < width
      invariant 0 <= x <= width
      invariant k == done + x
      invariant pixelIndex == 3 * k
      invariant pixelData[..pixelIndex] == PixelBytes(image.pixels[..k])
      invariant forall i :: pixelIndex <= i < pixelData.Length ==> pixelData[i] == old(pixelData[i])
    {
      assert image.Index(x, y) == k;
      var pixel := image.GetPixel(x, y);
      PixelBytesPrefix(image.pixels[..], k);
      var red := Red(pixel);
      var green := Green(pixel);
      var blue := Blue(pixel);

      pixelData[pixelIndex] := red;
      pixelIndex := pixelIndex + 1;
      pixelData[pixelIndex] := green;
      pixelIndex := pixelIndex + 1;
      pixelData[pixelIndex] := blue;
      pixelIndex := pixelIndex + 1;
      k := k + 1;
      x := x + 1;
    }
  }

  /** The first loop of `convertImageToAudio`: red, green and blue of every
      pixel, row by row. */
  method ExtractPixelData(image: Bitmap) returns (pixelData: array<byte>)
    requires image.Valid()
    ensures fresh(pixelData)
    ensures pixelData[..] == PixelBytes(image.pixels[..])
  {
    var width := image.width;
    var height := image.height;
    PixelCount(width, height);
    pixelData := new byte[width * height * 3];

    var pixelIndex := 0;
    ghost var done := 0;     // y * width
    var y := 0;
    while y < height
      invariant 0 <= y <= height
      invariant done == y * width && 0 <= done <= image.pixels.Length
      invariant y == height ==> done == image.pixels.Length
      invariant pixelIndex == 3 * done
      invariant pixelData[..pixelIndex] == PixelBytes(image.pixels[..done])
    {
      RowInRange(width, height, y);
      pixelIndex := ExtractRow(image, y, done, pixelData, pixelIndex);
      done := done + width;
      y := y + 1;
    }
    assert pixelData[..] == pixelData[..pixelIndex];
    assert image.pixels[..done] == image.pixels[..];
  }

  /** The width and height as eight big-endian bytes, `(byte) (width >> 24)`
      first. */
  method EncodeDimensions(width: int, height: int) returns (dimensionData: array<byte>)
    requires IsInt32(width) && IsInt32(height)
    ensures fresh(dimensionData)
    ensures dimensionData[..] == BigEndian32(width) + BigEndian32(height)
  {
    dimensionData := new byte[DIMENSION_SIZE];
    dimensionData[0] := LowByte(width / 0x100_0000);
    dimensionData[1] := LowByte(width / 0x1_0000);
    dimensionData[2] := LowByte(width / 0x100);
    dimensionData[3] := LowByte(width);
    dimensionData[4] := LowByte(height / 0x100_0000);
    dimensionData[5] := LowByte(height / 0x1_0000);
    dimensionData[6] := LowByte(height / 0x100);
    dimensionData[7] := LowByte(height);
  }

  /** The last step of `convertImageToAudio`: a new array holding the
      header, the dimensions and the pixel bytes, copied in one after the
      other. */
  method Combine(wavHeader: array<byte>, dimensionData: array<byte>, pixelData: array<byte>)
    returns (wavData: array<byte>)
    ensures fresh(wavData)
    ensures wavData[..] == wavHeader[..] + dimensionData[..] + pixelData[..]
  {
    wavData := new byte[wavHeader.Length + dimensionData.Length + pixelData.Length];
    ArrayCopy(wavHeader, 0, wavData, 0, wavHeader.Length);
    ArrayCopy(dimensionData, 0, wavData, wavHeader.Length, dimensionData.Length);
    ArrayCopy(pixelData, 0, wavData, wavHeader.Length + dimensionData.Length, pixelData.Length);
    assert wavData[..] == wavData[..wavHeader.Length + dimensionData.Length + pixelData.Length];
  }

  /** `convertImageToAudio`: the pixel bytes, then the header, then the
      dimensions, all copied into one array. */
  method ConvertImageToAudio(image: Bitmap) returns (wavData: array<byte>)
    requires image.Valid() && Encodable(image.Snapshot())
    ensures fresh(wavData)
    ensures wavData[..] == Encode(image.Snapshot())
  {
    DimensionsAreInts(image.Snapshot());
    var pixelData := ExtractPixelData(image);
    var wavHeader := CreateWavHeader(pixelData.Length, SAMPLE_RATE, NUM_CHANNELS, BIT_DEPTH);
    var dimensionData := EncodeDimensions(image.width, image.height);
    wavData := Combine(wavHeader, dimensionData, pixelData);
    EncodeFromParts(image.Snapshot(), wavHeader[..], dimensionData[..], pixelData[..]);
  }

  /** One pass of the inner loop of `regenerateImageFromAudio`: row y,
      three bytes per pixel, each made an opaque colour and set. It stops,
      returning false, where the Java loop would read past the end of the
      array. */
  method FillRow(audioData: array<byte>, bitmap: Bitmap, y: int, ghost done: int, rowStart: int)
    returns (complete: bool, pixelIndex: int)
    requires bitmap.Valid() && 0 <= y < bitmap.height
    requires done == y * bitmap.width && 0 <= done && done + bitmap.width <= bitmap.pixels.Length
    requires rowStart == PIXEL_OFFSET + 3 * done <= audioData.Length
    requires bitmap.pixels[..done] == DecodePixels(audioData[PIXEL_OFFSET..rowStart])
    modifies bitmap.pixels
    ensures complete ==> pixelIndex == PIXEL_OFFSET + 3 * (done + bitmap.width) <= audioData.Length
    ensures complete ==> bitmap.pixels[..done + bitmap.width] == DecodePixels(audioData[PIXEL_OFFSET..pixelIndex])
    ensures !complete ==> audioData.Length < PIXEL_OFFSET + 3 * (done + bitmap.width)
    ensures bitmap.pixels[done + bitmap.width..] == old(bitmap.pixels[done + bitmap.width..])
  {
    var width := bitmap.width;
    pixelIndex := rowStart;
    ghost var k := done;     // y * width + x
    var x := 0;
    while x < width
      invariant 0 <= x <= width
      invariant k == done + x
      invariant pixelIndex == PIXEL_OFFSET + 3 * k <= audioData.Length
      invariant bitmap.pixels[..k] == DecodePixels(audioData[PIXEL_OFFSET..pixelIndex])
      invariant bitmap.pixels[done + width..] == old(bitmap.pixels[done + width..])
    {
      if pixelIndex + 3 > audioData.Length {
        return false, pixelIndex;          // a read past the end of the array
      }
      var red := audioData[pixelIndex];
      pixelIndex := pixelIndex + 1;
      var green := audioData[pixelIndex];
      pixelIndex := pixelIndex + 1;
      var blue := audioData[pixelIndex];
      pixelIndex := pixelIndex + 1;
      var pixel := OpaqueColor(red, green, blue);
      ghost var before := bitmap.pixels[..];
      bitmap.SetPixel(x, y, pixel);
      DecodeStep(audioData[..], pixelIndex - 3, before, k);
      k := k + 1;
      x := x + 1;
    }
    return true, pixelIndex;
  }

  /** The loops of `regenerateImageFromAudio`: every row in turn, stopping
      with false at the first read past the end of the array. */
  method FillPixels(audioData: array<byte>, bitmap: Bitmap) returns (complete: bool)
    requires bitmap.Valid() && PIXEL_OFFSET <= audioData.Length
    modifies bitmap.pixels
    ensures complete <==> PIXEL_OFFSET + PixelDataLength(bitmap.width, bitmap.height) <= audioData.Length
    ensures var end := PIXEL_OFFSET + PixelDataLength(bitmap.width, bitmap.height);
      complete ==> bitmap.pixels[..] == DecodePixels(audioData[PIXEL_OFFSET..end])
  {
    var width := bitmap.width;
    var height := bitmap.height;
    ghost var n := PixelDataLength(width, height);
    assert n == 3 * bitmap.pixels.Length;

    var pixelIndex := PIXEL_OFFSET;
    ghost var done := 0;     // y * width
    var y := 0;
    while y < height
      invariant 0 <= y <= height
      invariant done == y * width && 0 <= done <= bitmap.pixels.Length
      invariant y == height ==> done == bitmap.pixels.Length
      invariant pixelIndex == PIXEL_OFFSET + 3 * done <= audioData.Length
      invariant bitmap.pixels[..done] == DecodePixels(audioData[PIXEL_OFFSET..pixelIndex])
    {
      RowInRange(width, height, y);
      var complete;
      complete, pixelIndex := FillRow(audioData, bitmap, y, done, pixelIndex);
      if !complete {
        return false;
      }
      done := done + width;
      y := y + 1;
    }
    assert bitmap.pixels[..] == bitmap.pixels[..done];
    return true;
  }

  /** `regenerateImageFromAudio`: skips the header, reads the dimensions,
      creates the bitmap and fills it row by row. Where the Java code throws,
      the method returns the corresponding error instead. */
  method RegenerateImageFromAudio(audioData: array<byte>) returns (result: Result<Bitmap, DecodeError>)
    ensures result.Err? ==> Decode(audioData[..]) == Err(result.error)
    ensures result.Ok? ==> result.value.Valid() && Decode(audioData[..]) == Ok(result.value.Snapshot())
    ensures result.Ok? ==> fresh(result.value) && fresh(result.value.pixels)
  {
    var headerSize := HEADER_SIZE;
    if audioData.Length <= headerSize {
      return Err(TooShort);
    }
    if audioData.Length < headerSize + DIMENSION_SIZE {
      return Err(DimensionsTruncated);   // a read past the end of the array
    }

    var width := ReadInt32BE(audioData[headerSize..headerSize + 4]);
    var height := ReadInt32BE(audioData[headerSize + 4..headerSize + 8]);

    if width <= 0 || height <= 0 {
      return Err(InvalidDimensions);     // createBitmap refuses the dimensions
    }
    var regeneratedImage := new Bitmap(width, height);

    var complete := FillPixels(audioData, regeneratedImage);
    if !complete {
      return Err(PixelDataTruncated);    // a read past the end of the array
    }
    return Ok(regeneratedImage);
  }
}
