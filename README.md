# MagicPix codec in Dafny

MagicPix is an Android app that turns a picture into a byte array shaped like
a WAV file and back again. This project models the codec in
`MagicPix_src/magicpix/MainActivity.java`, plus the small guard state machine
of the activity's buttons around it, and proves properties of that model.

- `createWavHeader` writes the canonical 44-byte PCM header of the RIFF WAVE
  format into a fresh array, one indexed assignment after another.
- `convertImageToAudio` writes the bitmap as that header, then width and
  height as big-endian ints, then red, green and blue bytes per pixel in
  row-major order. It fills the pixel buffer in nested loops, then copies
  three buffers into one with `System.arraycopy`.
- `regenerateImageFromAudio` skips the 44 header bytes and reads the
  dimensions. It then creates a bitmap and sets every pixel to the opaque
  colour of the next three bytes.

The Java code runs step by step, so the model does too. The methods work over
Dafny arrays, with loop invariants. `Pixels.Bitmap` is a class whose
`pixels` array `SetPixel` updates in place. `Activity.MainActivity` is a class
holding the three nullable fields the handlers read and set. Each method is
proved against a pure specification function:
- `WavHeader.Header` specifies the header;
- `Codec.Encode` specifies the encoder's output;
- `Codec.Decode` specifies the decoder's outcome.

The lemmas prove the layout, the round trips and the decoder's error cases
about these functions.

Java semantics are spelled out in module `Bytes`:
- A `byte` is its unsigned bit pattern, 0..255. An `int` is an integer in
  [-2^31, 2^31 - 1].
- `Wrap32` and `JavaDiv` give Java's wrap-around multiplication and
  truncating division.
- `>>` is floor division by a power of two, and `(byte) x` is `x % 256`.
- An ARGB colour is its unsigned 32-bit pattern.

Where the decoder would throw, the model returns an error instead. The
`Codec.DecodeError` datatype lists these errors in the order the Java method
runs into them:
- the null return for at most 44 bytes;
- an out-of-bounds read of the dimensions;
- `createBitmap` refusing a non-positive dimension;
- an out-of-bounds read in the pixel loop.

## Model

| member | source | states |
|---|---|---|
| Bytes.Wrap32 | MagicPix_src/magicpix/MainActivity.java:316-318 | Java int arithmetic: the result is an int, agrees with the exact value modulo 2^32, and is the exact value whenever that fits in an int |
| Bytes.JavaDiv | MagicPix_src/magicpix/MainActivity.java:316-317 | Java's `/` truncates toward zero: the remainder a − q·b lies in [0, b) for a non-negative dividend and in (−b, 0] for a negative one |
| Bytes.LittleEndian32RoundTrip | MagicPix_src/magicpix/MainActivity.java:323-326 | the four `(byte)((v >> 8k) & 0xff)` bytes read back little-endian give v modulo 2^32, so v itself when v is non-negative |
| Bytes.BigEndian32RoundTrip | MagicPix_src/magicpix/MainActivity.java:296-303 | the four `(byte)(v >> 24)` … `(byte) v` bytes read back as the decoder reads them give v for every Java int |
| Bytes.ReadInt32BERoundTrip | MagicPix_src/magicpix/MainActivity.java:363-371 | the other direction: any four bytes the decoder reads as an int are written back unchanged by the encoder's big-endian packing |
| Bytes.ReadInt32BE | MagicPix_src/magicpix/MainActivity.java:363-366 | the four bytes shifted into one int, most significant first, is an int, negative exactly when the first byte has its top bit set |
| WavHeader.RiffPreamble | MagicPix_src/magicpix/MainActivity.java:322-327 | the RIFF chunk's tag, size and form type take 12 bytes |
| WavHeader.FmtChunk | MagicPix_src/magicpix/MainActivity.java:329-342 | the "fmt " chunk takes 24 bytes |
| WavHeader.DataPreamble | MagicPix_src/magicpix/MainActivity.java:344-348 | the "data" chunk's tag and size take 8 bytes |
| WavHeader.Header | MagicPix_src/magicpix/MainActivity.java:315-351 | the header is always exactly 44 bytes |
| WavHeader.HeaderInFileOrder | MagicPix_src/magicpix/MainActivity.java:320-348 | the header is its fields one after another in the order `createWavHeader` writes them |
| WavHeader.HeaderFields | MagicPix_src/magicpix/MainActivity.java:320-348 | each field sits at its offset: the tags, the little-endian RIFF size, sample rate, byte rate and data size, and the single-byte fields with their zero high bytes |
| WavHeader.HeaderLayout | MagicPix_src/magicpix/MainActivity.java:318-348 | tags "RIFF", "WAVE", "fmt ", "data" at 0, 8, 12, 36. Little-endian at 4–7 the data length + 36 and at 40–43 the data length. fmt size 16, format 1 (PCM), channels at 22, sample rate at 24–27, byte rate at 28–31, block align at 32, bit depth at 34; bytes 23, 33, 35 zero |
| WavHeader.HeaderParses | MagicPix_src/magicpix/MainActivity.java:315-351 | a reader of the canonical PCM header accepts every header and recovers each argument reduced to its field's width |
| WavHeader.CodecHeaderIsConsistent | MagicPix_src/magicpix/MainActivity.java:289-292 | with 44100 Hz, one channel, 8 bits the header reads back as a consistent PCM header: byte rate = sample rate × block align, block align = channels × bits / 8, RIFF size = data size + 36 |
| WavHeader.Put4 | MagicPix_src/magicpix/MainActivity.java:322 | four consecutive indexed assignments extend the filled prefix by those four bytes and leave every later byte unchanged |
| WavHeader.CreateWavHeader | MagicPix_src/magicpix/MainActivity.java:315-351 | returns a fresh array equal to `Header` of the arguments, for all Java int arguments, overflow included |
| Pixels.WithOpaqueAlpha | MagicPix_src/magicpix/MainActivity.java:383 | the colour with its alpha forced to 0xFF is opaque, and an opaque colour is unchanged |
| Pixels.ChannelsRebuild | MagicPix_src/magicpix/MainActivity.java:277-283 | rebuilding a colour from its red, green and blue bytes gives p with its low 24 bits kept and alpha 0xFF |
| Pixels.OpaqueColorChannels | MagicPix_src/magicpix/MainActivity.java:380-383 | the colour built from three bytes is opaque and its red, green and blue are those bytes |
| Pixels.PixelIndexInRange | MagicPix_src/magicpix/MainActivity.java:275-276 | y·width + x lies inside a width-by-height pixel sequence |
| Pixels.Bitmap.Snapshot | MagicPix_src/magicpix/MainActivity.java:269-270 | a valid bitmap seen as a value is well formed |
| Pixels.Bitmap.constructor | MagicPix_src/magicpix/MainActivity.java:374 | `createBitmap(w, h)` gives a fresh w-by-h bitmap, every pixel 0 |
| Pixels.Bitmap.Index | MagicPix_src/magicpix/MainActivity.java:277 | pixel (x, y) is stored inside the pixel array |
| Pixels.Bitmap.SetPixel | MagicPix_src/magicpix/MainActivity.java:384 | changes exactly the pixel at y·width + x |
| Codec.PixelDataLength | MagicPix_src/magicpix/MainActivity.java:271 | `width * height * 3` is three bytes per pixel and at least three times each dimension |
| Codec.PixelBytes | MagicPix_src/magicpix/MainActivity.java:273-285 | three bytes per pixel |
| Codec.DecodePixels | MagicPix_src/magicpix/MainActivity.java:377-386 | one pixel per three bytes, every one opaque |
| Codec.Decode | MagicPix_src/magicpix/MainActivity.java:354-389 | the decoder fails with TooShort exactly when the input has at most 44 bytes. A decoded bitmap is well formed, fits inside the input and is fully opaque |
| Codec.PixelCount | MagicPix_src/magicpix/MainActivity.java:271 | the pixel byte count is a positive multiple of 3 whose third is width × height |
| Codec.DimensionsAreInts | MagicPix_src/magicpix/MainActivity.java:269-271 | the dimensions of an encodable bitmap are positive ints and its pixel bytes number three per pixel |
| Codec.PixelBytesAppend | MagicPix_src/magicpix/MainActivity.java:282-284 | appending a pixel appends its red, green and blue bytes |
| Codec.PixelBytesPrefix | MagicPix_src/magicpix/MainActivity.java:282-284 | the bytes of the first k + 1 pixels are those of the first k followed by pixel k's red, green, blue |
| Codec.PixelBytesAt | MagicPix_src/magicpix/MainActivity.java:274-285 | pixel k's red, green and blue are bytes 3k, 3k + 1, 3k + 2 |
| Codec.RowInRange | MagicPix_src/magicpix/MainActivity.java:275-276 | row y occupies pixels y·width up to (y + 1)·width, inside the bitmap, and the last row ends at width·height |
| Codec.DecodePixelsAppend | MagicPix_src/magicpix/MainActivity.java:380-384 | three more bytes decode to one more opaque pixel at the end |
| Codec.DecodePixelsPrefix | MagicPix_src/magicpix/MainActivity.java:380-384 | extending a byte slice by three bytes extends its decoding by their colour |
| Codec.DecodeStep | MagicPix_src/magicpix/MainActivity.java:380-384 | setting pixel k to the colour of the next three bytes extends the decoded prefix by one pixel |
| Codec.DecodePixelBytes | MagicPix_src/magicpix/MainActivity.java:277-284 | decoding the pixel bytes of colours gives those colours with alpha forced to 0xFF |
| Codec.PixelBytesOfDecoded | MagicPix_src/magicpix/MainActivity.java:380-383 | the other direction: re-encoding decoded pixels gives the bytes back |
| Codec.EncodeLayout | MagicPix_src/magicpix/MainActivity.java:271-309 | the output has length 52 + 3·w·h and is the header, width and height big-endian, then the pixel bytes. Its header parses as 44100 Hz mono 8-bit PCM whose data size is 3·w·h, 8 less than the bytes after the header |
| Codec.EncodeTail | MagicPix_src/magicpix/MainActivity.java:295-309 | after the header come the eight dimension bytes and then the pixel bytes, nothing else |
| Codec.EncodedPixelAt | MagicPix_src/magicpix/MainActivity.java:274-285 | pixel (x, y) is stored at 52 + 3·(y·width + x) as its red, green and blue bytes |
| Codec.DecodeAccepts | MagicPix_src/magicpix/MainActivity.java:357-386 | any input with two positive big-endian dimensions after the header and enough pixel bytes decodes to that many decoded pixels |
| Codec.RoundTrip | MagicPix_src/magicpix/MainActivity.java:363-386 | decoding an encoded bitmap gives the same width and height and every pixel as the original's red, green and blue with alpha 0xFF |
| Codec.RoundTripPixels | MagicPix_src/magicpix/MainActivity.java:380-384 | the round trip pixel by pixel: `getPixel(x, y)` of the result is the original pixel with alpha forced to 0xFF |
| Codec.DecodedIsEncodable | MagicPix_src/magicpix/MainActivity.java:354-389 | every bitmap the decoder accepts from an int-length array is one the encoder handles without overflow |
| Codec.EncodeRestoresBytes | MagicPix_src/magicpix/MainActivity.java:295-309 | re-encoding a decoded bitmap reproduces every byte the decoder read, bytes 44 up to the last pixel |
| Codec.DecodeEncodeDecode | MagicPix_src/magicpix/MainActivity.java:354-389 | decode, encode, decode gives the first decoding again |
| Codec.DecodeIgnoresHeader | MagicPix_src/magicpix/MainActivity.java:356-371 | inputs that differ only in bytes 0–43 decode alike, so the RIFF and WAVE tags are never checked |
| Codec.DecodeIgnoresTrailingBytes | MagicPix_src/magicpix/MainActivity.java:377-386 | bytes after the last pixel do not change a successful decoding |
| Codec.EncodeFromParts | MagicPix_src/magicpix/MainActivity.java:306-309 | the encoder's output is its header, dimension bytes and pixel bytes side by side |
| Codec.ArrayCopy | MagicPix_src/magicpix/MainActivity.java:307-309 | `System.arraycopy` between two arrays: the target range receives the source range and nothing else changes |
| Codec.ExtractRow | MagicPix_src/magicpix/MainActivity.java:276-285 | one row of the loop extends the filled prefix to the pixel bytes of all pixels through that row and leaves the bytes after it unchanged |
| Codec.ExtractPixelData | MagicPix_src/magicpix/MainActivity.java:271-286 | the nested loops fill a fresh buffer with exactly `PixelBytes` of the bitmap's pixels |
| Codec.EncodeDimensions | MagicPix_src/magicpix/MainActivity.java:295-303 | a fresh array of eight bytes, width and height big-endian |
| Codec.Combine | MagicPix_src/magicpix/MainActivity.java:306-309 | a fresh array holding the header, dimensions and pixel bytes concatenated |
| Codec.ConvertImageToAudio | MagicPix_src/magicpix/MainActivity.java:268-312 | the returned array is fresh and is exactly `Encode` of the bitmap |
| Codec.FillRow | MagicPix_src/magicpix/MainActivity.java:379-385 | one row sets its pixels to the decoding of its bytes, or stops exactly when the row's bytes run past the end of the array; the pixels of later rows are unchanged |
| Codec.FillPixels | MagicPix_src/magicpix/MainActivity.java:377-386 | the loops complete iff the array holds 52 + 3·w·h bytes, and then the bitmap holds exactly the decoded pixels |
| Codec.RegenerateImageFromAudio | MagicPix_src/magicpix/MainActivity.java:354-389 | the method's outcome agrees with `Decode` in every case: the same error, or a fresh valid bitmap whose contents are the decoded image |
| Activity.MainActivity.constructor | MagicPix_src/magicpix/MainActivity.java:34-36 | a fresh activity holds no image, no audio and no regenerated image |
| Activity.MainActivity.OnImagePicked | MagicPix_src/magicpix/MainActivity.java:41-57 | the picked bitmap, or null, becomes the selected image; nothing else changes |
| Activity.MainActivity.OnConvertToAudio | MagicPix_src/magicpix/MainActivity.java:147-154 | with an image, the audio bytes become its encoding and "converted" is shown; without one, only "select an image" is shown |
| Activity.MainActivity.OnAudioLoaded | MagicPix_src/magicpix/MainActivity.java:62-80 | the loaded bytes are kept. A decodable input yields a fresh bitmap holding the decoded image, so it never aliases the selected image. Too short an input clears the image and shows the invalid-data and regenerated messages. Any other error escapes the handler |
| Activity.MainActivity.OnSaveAudio | MagicPix_src/magicpix/MainActivity.java:164-174 | the save dialog opens iff there are audio bytes, otherwise "no audio data" is shown |
| Activity.MainActivity.OnAudioTargetChosen | MagicPix_src/magicpix/MainActivity.java:86-101 | the audio bytes are written iff the result carries a file address and there are bytes; then "audio saved" is shown, otherwise "no audio data" |
| Activity.MainActivity.OnSaveImage | MagicPix_src/magicpix/MainActivity.java:177-187 | the save dialog opens iff there is a regenerated image |
| Activity.MainActivity.OnImageTargetChosen | MagicPix_src/magicpix/MainActivity.java:107-122 | the regenerated image is saved iff the result carries a file address and there is one, and what is saved is fully opaque; then "image saved" is shown, otherwise "regenerate the image first" |

## Left out

- Android plumbing is not modelled. That covers the result launchers' intent checks, content-resolver streams, `IOException` handling, toasts' text, views, the permission checks and requests (`MainActivity.java:197-259`), `onCreate` wiring and the help button. Handlers take the picked bitmap, the loaded bytes or whether a dialog result carries a file address as parameters and return the messages and dialogs as effects.
- Activity.MainActivity.OnAudioLoaded: the bytes are taken as given, because `inputStream.available()` followed by a single `read` (`MainActivity.java:67-68`) is stream I/O.
- `BitmapFactory.decodeStream` and `Bitmap.compress` are foreign library calls. The picked image arrives as a parameter and the saved image is returned as a value.
- Pixels.Bitmap.constructor: an out-of-memory failure of `createBitmap` for huge dimensions is not modelled; only its refusal of non-positive dimensions is, as `InvalidDimensions`.
- Codec.ConvertImageToAudio: requires that the whole output length fit in a Java int (`Encodable`). Java's `width * height * 3` overflow for larger bitmaps (`MainActivity.java:271`) is not modelled. Activity.MainActivity.OnConvertToAudio inherits the same requirement.
- Codec.RegenerateImageFromAudio: where the Java loop throws part-way, the partly filled bitmap is discarded. The model returns the error without it.
- Codec.ArrayCopy: requires the two arrays to be distinct, which every call in the codec satisfies; overlapping copies are not modelled.
- The nested loops of both codec methods are split into a row method and a rows method (`ExtractRow`/`ExtractPixelData`, `FillRow`/`FillPixels`). Each keeps the Java loop's order and index arithmetic.
- The message texts are abstracted to the `Message` datatype. The "saved" messages are `AudioSaved` and `ImageSaved`; the file address Java appends to them is not modelled.
- Activity.MainActivity.OnAudioTargetChosen and Activity.MainActivity.OnImageTargetChosen: they model only a dialog result with RESULT_OK and an intent (`MainActivity.java:87, 108`). A cancelled dialog runs no code in Java, so it has no handler here.
- `WizVid_src/wizvid.py` is not part of this model. It is a PyQt6 front end over `yt_dlp` with no separable logic.
