/** The 44-byte header `createWavHeader` writes: the canonical header of a
    PCM file in the RIFF WAVE format (a "RIFF" chunk of form type "WAVE"
    holding a 16-byte "fmt " chunk and then a "data" chunk). */
module WavHeader {
  import opened Bytes
  import opened Outcomes

  const HEADER_SIZE: nat := 44
  /** Bytes of the header after the RIFF chunk's tag and size field. */
  const RIFF_OVERHEAD: int := 36

  /** The chunk tags, one `(byte) c` per character. */
  const RIFF_TAG: seq<byte> := ['R' as int, 'I' as int, 'F' as int, 'F' as int]
  const WAVE_TAG: seq<byte> := ['W' as int, 'A' as int, 'V' as int, 'E' as int]
  const FMT_TAG: seq<byte> := ['f' as int, 'm' as int, 't' as int, ' ' as int]
  const DATA_TAG: seq<byte> := ['d' as int, 'a' as int, 't' as int, 'a' as int]

  /** The arguments are Java ints; the header is defined for all of them. */
  predicate HeaderArgs(audioDataLength: int, sampleRate: int, numChannels: int, bitDepth: int) {
    IsInt32(audioDataLength) && IsInt32(sampleRate) && IsInt32(numChannels) && IsInt32(bitDepth)
  }

  /** `sampleRate * numChannels * bitDepth / 8` evaluated on Java ints. */
  function ByteRate(sampleRate: int, numChannels: int, bitDepth: int): (r: int)
    requires IsInt32(sampleRate) && IsInt32(numChannels) && IsInt32(bitDepth)
    ensures IsInt32(r)
  {
    JavaDiv(Wrap32(Wrap32(sampleRate * numChannels) * bitDepth), 8)
  }

  /** `numChannels * bitDepth / 8` evaluated on Java ints. */
  function BlockAlign(numChannels: int, bitDepth: int): (r: int)
    requires IsInt32(numChannels) && IsInt32(bitDepth)
    ensures IsInt32(r)
  {
    JavaDiv(Wrap32(numChannels * bitDepth), 8)
  }

  /** The RIFF chunk's tag, its size (the data length + 36) and the form type. */
  function RiffPreamble(audioDataLength: int): (r: seq<byte>)
    requires IsInt32(audioDataLength)
    ensures |r| == 12
  {
    RIFF_TAG + LittleEndian32(Wrap32(audioDataLength + RIFF_OVERHEAD)) + WAVE_TAG
  }

  /** The 24-byte "fmt " chunk of PCM data. */
  function FmtChunk(sampleRate: int, numChannels: int, bitDepth: int): (r: seq<byte>)
    requires IsInt32(sampleRate) && IsInt32(numChannels) && IsInt32(bitDepth)
    ensures |r| == 24
  {
    FMT_TAG + [16, 0, 0, 0] + [1, 0] + [LowByte(numChannels), 0]
    + LittleEndian32(sampleRate) + LittleEndian32(ByteRate(sampleRate, numChannels, bitDepth))
    + [LowByte(BlockAlign(numChannels, bitDepth)), 0] + [LowByte(bitDepth), 0]
  }

  /** The "data" chunk's tag and size. */
  function DataPreamble(audioDataLength: int): (r: seq<byte>)
    requires IsInt32(audioDataLength)
    ensures |r| == 8
  {
    DATA_TAG + LittleEndian32(audioDataLength)
  }

  /** The header as a value, field by field in file order. */
  function Header(audioDataLength: int, sampleRate: int, numChannels: int, bitDepth: int): (h: seq<byte>)
    requires HeaderArgs(audioDataLength, sampleRate, numChannels, bitDepth)
    ensures |h| == HEADER_SIZE
  {
    RiffPreamble(audioDataLength) + FmtChunk(sampleRate, numChannels, bitDepth) + DataPreamble(audioDataLength)
  }

  /** The fields of a canonical PCM WAVE header, as a reader of the format
      finds them. */
  datatype PcmFormat = PcmFormat(
    riffSize: int,
    audioFormat: int,
    numChannels: int,
    sampleRate: int,
    byteRate: int,
    blockAlign: int,
    bitsPerSample: int,
    dataSize: int)

  /** A reader of the canonical 44-byte PCM WAVE header: the tags must be in
      place and the "fmt " chunk 16 bytes long; every number is little-endian
      and unsigned. */
  function ParseHeader(h: seq<byte>): Option<PcmFormat> {
    if |h| < HEADER_SIZE || h[0..4] != RIFF_TAG || h[8..12] != WAVE_TAG
       || h[12..16] != FMT_TAG || ReadUInt32LE(h[16..20]) != 16 || h[36..40] != DATA_TAG
    then None
    else Some(PcmFormat(
      ReadUInt32LE(h[4..8]), ReadUInt16LE(h[20..22]), ReadUInt16LE(h[22..24]),
      ReadUInt32LE(h[24..28]), ReadUInt32LE(h[28..32]), ReadUInt16LE(h[32..34]),
      ReadUInt16LE(h[34..36]), ReadUInt32LE(h[40..44])))
  }

  /** The header is its fields concatenated one after another in file order. */
  lemma HeaderInFileOrder(audioDataLength: int, sampleRate: int, numChannels: int, bitDepth: int)
    requires HeaderArgs(audioDataLength, sampleRate, numChannels, bitDepth)
    ensures Header(audioDataLength, sampleRate, numChannels, bitDepth)
      == RIFF_TAG + LittleEndian32(Wrap32(audioDataLength + RIFF_OVERHEAD)) + WAVE_TAG
         + FMT_TAG + [16, 0, 0, 0] + [1, 0] + [LowByte(numChannels), 0]
         + LittleEndian32(sampleRate) + LittleEndian32(ByteRate(sampleRate, numChannels, bitDepth))
         + [LowByte(BlockAlign(numChannels, bitDepth)), 0] + [LowByte(bitDepth), 0]
         + DATA_TAG + LittleEndian32(audioDataLength)
  {
  }

  /** Where each field of the header sits. */
  lemma HeaderFields(audioDataLength: int, sampleRate: int, numChannels: int, bitDepth: int)
    requires HeaderArgs(audioDataLength, sampleRate, numChannels, bitDepth)
    ensures var h := Header(audioDataLength, sampleRate, numChannels, bitDepth);
      && h[0..4] == RIFF_TAG && h[4..8] == LittleEndian32(Wrap32(audioDataLength + RIFF_OVERHEAD))
      && h[8..12] == WAVE_TAG && h[12..16] == FMT_TAG && h[16..20] == [16, 0, 0, 0]
      && h[20..22] == [1, 0] && h[22] == LowByte(numChannels) && h[23] == 0
      && h[24..28] == LittleEndian32(sampleRate)
      && h[28..32] == LittleEndian32(ByteRate(sampleRate, numChannels, bitDepth))
      && h[32] == LowByte(BlockAlign(numChannels, bitDepth)) && h[33] == 0
      && h[34] == LowByte(bitDepth) && h[35] == 0
      && h[36..40] == DATA_TAG && h[40..44] == LittleEndian32(audioDataLength)
  {
    var riff := RiffPreamble(audioDataLength);
    var fmt := FmtChunk(sampleRate, numChannels, bitDepth);
    var data := DataPreamble(audioDataLength);
    var h := Header(audioDataLength, sampleRate, numChannels, bitDepth);
    assert h[..12] == riff && h[12..36] == fmt && h[36..] == data;
  }

  /** Every header is 44 bytes with the four tags at offsets 0, 8, 12 and 36,
      the RIFF size (audioDataLength + 36) at 4..7 and the data size at
      40..43, little-endian, and the format fields at their offsets, the
      high byte of each 16-bit field zero. */
  lemma HeaderLayout(audioDataLength: int, sampleRate: int, numChannels: int, bitDepth: int)
    requires HeaderArgs(audioDataLength, sampleRate, numChannels, bitDepth)
    ensures var h := Header(audioDataLength, sampleRate, numChannels, bitDepth);
      && |h| == HEADER_SIZE
      && h[0..4] == RIFF_TAG && h[8..12] == WAVE_TAG
      && h[12..16] == FMT_TAG && h[36..40] == DATA_TAG
      && ReadUInt32LE(h[4..8]) == (audioDataLength + RIFF_OVERHEAD) % TWO_32
      && ReadUInt32LE(h[40..44]) == audioDataLength % TWO_32
      && ReadUInt32LE(h[16..20]) == 16 && ReadUInt16LE(h[20..22]) == 1
      && h[22] == LowByte(numChannels) && h[23] == 0
      && ReadUInt32LE(h[24..28]) == sampleRate % TWO_32
      && ReadUInt32LE(h[28..32]) == ByteRate(sampleRate, numChannels, bitDepth) % TWO_32
      && h[32] == LowByte(BlockAlign(numChannels, bitDepth)) && h[33] == 0
      && h[34] == LowByte(bitDepth) && h[35] == 0
  {
    HeaderFields(audioDataLength, sampleRate, numChannels, bitDepth);
    LittleEndian32RoundTrip(Wrap32(audioDataLength + RIFF_OVERHEAD));
    LittleEndian32RoundTrip(sampleRate);
    LittleEndian32RoundTrip(ByteRate(sampleRate, numChannels, bitDepth));
    LittleEndian32RoundTrip(audioDataLength);
  }

  /** A reader of the format accepts every header and finds in it the
      arguments, each reduced to the width of its field. */
  lemma HeaderParses(audioDataLength: int, sampleRate: int, numChannels: int, bitDepth: int)
    requires HeaderArgs(audioDataLength, sampleRate, numChannels, bitDepth)
    ensures ParseHeader(Header(audioDataLength, sampleRate, numChannels, bitDepth))
      == Some(PcmFormat(
           (audioDataLength + RIFF_OVERHEAD) % TWO_32, 1, numChannels % 0x100,
           sampleRate % TWO_32, ByteRate(sampleRate, numChannels, bitDepth) % TWO_32,
           BlockAlign(numChannels, bitDepth) % 0x100, bitDepth % 0x100,
           audioDataLength % TWO_32))
  {
    HeaderLayout(audioDataLength, sampleRate, numChannels, bitDepth);
  }

  /** With the codec's parameters (44100 Hz, one channel, 8 bits) and a data
      length that leaves room for the RIFF size in an int, the header is a
      consistent PCM header: the byte rate is the sample rate times the block
      align, the block align is channels times bytes per sample, and the RIFF
      size is the data size plus 36. */
  lemma CodecHeaderIsConsistent(audioDataLength: int)
    requires 0 <= audioDataLength <= INT_MAX - RIFF_OVERHEAD
    ensures ParseHeader(Header(audioDataLength, 44100, 1, 8))
      == Some(PcmFormat(audioDataLength + RIFF_OVERHEAD, 1, 1, 44100, 44100, 1, 8, audioDataLength))
    ensures var f := ParseHeader(Header(audioDataLength, 44100, 1, 8)).value;
      && f.byteRate == f.sampleRate * f.blockAlign
      && f.blockAlign == f.numChannels * f.bitsPerSample / 8
      && f.riffSize == f.dataSize + RIFF_OVERHEAD
  {
    HeaderParses(audioDataLength, 44100, 1, 8);
    var parsed := ParseHeader(Header(audioDataLength, 44100, 1, 8));
    assert ByteRate(44100, 1, 8) == 44100 by {
      assert Wrap32(44100 * 1) == 44100 && Wrap32(44100 * 8) == 352800;
    }
    assert BlockAlign(1, 8) == 1 by {
      assert Wrap32(1 * 8) == 8;
    }
    assert (audioDataLength + RIFF_OVERHEAD) % TWO_32 == audioDataLength + RIFF_OVERHEAD by {
      DivisionUnique(audioDataLength + RIFF_OVERHEAD, TWO_32, 0, audioDataLength + RIFF_OVERHEAD);
    }
    assert audioDataLength % TWO_32 == audioDataLength by {
      DivisionUnique(audioDataLength, TWO_32, 0, audioDataLength);
    }
    assert parsed == Some(PcmFormat(audioDataLength + RIFF_OVERHEAD, 1, 1, 44100, 44100, 1, 8, audioDataLength));
  }

  /** Four consecutive indexed assignments `a[off] = ...; ...; a[off + 3] = ...`
      of `createWavHeader`. */
  method Put4(a: array<byte>, off: nat, b0: byte, b1: byte, b2: byte, b3: byte)
    requires off + 4 <= a.Length
    modifies a
    ensures a[..off + 4] == old(a[..off]) + [b0, b1, b2, b3]
    ensures forall i :: off + 4 <= i < a.Length ==> a[i] == old(a[i])
  {
    a[off] := b0;
    a[off + 1] := b1;
    a[off + 2] := b2;
    a[off + 3] := b3;
  }

  /** `createWavHeader`: fills a fresh 44-byte array field by field; every
      little-endian field is written `(byte)(v & 0xff)`, `(byte)((v >> 8) & 0xff)`,
      `(byte)((v >> 16) & 0xff)`, `(byte)((v >> 24) & 0xff)`. */
  method CreateWavHeader(audioDataLength: int, sampleRate: int, numChannels: int, bitDepth: int)
    returns (header: array<byte>)
    requires HeaderArgs(audioDataLength, sampleRate, numChannels, bitDepth)
    ensures fresh(header)
    ensures header[..] == Header(audioDataLength, sampleRate, numChannels, bitDepth)
  {
    var byteRate := ByteRate(sampleRate, numChannels, bitDepth);
    var blockAlign := BlockAlign(numChannels, bitDepth);
    var totalDataLen := Wrap32(audioDataLength + RIFF_OVERHEAD);

    header := new byte[HEADER_SIZE];
    ghost var written: seq<byte>;  // what the filled prefix holds
    Put4(header, 0, 'R' as int, 'I' as int, 'F' as int, 'F' as int);
    written := RIFF_TAG;
    assert header[..4] == written;
    Put4(header, 4, LowByte(totalDataLen), LowByte(totalDataLen / 0x100),
         LowByte(totalDataLen / 0x1_0000), LowByte(totalDataLen / 0x100_0000));
    written := written + LittleEndian32(totalDataLen);
    assert header[..8] == written;
    Put4(header, 8, 'W' as int, 'A' as int, 'V' as int, 'E' as int);
    written := written + WAVE_TAG;
    assert header[..12] == written;
    Put4(header, 12, 'f' as int, 'm' as int, 't' as int, ' ' as int);
    written := written + FMT_TAG;
    assert header[..16] == written;
    Put4(header, 16, 16, 0, 0, 0);                               // size of the fmt chunk
    written := written + [16, 0, 0, 0];
    assert header[..20] == written;
    Put4(header, 20, 1, 0, LowByte(numChannels), 0);             // format 1 and the channel count
    written := written + [1, 0] + [LowByte(numChannels), 0];
    assert header[..24] == written;
    Put4(header, 24, LowByte(sampleRate), LowByte(sampleRate / 0x100),
         LowByte(sampleRate / 0x1_0000), LowByte(sampleRate / 0x100_0000));
    written := written + LittleEndian32(sampleRate);
    assert header[..28] == written;
    Put4(header, 28, LowByte(byteRate), LowByte(byteRate / 0x100),
         LowByte(byteRate / 0x1_0000), LowByte(byteRate / 0x100_0000));
    written := written + LittleEndian32(byteRate);
    assert header[..32] == written;
    Put4(header, 32, LowByte(blockAlign), 0, LowByte(bitDepth), 0);  // blockAlign and bitDepth, high bytes zero
    written := written + [LowByte(blockAlign), 0] + [LowByte(bitDepth), 0];
    assert header[..36] == written;
    Put4(header, 36, 'd' as int, 'a' as int, 't' as int, 'a' as int);
    written := written + DATA_TAG;
    assert header[..40] == written;
    Put4(header, 40, LowByte(audioDataLength), LowByte(audioDataLength / 0x100),
         LowByte(audioDataLength / 0x1_0000), LowByte(audioDataLength / 0x100_0000));
    written := written + LittleEndian32(audioDataLength);
    assert header[..] == written;
    HeaderInFileOrder(audioDataLength, sampleRate, numChannels, bitDepth);
  }
}
