/**
 * Sizes, formats and the fixed-width integer types of the game PCM container.
 *
 * A block is 1024 consumer samples of one channel; a sector is 2048 bytes on
 * disk, one padding byte before each 8-bit sample. Only the 8-bit profile
 * (one sample byte, one padding byte) is modelled.
 */
module Layout {

  /** One unsigned byte. Bit masks on it are written arithmetically (`b & 0x7f` is `b % 0x80`). */
  type byte = x: int | 0 <= x < 0x100
  type u16 = x: int | 0 <= x < 0x1_0000
  type u32 = x: int | 0 <= x < 0x1_0000_0000

  const U32Max: int := 0xFFFF_FFFF
  const U32Modulus: int := 0x1_0000_0000

  /** Sample size in bytes. */
  const SampleBytes: nat := 1
  /** Padding bytes in front of each sample. */
  const SampleBytesPad: nat := 2 - SampleBytes
  /** Block size in bytes and, for 8-bit samples, in samples. */
  const BlockBytes: nat := SampleBytes * 1024
  const BlockSamples: nat := BlockBytes / SampleBytes
  const BlockSize: nat := 1024
  /** Sector size in bytes. */
  const SectorBytes: nat := 2048
  const SectorSize: nat := 2048
  /** Blocks per sector, also the on-disk bytes per sample. */
  const SectorBlocks: nat := SectorBytes / BlockBytes

  /** Stream formats: the codes are 1 for stereo and 2 for mono. */
  const FormatStereo: u16 := 1
  const FormatMono: u16 := 2

  /** Consumer PCM sample origin (unsigned 8-bit PCM). */
  const Origin: byte := 0x80

  /** The layout constants agree with each other. */
  lemma LayoutConstants()
    ensures SampleBytesPad == 1
    ensures BlockBytes == BlockSamples == BlockSize == 1024
    ensures SectorBytes == SectorSize == 2048
    ensures SectorBlocks == 2 && SectorSize == BlockSize * (SampleBytes + SampleBytesPad)
  {
  }

  /** Reduction modulo 2^32, as unsigned 32-bit C arithmetic does. */
  function Wrap32(x: int): (r: u32)
    ensures 0 <= x < U32Modulus ==> r == x
    ensures (r - x) % U32Modulus == 0
  {
    x % U32Modulus
  }

  /** Translates a stream format to its channel count; 0 for an unknown format. */
  function ToChannelCount(format: u16): (cc: u16)
    ensures cc <= 2
    ensures cc != 0 <==> format == FormatStereo || format == FormatMono
  {
    if format == FormatMono then 1
    else if format == FormatStereo then 2
    else 0
  }

  /** Translates a channel count to its stream format; 0 for an unsupported count. */
  function ToFormat(channelCount: u16): (f: u16)
    ensures f != 0 <==> channelCount == 1 || channelCount == 2
  {
    if channelCount == 1 then FormatMono
    else if channelCount == 2 then FormatStereo
    else 0
  }

  /** The two translations are mutually inverse on {stereo, mono} and {2, 1}. */
  lemma FormatRoundTrip(format: u16, channelCount: u16)
    ensures ToChannelCount(format) != 0 ==> ToFormat(ToChannelCount(format)) == format
    ensures ToFormat(channelCount) != 0 ==> ToChannelCount(ToFormat(channelCount)) == channelCount
    ensures ToChannelCount(FormatMono) == 1 && ToChannelCount(FormatStereo) == 2
  {
  }

  /**
   * The smaller of two unbounded integers, for byte counts, room and sample
   * counts. The stream code never calls the fixed-width `min_*` helpers of
   * `MathOps`, whose arguments are 8- to 64-bit values, so it takes this one.
   */
  function Min(a: int, b: int): (r: int)
    ensures r <= a && r <= b && (r == a || r == b)
  {
    if a < b then a else b
  }
}
