/**
 * The sample counts the stream operations derive from a header or a frame
 * count: the samples before the loop start, the samples of one loop pass,
 * and the samples of `count` frames. The library computes each of them in
 * 32-bit unsigned arithmetic and stores the result in a 64-bit variable;
 * the `AsWritten` functions keep that arithmetic, the others compute the
 * counts the 64-bit variables are meant to hold, and the stream operations
 * use the latter.
 */
module Counts {
  import opened Layout
  import opened HeaderCodec

  const U64Modulus: int := 0x1_0000_0000_0000_0000

  /** Reduction modulo 2^64, as unsigned 64-bit C arithmetic does. */
  function Wrap64(x: int): (r: nat)
    ensures r < U64Modulus
    ensures 0 <= x < U64Modulus ==> r == x
    ensures (r - x) % U64Modulus == 0
  {
    x % U64Modulus
  }

  /**
   * Samples before the loop start: one block per mark block. For a header
   * that passes the check they never run past the stream.
   */
  function MarkSamples(h: Header): (r: nat)
    ensures HeaderCheck(h) == None ==> r <= h.length * ToChannelCount(h.format)
  {
    HeaderCheckAccepts(h);
    var channelCount := ToChannelCount(h.format);
    assert HeaderCheck(h) == None && channelCount == 1 ==> BlockSize * h.mark <= h.length * channelCount;
    assert HeaderCheck(h) == None && channelCount == 2 ==> BlockSize * h.mark <= h.length * channelCount;
    BlockSize * h.mark
  }

  /**
   * Samples of one loop pass: from the loop start to the stream end. When
   * the loop start lies within the stream, they and the samples before it
   * make up the stream.
   */
  function LoopLength(h: Header, channelCount: nat): (r: nat)
    ensures channelCount <= 2 && MarkSamples(h) <= h.length * channelCount ==>
      MarkSamples(h) + r == h.length * channelCount
  {
    assert channelCount <= 2 ==> h.length * channelCount <= 2 * h.length;
    Wrap64(h.length * channelCount - MarkSamples(h))
  }

  /** Samples in `count` frames: whole frames, `count` of them. */
  function StreamSamples(count: u32, channelCount: nat): (r: nat)
    ensures channelCount == 1 || channelCount == 2 ==> r / channelCount == count && r % channelCount == 0
  {
    count * channelCount
  }

  /** The mark's samples, as the library computes them: the intended count modulo 2^32. */
  function MarkSamplesAsWritten(h: Header): (r: u32)
    ensures r == MarkSamples(h) % U32Modulus
  {
    Wrap32(BlockSize * h.mark)
  }

  /**
   * One loop pass's samples, as the library computes them: both products and
   * their difference modulo 2^32, which is the intended count modulo 2^32.
   */
  function LoopLengthAsWritten(h: Header, channelCount: nat): (r: u32)
    ensures r == LoopLength(h, channelCount) % U32Modulus
  {
    WrapDifference(h.length * channelCount, BlockSize * h.mark);
    Wrap32(Wrap32(h.length * channelCount) - Wrap32(BlockSize * h.mark))
  }

  /** Adding whole multiples of 2^32 leaves the residue modulo 2^32 alone. */
  lemma ShiftWrap32(x: int, k: int)
    ensures (x + k * U32Modulus) % U32Modulus == x % U32Modulus
  {
  }

  /**
   * The difference of two 32-bit residues, taken modulo 2^32, is the 64-bit
   * difference taken modulo 2^32.
   */
  lemma WrapDifference(a: int, b: int)
    ensures Wrap32(Wrap32(a) - Wrap32(b)) == Wrap64(a - b) % U32Modulus
  {
    ShiftWrap32(a - b, b / U32Modulus - a / U32Modulus);
    var q := (a - b) / U64Modulus;
    assert a - b == Wrap64(a - b) + (q * U32Modulus) * U32Modulus;
    ShiftWrap32(Wrap64(a - b), q * U32Modulus);
  }

  /** `count` frames' samples, as the library computes them: the intended count modulo 2^32. */
  function StreamSamplesAsWritten(count: u32, channelCount: nat): (r: u32)
    ensures r == StreamSamples(count, channelCount) % U32Modulus
  {
    Wrap32(count * channelCount)
  }

  /**
   * For a header that passes the check, the samples before the loop start
   * are the mark's whole frames, and they and one loop pass make up the
   * whole stream.
   */
  lemma LoopSplitsStream(h: Header)
    requires HeaderCheck(h) == None
    ensures var channelCount := ToChannelCount(h.format);
      && MarkSamples(h) == h.mark * BlockFrames(channelCount) * channelCount
      && MarkSamples(h) + LoopLength(h, channelCount) == h.length * channelCount
  {
    var channelCount := ToChannelCount(h.format);
    HeaderCheckAccepts(h);
    assert h.mark * BlockFrames(channelCount) <= h.length;
    if channelCount == 1 {
      assert MarkSamples(h) == h.mark * BlockFrames(channelCount) * channelCount;
    } else {
      assert BlockFrames(channelCount) == 512;
      assert MarkSamples(h) == h.mark * BlockFrames(channelCount) * channelCount;
    }
    assert 0 <= h.length * channelCount - MarkSamples(h) < U64Modulus;
  }

  /** For mono, every header that passes the check gets the intended counts from the 32-bit arithmetic. */
  lemma MonoCountsAgree(h: Header, count: u32)
    requires h.format == FormatMono && HeaderCheck(h) == None
    ensures MarkSamplesAsWritten(h) == MarkSamples(h)
    ensures LoopLengthAsWritten(h, 1) == LoopLength(h, 1)
    ensures StreamSamplesAsWritten(count, 1) == StreamSamples(count, 1)
  {
    HeaderCheckAccepts(h);
    assert BlockSize * h.mark <= h.length;
  }

  /**
   * For stereo the 32-bit products wrap on headers that pass the check: a
   * mark of 2^22 blocks asks for 2^32 samples before the loop start but
   * gets none, a loop of 2^31 frames from the start asks for 2^32 samples
   * per pass but gets none, and 2^31 frames ask for 2^32 samples but get
   * none.
   */
  lemma StereoCountsWrap()
    ensures var h := Header(FormatStereo, 0x40_0000, 0x8000_0000, [0, 0, 0, 0, 0, 0], 0, 0, [0, 0, 0], 0);
      && HeaderCheck(h) == None
      && MarkSamples(h) == 0x1_0000_0000 && MarkSamplesAsWritten(h) == 0
    ensures var h := Header(FormatStereo, 0, 0x8000_0000, [0, 0, 0, 0, 0, 0], 0, 0, [0, 0, 0], 0);
      && HeaderCheck(h) == None
      && LoopLength(h, 2) == 0x1_0000_0000 && LoopLengthAsWritten(h, 2) == 0
    ensures StreamSamples(0x8000_0000, 2) == 0x1_0000_0000 && StreamSamplesAsWritten(0x8000_0000, 2) == 0
  {
  }
}
