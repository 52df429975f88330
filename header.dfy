/**
 * Header codec and validator. The header is one sector: big-endian format
 * (u16 at 0), mark (u32 at 2) and length (u32 at 6), then the echo fields
 * and the pregap at 10..21, then zeros up to 2048.
 */
module HeaderCodec {
  import opened Layout

  type Pans = s: seq<byte> | |s| == 6 witness [0, 0, 0, 0, 0, 0]
  type Levels = s: seq<byte> | |s| == 3 witness [0, 0, 0]

  /** The header record. */
  datatype Header = Header(
    format: u16,      // 1: stereo, 2: mono
    mark: u32,        // loop start, in blocks
    length: u32,      // frames from stream start to loop end
    echoPans: Pans,   // pans of channels 3 to 8, passed through
    echoPregap: byte, // first echo delay in ticks, passed through
    echoDelay: byte,  // echo delay in ticks, passed through
    echoLevels: Levels, // levels of channel pairs, passed through
    pregap: byte      // silent blocks before the stream
  )

  /** Offset of the zero padding after the fields. */
  const FieldBytes: nat := 22

  /** The two big-endian bytes of a 16-bit value. */
  function BigEndian16(x: u16): (b: seq<byte>)
    ensures |b| == 2 && (b[0] as int) * 0x100 + b[1] == x
  {
    [x / 0x100, x % 0x100]
  }

  /** The four big-endian bytes of a 32-bit value: its high half, then its low half. */
  function BigEndian32(x: u32): (b: seq<byte>)
    ensures |b| == 4
    ensures b[..2] == BigEndian16(x / 0x1_0000) && b[2..] == BigEndian16(x % 0x1_0000)
  {
    BigEndian16(x / 0x1_0000) + BigEndian16(x % 0x1_0000)
  }

  /** The unsigned 16-bit value of two big-endian bytes at `at`. */
  function ReadBigEndian16(s: seq<byte>, at: nat): (x: u16)
    requires at + 2 <= |s|
    ensures BigEndian16(x) == s[at..at + 2]
  {
    (s[at] as int) * 0x100 + s[at + 1]
  }

  /** The unsigned 32-bit value of four big-endian bytes at `at`. */
  function ReadBigEndian32(s: seq<byte>, at: nat): (x: u32)
    requires at + 4 <= |s|
    ensures BigEndian32(x) == s[at..at + 4]
  {
    var high := ReadBigEndian16(s, at);
    var low := ReadBigEndian16(s, at + 2);
    assert (high * 0x1_0000 + low) / 0x1_0000 == high && (high * 0x1_0000 + low) % 0x1_0000 == low;
    assert s[at..at + 4] == s[at..at + 2] + s[at + 2..at + 4];
    high * 0x1_0000 + low
  }

  /** The 22 bytes of the header fields, in sector order. */
  function HeaderFields(h: Header): (fields: seq<byte>)
    ensures |fields| == FieldBytes
  {
    BigEndian16(h.format) + BigEndian32(h.mark) + BigEndian32(h.length)
    + h.echoPans + [h.echoPregap, h.echoDelay] + h.echoLevels + [h.pregap]
  }

  /** The 2048 bytes of the header sector: the fields, then zeros. */
  function HeaderBytes(h: Header): (sector: seq<byte>)
    ensures |sector| == SectorSize
  {
    HeaderFields(h) + seq(SectorSize - FieldBytes, _ => 0)
  }

  /**
   * Decodes a header from a sector and returns it with the count of bytes
   * the decode accounts for, always one sector. Only bytes 0..21 are read.
   */
  function DecodeHeader(sector: seq<byte>): (r: (Header, nat))
    requires |sector| == SectorSize
    ensures r.1 == SectorSize
    ensures HeaderFields(r.0) == sector[..FieldBytes]
  {
    var h := Header(
      ReadBigEndian16(sector, 0),
      ReadBigEndian32(sector, 2),
      ReadBigEndian32(sector, 6),
      sector[10..16],
      sector[16],
      sector[17],
      sector[18..21],
      sector[21]);
    assert HeaderFields(h) == sector[..FieldBytes] by {
      assert HeaderFields(h)
        == sector[0..2] + sector[2..6] + sector[6..10] + sector[10..16] + [sector[16], sector[17]] + sector[18..21] + [sector[21]];
    }
    (h, SectorSize)
  }

  /**
   * Encodes `h` into the 2048-byte `sector` in place and returns the count
   * of bytes written, always one sector.
   */
  method EncodeHeader(h: Header, sector: array<byte>) returns (n: nat)
    requires sector.Length == SectorSize
    modifies sector
    ensures n == SectorSize
    ensures sector[..] == HeaderBytes(h)
  {
    var fields := HeaderFields(h);
    var index := 0;
    while index < FieldBytes
      invariant 0 <= index <= FieldBytes
      invariant sector[..index] == fields[..index]
    {
      sector[index] := fields[index];
      index := index + 1;
    }
    while index < SectorSize
      invariant FieldBytes <= index <= SectorSize
      invariant sector[..FieldBytes] == fields
      invariant forall j :: FieldBytes <= j < index ==> sector[j] == 0
    {
      sector[index] := 0;
      index := index + 1;
    }
    n := SectorSize;
    assert sector[..] == sector[..FieldBytes] + sector[FieldBytes..];
  }

  /** Decoding an encoded header gives back every field. */
  lemma HeaderRoundTrip(h: Header)
    ensures DecodeHeader(HeaderBytes(h)).0 == h
  {
    var s := HeaderBytes(h);
    var d := DecodeHeader(s).0;
    assert s[..FieldBytes] == HeaderBytes(d)[..FieldBytes];
    assert s[0..2] == BigEndian16(h.format) && HeaderBytes(d)[0..2] == BigEndian16(d.format);
    assert s[2..6] == BigEndian32(h.mark) && HeaderBytes(d)[2..6] == BigEndian32(d.mark);
    assert s[6..10] == BigEndian32(h.length) && HeaderBytes(d)[6..10] == BigEndian32(d.length);
    assert s[10..16] == h.echoPans && s[18..21] == h.echoLevels;
  }

  /** Decoding ignores the padding: sectors that agree on bytes 0..21 decode alike. */
  lemma DecodeHeaderIgnoresPadding(a: seq<byte>, b: seq<byte>)
    requires |a| == |b| == SectorSize
    requires a[..FieldBytes] == b[..FieldBytes]
    ensures DecodeHeader(a) == DecodeHeader(b)
  {
    assert a[0..2] == b[0..2] && a[2..6] == b[2..6] && a[6..10] == b[6..10];
    assert a[10..16] == b[10..16] && a[18..21] == b[18..21];
    assert a[16] == b[16] && a[17] == b[17] && a[21] == b[21];
  }

  /** A sector with zero padding is exactly the encoding of the header it decodes to. */
  lemma ZeroPaddedSectorRoundTrip(sector: seq<byte>)
    requires |sector| == SectorSize
    requires forall j :: FieldBytes <= j < SectorSize ==> sector[j] == 0
    ensures HeaderBytes(DecodeHeader(sector).0) == sector
  {
    var again := HeaderBytes(DecodeHeader(sector).0);
    assert again[..FieldBytes] == sector[..FieldBytes];
    assert again[FieldBytes..] == sector[FieldBytes..];
    assert again == again[..FieldBytes] + again[FieldBytes..];
    assert sector == sector[..FieldBytes] + sector[FieldBytes..];
  }

  /** The reasons a header is rejected. */
  datatype CheckError = InvalidFormat | MarkTooLarge | LengthTooShort

  /**
   * The message the library reports for each rejection. The loop check
   * reports the zero-length message; the loop message is never used.
   */
  function Message(e: CheckError): (m: string)
    ensures m != LoopMessage
  {
    match e
    case InvalidFormat => "The format is invalid."
    case MarkTooLarge => "The loop start position is more than the logical maximum."
    case LengthTooShort => "The length is zero."
  }

  /** The loop message the library defines but never reports. */
  const LoopMessage: string := "The stream length is less than or equal to the loop start position."

  /** Each rejection reports its own message, so the message tells the reason. */
  lemma MessageInjective(a: CheckError, b: CheckError)
    ensures Message(a) == Message(b) ==> a == b
  {
    if a != b {
      assert |Message(a)| != |Message(b)|;
    }
  }

  /** Frames per block for a channel count. */
  function BlockFrames(channelCount: nat): (frames: nat)
    requires channelCount == 1 || channelCount == 2
    ensures frames * channelCount == BlockSize && frames > 0
  {
    BlockSize / channelCount
  }

  /**
   * Checks a header; on rejection names the first failed check. Acceptance
   * carries no message, as the library leaves the caller's message alone.
   */
  function HeaderCheck(h: Header): (r: Option<CheckError>)
    ensures r == None ==> ToChannelCount(h.format) != 0 && h.mark <= h.length
  {
    var channelCount := ToChannelCount(h.format);
    if channelCount == 0 then Some(InvalidFormat)
    else
      var blockFrames := BlockFrames(channelCount);
      if h.mark > U32Max / blockFrames then Some(MarkTooLarge)
      else if h.length / blockFrames < h.mark then Some(LengthTooShort)
      else None
  }

  datatype Option<T> = None | Some(value: T)

  /**
   * The checks in order: the format first, then the mark's bound, then the
   * loop position; each failure only when every earlier check passed.
   */
  lemma HeaderCheckOrder(h: Header)
    ensures HeaderCheck(h) == Some(InvalidFormat) <==> ToChannelCount(h.format) == 0
    ensures HeaderCheck(h) == Some(MarkTooLarge) <==>
      ToChannelCount(h.format) != 0 && h.mark > U32Max / BlockFrames(ToChannelCount(h.format))
    ensures HeaderCheck(h) == Some(LengthTooShort) <==>
      ToChannelCount(h.format) != 0 && h.mark <= U32Max / BlockFrames(ToChannelCount(h.format))
      && h.length / BlockFrames(ToChannelCount(h.format)) < h.mark
  {
  }

  /**
   * A header passes exactly when its format is known and its loop start,
   * in frames, lies within the stream.
   */
  lemma {:induction false} HeaderCheckAccepts(h: Header)
    ensures HeaderCheck(h) == None <==>
      ToChannelCount(h.format) != 0 && h.mark * BlockFrames(ToChannelCount(h.format)) <= h.length
  {
    var channelCount := ToChannelCount(h.format);
    if channelCount != 0 {
      var frames := BlockFrames(channelCount);
      if channelCount == 1 {
        assert frames == 1024;
      } else {
        assert frames == 512;
      }
      assert h.mark <= h.length / frames <==> h.mark * frames <= h.length;
      assert h.length / frames <= U32Max / frames;
    }
  }

  /**
   * The loop-start bound is implied by the loop check: a mark past the
   * addressable maximum is always also past the loop end, so the two
   * checks differ only in the message they report.
   */
  lemma MarkBoundImpliedByLength(h: Header)
    requires ToChannelCount(h.format) != 0
    requires h.mark > U32Max / BlockFrames(ToChannelCount(h.format))
    ensures h.length / BlockFrames(ToChannelCount(h.format)) < h.mark
  {
    var frames := BlockFrames(ToChannelCount(h.format));
    assert frames == 1024 || frames == 512;
  }

  /**
   * The boundary as the library has it: a mark equal to the loop-end block
   * passes, one block more fails, and a zero length with a zero mark passes.
   */
  lemma HeaderCheckBoundary(h: Header)
    requires h.format == FormatMono
    ensures h.mark == h.length / 1024 ==> HeaderCheck(h) == None
    ensures h.mark == h.length / 1024 + 1 ==> HeaderCheck(h) != None
    ensures h.length == 0 && h.mark == 0 ==> HeaderCheck(h) == None
  {
  }
}
