/**
 * Sample transcoder: between the container's sign-magnitude byte (bit 7 the
 * sign, bits 0-6 the magnitude) and offset-binary consumer PCM around an
 * origin. The library is built with origin 0x80 (unsigned PCM); the header
 * also promises origin 0 (signed PCM), so the origin is a parameter here.
 *
 * The C expressions compute in `int` and truncate to 8 bits on return. On a
 * byte `b`, `b & 0x80` is set iff `b >= 0x80` and `b & 0x7f` is `b % 0x80`;
 * for any integer `x`, the low byte of `0x80 | x` is `0x80 + x % 0x80` and
 * `0x7f & x` is `x % 0x80` (Dafny's `%` is never negative, like two's
 * complement masking).
 */
module Sample {
  import opened Layout

  /**
   * The level a container byte stands for: [0x80, 0xff] are 0..127 and
   * [0x00, 0x7f] are -1..-128.
   */
  function SignedLevel(sample: byte): (v: int)
    ensures -128 <= v <= 127
    ensures v >= 0 <==> sample >= 0x80
  {
    if sample >= 0x80 then sample - 0x80 else -1 - sample
  }

  /** Translates a container sample to consumer PCM around `origin`. */
  function DecodeSample(origin: byte, sample: byte): (r: byte)
    ensures r == (origin + SignedLevel(sample)) % 0x100
  {
    if sample >= 0x80 then (origin + sample % 0x80) % 0x100
    else (origin - sample % 0x80 - 1) % 0x100
  }

  /**
   * Translates a consumer sample back to the container, as the library writes
   * it: the sign is read from bit 7 of the consumer sample itself, which is
   * the sign of its level only when the origin is 0x80.
   */
  function EncodeSampleAsWritten(origin: byte, sample: byte): (r: byte)
    ensures origin == Origin ==> r == EncodeSample(origin, sample)
  {
    if sample >= 0x80 then 0x80 + (sample - origin) % 0x80
    else (origin - sample - 1) % 0x80
  }

  /**
   * Translates a consumer sample back to the container for any origin: the
   * sign is read from bit 7 of the sample's offset from the origin. Decoding
   * the result gives the sample back.
   */
  function EncodeSample(origin: byte, sample: byte): (r: byte)
    ensures DecodeSample(origin, r) == sample
  {
    var offset := (sample - origin) % 0x100;
    assert sample == (origin + offset) % 0x100;
    if offset < 0x80 then
      assert (sample - origin) % 0x80 == offset;
      0x80 + (sample - origin) % 0x80
    else
      assert (origin - sample - 1) % 0x80 == 0xff - offset;
      (origin - sample - 1) % 0x80
  }

  /** Decoding then encoding gives back every one of the 256 container bytes. */
  lemma SampleRoundTrip(origin: byte, sample: byte)
    ensures EncodeSample(origin, DecodeSample(origin, sample)) == sample
  {
    if sample >= 0x80 {
      ModularOffset(origin, sample - 0x80);
    } else {
      NegativeRoundTrip(origin, sample);
    }
  }

  /** A container byte of a negative level comes back from its decoded sample. */
  lemma NegativeRoundTrip(origin: byte, sample: byte)
    requires sample < 0x80
    ensures EncodeSample(origin, DecodeSample(origin, sample)) == sample
  {
    var decoded := DecodeSample(origin, sample);
    if origin >= sample + 1 {
      assert decoded == origin - sample - 1;
    } else {
      assert decoded == origin - sample - 1 + 0x100;
      assert (decoded - origin) % 0x100 == 0xff - sample;
    }
  }

  /** Stepping `offset` bytes past `origin`, with wrap-around, leaves `offset` as the distance. */
  lemma ModularOffset(origin: byte, offset: byte)
    ensures ((origin + offset) % 0x100 - origin) % 0x100 == offset
  {
    if origin + offset >= 0x100 {
      assert (origin + offset) % 0x100 == origin + offset - 0x100;
    }
  }

  /** Decoding is a bijection of the 256 byte values: distinct codes decode apart. */
  lemma DecodeSampleInjective(origin: byte, a: byte, b: byte)
    ensures DecodeSample(origin, a) == DecodeSample(origin, b) ==> a == b
  {
    SampleRoundTrip(origin, a);
    SampleRoundTrip(origin, b);
  }

  /** At origin 0 the library's encoder is not the inverse: code 0x00 comes back as 0xff. */
  lemma EncodeAsWrittenFailsAtSignedOrigin()
    ensures DecodeSample(0, 0x00) == 0xff
    ensures EncodeSampleAsWritten(0, DecodeSample(0, 0x00)) == 0xff
    ensures EncodeSample(0, DecodeSample(0, 0x00)) == 0x00
  {
  }
}
