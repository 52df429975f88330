/**
 * Sector/block interleaver: one on-disk sector holds one channel's block,
 * each sample stored as a padding byte followed by the container sample byte.
 */
module Sector {
  import opened Layout
  import opened Sample

  /** The consumer samples a sector prefix of `|sector|` bytes carries: every odd byte, decoded. */
  function DecodedSamples(sector: seq<byte>): (block: seq<byte>)
    ensures |block| == |sector| / 2
  {
    seq(|sector| / 2, i requires 0 <= i < |sector| / 2 => DecodeSample(Origin, sector[2 * i + 1]))
  }

  /** Sample `i` of a decoded sector prefix is byte `2 * i + 1`, decoded. */
  lemma DecodedSampleAt(sector: seq<byte>, i: nat)
    requires i < |sector| / 2
    ensures 2 * i + 1 < |sector| && DecodedSamples(sector)[i] == DecodeSample(Origin, sector[2 * i + 1])
  {
  }

  /** The container bytes of a block: a zero padding byte, then the encoded sample. */
  function EncodedSector(block: seq<byte>): (sector: seq<byte>)
    ensures |sector| == 2 * |block|
  {
    seq(2 * |block|, j requires 0 <= j < 2 * |block| =>
      if j % 2 == 0 then 0 else EncodeSample(Origin, block[j / 2]))
  }

  /**
   * Decodes the first `count` bytes of `sector` into `block` from `base` on and
   * returns the number of samples, `count / 2`: a short sector yields a short
   * block. Nothing outside the decoded samples changes.
   */
  method DecodeSector(sector: array<byte>, count: nat, block: array<byte>, base: nat) returns (out: nat)
    requires count <= sector.Length
    requires base + count / 2 <= block.Length
    requires sector != block
    modifies block
    ensures out == count / 2
    ensures block[base..base + out] == DecodedSamples(sector[..count])
    ensures block[..base] == old(block[..base])
    ensures block[base + out..] == old(block[base + out..])
  {
    out := 0;
    var offset := 1;
    while offset < count
      invariant offset == 2 * out + 1
      invariant 2 * out <= count
      invariant forall i :: 0 <= i < out ==> block[base + i] == DecodeSample(Origin, sector[2 * i + 1])
      invariant forall j :: 0 <= j < base ==> block[j] == old(block[j])
      invariant forall j :: base + out <= j < block.Length ==> block[j] == old(block[j])
    {
      block[base + out] := DecodeSample(Origin, sector[offset]);
      out := out + 1;
      offset := out * 2 + 1;
    }
  }

  /**
   * Encodes `count` samples of `block` from `base` on into the front of
   * `sector` and returns the number of bytes written, `2 * count`. Nothing
   * from that index on changes.
   */
  method EncodeSector(block: array<byte>, base: nat, count: nat, sector: array<byte>) returns (out: nat)
    requires base + count <= block.Length
    requires 2 * count <= sector.Length
    requires sector != block
    modifies sector
    ensures out == 2 * count
    ensures sector[..out] == EncodedSector(block[base..base + count])
    ensures sector[out..] == old(sector[out..])
  {
    out := 0;
    var index := 0;
    while index < count
      invariant 0 <= index <= count && out == 2 * index
      invariant forall i :: 0 <= i < index ==> sector[2 * i] == 0
      invariant forall i :: 0 <= i < index ==> sector[2 * i + 1] == EncodeSample(Origin, block[base + i])
      invariant forall j :: out <= j < sector.Length ==> sector[j] == old(sector[j])
    {
      sector[out] := 0;
      sector[out + 1] := EncodeSample(Origin, block[base + index]);
      index := index + 1;
      out := index * 2;
    }
    assert forall j :: 0 <= j < out ==> sector[j] == EncodedSector(block[base..base + count])[j] by {
      forall j | 0 <= j < out
        ensures sector[j] == EncodedSector(block[base..base + count])[j]
      {
        if j % 2 == 0 {
          assert sector[2 * (j / 2)] == 0;
        } else {
          assert sector[2 * (j / 2) + 1] == EncodeSample(Origin, block[base + j / 2]);
        }
      }
    }
  }

  /** Decoding an encoded block gives the block back, for any length. */
  lemma SectorRoundTrip(block: seq<byte>)
    ensures DecodedSamples(EncodedSector(block)) == block
  {
    var sector := EncodedSector(block);
    forall i | 0 <= i < |block|
      ensures DecodedSamples(sector)[i] == block[i]
    {
      assert sector[2 * i + 1] == EncodeSample(Origin, block[i]);
    }
  }

  /**
   * Re-encoding the samples decoded from a sector of even length gives back
   * every sample byte; every padding byte comes back as zero.
   */
  lemma SectorReencode(sector: seq<byte>)
    requires |sector| % 2 == 0
    ensures |EncodedSector(DecodedSamples(sector))| == |sector|
    ensures forall i :: 0 <= i < |sector| / 2 ==> EncodedSector(DecodedSamples(sector))[2 * i + 1] == sector[2 * i + 1]
    ensures forall i :: 0 <= i < |sector| / 2 ==> EncodedSector(DecodedSamples(sector))[2 * i] == 0
  {
    var block := DecodedSamples(sector);
    var again := EncodedSector(block);
    forall i | 0 <= i < |sector| / 2
      ensures again[2 * i + 1] == sector[2 * i + 1] && again[2 * i] == 0
    {
      assert (2 * i + 1) % 2 == 1 && (2 * i + 1) / 2 == i && (2 * i) % 2 == 0;
      assert block[i] == DecodeSample(Origin, sector[2 * i + 1]);
      SampleRoundTrip(Origin, sector[2 * i + 1]);
    }
  }

  /** Decoding distributes over sectors joined at an even boundary. */
  lemma DecodedSamplesAppend(a: seq<byte>, b: seq<byte>)
    requires |a| % 2 == 0
    ensures DecodedSamples(a + b) == DecodedSamples(a) + DecodedSamples(b)
  {
    var whole := DecodedSamples(a + b);
    var joined := DecodedSamples(a) + DecodedSamples(b);
    assert |whole| == |joined|;
    forall i | 0 <= i < |whole|
      ensures whole[i] == joined[i]
    {
      if i < |a| / 2 {
        assert (a + b)[2 * i + 1] == a[2 * i + 1];
      } else {
        var k := i - |a| / 2;
        assert (a + b)[2 * i + 1] == b[2 * k + 1];
      }
    }
  }

  /** Encoding distributes over joined blocks. */
  lemma EncodedSectorAppend(a: seq<byte>, b: seq<byte>)
    ensures EncodedSector(a + b) == EncodedSector(a) + EncodedSector(b)
  {
    var whole := EncodedSector(a + b);
    var joined := EncodedSector(a) + EncodedSector(b);
    assert |whole| == |joined|;
    forall j | 0 <= j < |whole|
      ensures whole[j] == joined[j]
    {
      if j >= 2 * |a| {
        var k := j - 2 * |a|;
        assert j % 2 == k % 2 && j / 2 == |a| + k / 2;
      }
    }
  }
}
