/**
 * What the stream engine computes, as functions of the input bytes.
 *
 * Decoding works in rounds. Each round reads one sector per channel, stopping
 * after the first sector that comes up short, and decodes each into a lane
 * capped at the round's quota of frames. It then writes as many frames as
 * lane 0 holds, interleaving the channels and filling a lane that ran out
 * with the origin. A round with a short read is the last.
 *
 * Encoding works in rounds too. Each round takes up to 1024 frames, splits
 * them into one lane per channel, pads every lane to a block with the origin
 * and writes one sector per leading non-empty lane. A round that runs out of
 * input is the last.
 *
 * The channel count is 1 or 2, so multiplying, dividing and reducing by it
 * are written as case splits (`Samples`, `Frames`, `Channel`); the lemma
 * `ChannelArithmetic` ties them to the C operators.
 */
module EngineSpec {
  import opened Layout
  import opened Sample
  import opened Sector

  /** The channel counts the engine runs with. */
  predicate Supported(cc: nat)
  {
    cc == 1 || cc == 2
  }

  /** `frames * cc`: the samples in `frames` frames, for a supported channel count. */
  function Samples(frames: nat, cc: nat): nat
  {
    if cc == 1 then frames else 2 * frames
  }

  /** `samples / cc`: the whole frames in `samples` samples, for a supported channel count. */
  function Frames(samples: nat, cc: nat): nat
  {
    if cc == 1 then samples else samples / 2
  }

  /** `slot % cc`: the channel of an interleaved slot, for a supported channel count. */
  function Channel(slot: nat, cc: nat): nat
  {
    if cc == 1 then 0 else slot % 2
  }

  /** The case splits agree with multiplication, division and remainder by the channel count. */
  lemma ChannelArithmetic(x: nat, cc: nat)
    requires Supported(cc)
    ensures Samples(x, cc) == x * cc && Frames(x, cc) == x / cc && Channel(x, cc) == x % cc
  {
  }

  /** Rounds of up to 1024 frames needed for `frames` frames. */
  function Rounds(frames: nat): nat
  {
    (frames + BlockSize - 1) / BlockSize
  }

  /** Frames one round of a run of `count` samples handles: a block, or fewer at the end. */
  function RoundFrames(count: nat, cc: nat): nat
  {
    Min(Frames(count, cc), BlockSize)
  }

  /** Samples one full round of a run of `count` samples handles. */
  function RoundSamples(count: nat, cc: nat): nat
  {
    Samples(RoundFrames(count, cc), cc)
  }

  /** Samples left to a run after one full round. */
  function Later(count: nat, cc: nat): (later: nat)
    ensures later + RoundSamples(count, cc) == count
  {
    if cc == 1 then count - RoundFrames(count, cc) else count - 2 * RoundFrames(count, cc)
  }

  /** Bytes of one round of sectors: one sector per channel. */
  function RoundBytes(cc: nat): nat
  {
    Samples(SectorSize, cc)
  }

  /** The arithmetic of one full round of `count` samples: its frames, what is left, the rounds left. */
  lemma RoundStep(count: nat, cc: nat)
    requires Supported(cc) && count >= cc
    ensures 1 <= RoundFrames(count, cc) <= BlockSize
    ensures Frames(Later(count, cc), cc) == Frames(count, cc) - RoundFrames(count, cc)
    ensures Samples(Frames(count, cc), cc) == RoundSamples(count, cc) + Samples(Frames(Later(count, cc), cc), cc)
    ensures Rounds(Frames(count, cc)) == 1 + Rounds(Frames(Later(count, cc), cc))
    ensures Later(count, cc) < cc <==> Frames(count, cc) <= BlockSize
  {
  }

  // Decoding

  /** The read for channel `i` of a round: up to one sector from offset `2048 * i`. */
  function SectorRead(input: seq<byte>, i: nat): seq<byte>
    requires SectorSize * i <= |input|
  {
    input[SectorSize * i .. Min(SectorSize * (i + 1), |input|)]
  }

  /** How many sectors a round reads: one per channel, stopping after the first short read. */
  function ReadCount(input: seq<byte>, cc: nat): nat
  {
    Min(cc, |input| / SectorSize + 1)
  }

  /** Whether a round meets a short read. */
  predicate RoundShort(input: seq<byte>, cc: nat)
  {
    |input| < RoundBytes(cc)
  }

  /**
   * Lane `c` of a decode round: the samples decoded from channel `c`'s
   * sector, at most `quota` of them; none when that sector is not read.
   */
  function DecodeLane(input: seq<byte>, cc: nat, quota: nat, c: nat): seq<byte>
  {
    if c < ReadCount(input, cc) then
      var samples := DecodedSamples(SectorRead(input, c));
      samples[..Min(|samples|, quota)]
    else []
  }

  function DecodeLanes(input: seq<byte>, cc: nat, quota: nat): (lanes: seq<seq<byte>>)
    ensures |lanes| == cc
  {
    seq(cc, c requires 0 <= c < cc => DecodeLane(input, cc, quota, c))
  }

  /** Frame `k` of lane `c`, or the origin once the lane has run out. */
  function Slot(lanes: seq<seq<byte>>, k: nat, c: nat): byte
    requires c < |lanes|
  {
    if k < |lanes[c]| then lanes[c][k] else Origin
  }

  /** The frames of a round: as many as lane 0 holds, channel by channel. */
  function Interleave(lanes: seq<seq<byte>>, cc: nat): (out: seq<byte>)
    requires Supported(cc) && |lanes| == cc
    ensures |out| == Samples(|lanes[0]|, cc)
  {
    seq(Samples(|lanes[0]|, cc), j requires 0 <= j < Samples(|lanes[0]|, cc) =>
      Slot(lanes, Frames(j, cc), Channel(j, cc)))
  }

  /** The bytes one decode round of a run of `count` samples writes. */
  function DecodeRound(input: seq<byte>, count: nat, cc: nat): (frames: seq<byte>)
    requires Supported(cc)
  {
    Interleave(DecodeLanes(input, cc, Frames(count, cc)), cc)
  }

  /**
   * The bytes a decode of `count` samples writes, with the count of input
   * bytes it reads. A round that reads every sector in full leaves lane 0
   * with `RoundFrames` frames, so the count drops by `RoundSamples`.
   */
  function DecodeRun(input: seq<byte>, count: nat, cc: nat): (r: (seq<byte>, nat))
    requires cc <= 2
    ensures r.1 <= |input|
    decreases count
  {
    if cc == 0 || count < cc then ([], 0)
    else if RoundShort(input, cc) then (DecodeRound(input, count, cc), |input|)
    else
      var rest := DecodeRun(input[RoundBytes(cc)..], Later(count, cc), cc);
      (DecodeRound(input, count, cc) + rest.0, RoundBytes(cc) + rest.1)
  }

  /** Without a short read, lane 0 holds a whole block or the quota, whichever is less. */
  lemma FullLaneZero(input: seq<byte>, cc: nat, quota: nat)
    requires Supported(cc) && !RoundShort(input, cc)
    ensures |DecodeLane(input, cc, quota, 0)| == Min(BlockSize, quota)
  {
    assert |SectorRead(input, 0)| == SectorSize;
  }

  /** A decode round never writes more than its quota of frames, and a full read writes exactly that. */
  lemma DecodeRoundLength(input: seq<byte>, count: nat, cc: nat)
    requires Supported(cc)
    ensures |DecodeRound(input, count, cc)| <= RoundSamples(count, cc)
    ensures !RoundShort(input, cc) ==> |DecodeRound(input, count, cc)| == RoundSamples(count, cc)
  {
    var lane := DecodeLane(input, cc, Frames(count, cc), 0);
    assert |DecodeLanes(input, cc, Frames(count, cc))[0]| == |lane|;
    if !RoundShort(input, cc) {
      FullLaneZero(input, cc, Frames(count, cc));
    }
  }

  /** A decode writes whole frames, never more than the `count` samples asked for. */
  lemma {:induction false} DecodeRunBound(input: seq<byte>, count: nat, cc: nat)
    requires Supported(cc)
    ensures |DecodeRun(input, count, cc).0| <= count
    ensures |DecodeRun(input, count, cc).0| == Samples(Frames(|DecodeRun(input, count, cc).0|, cc), cc)
    decreases count
  {
    if count >= cc {
      var head := DecodeRound(input, count, cc);
      var frames := |DecodeLanes(input, cc, Frames(count, cc))[0]|;
      assert |head| == Samples(frames, cc);
      DecodeRoundLength(input, count, cc);
      if !RoundShort(input, cc) {
        var rest := DecodeRun(input[RoundBytes(cc)..], Later(count, cc), cc).0;
        DecodeRunStep(input, count, cc);
        DecodeRunBound(input[RoundBytes(cc)..], Later(count, cc), cc);
        assert |DecodeRun(input, count, cc).0| == |head| + |rest|;
        WholeFrames(frames, Frames(|rest|, cc), cc);
      } else {
        assert DecodeRun(input, count, cc).0 == head;
        WholeFrames(frames, 0, cc);
      }
    } else {
      assert DecodeRun(input, count, cc).0 == [];
    }
  }

  /** Whole frames joined are whole frames. */
  lemma WholeFrames(a: nat, b: nat, cc: nat)
    requires Supported(cc)
    ensures Frames(Samples(a, cc) + Samples(b, cc), cc) == a + b
    ensures Samples(a, cc) + Samples(b, cc) == Samples(a + b, cc)
  {
  }

  /** Without a short read, a decode is its first round followed by the decode of the rest. */
  lemma DecodeRunStep(input: seq<byte>, count: nat, cc: nat)
    requires Supported(cc) && count >= cc && !RoundShort(input, cc)
    ensures DecodeRun(input, count, cc).0 ==
      DecodeRound(input, count, cc) + DecodeRun(input[RoundBytes(cc)..], Later(count, cc), cc).0
  {
  }

  /**
   * Frame `k` of channel `c`, read straight off the input: the sample byte
   * of that frame in channel `c`'s sector of round `k / 1024`, decoded, or
   * the origin when the input ends before it.
   */
  function Cell(input: seq<byte>, cc: nat, k: nat, c: nat): byte
  {
    var at := CellOffset(cc, k, c);
    if at < |input| then DecodeSample(Origin, input[at]) else Origin
  }

  /** Where frame `k` of channel `c` sits in the input: its round's sector for `c`, then its sample byte. */
  function CellOffset(cc: nat, k: nat, c: nat): nat
  {
    SectorSize * (Samples(k / BlockSize, cc) + c) + 2 * (k % BlockSize) + 1
  }

  /** The frames of one decode round agree with the closed form. */
  lemma RoundCells(input: seq<byte>, cc: nat, quota: nat, k: nat, c: nat)
    requires Supported(cc) && c < cc && k < |DecodeLane(input, cc, quota, 0)|
    ensures Slot(DecodeLanes(input, cc, quota), k, c) == Cell(input, cc, k, c)
  {
    assert k < BlockSize && k < quota;
    assert CellOffset(cc, k, c) == SectorSize * c + 2 * k + 1 by {
      assert k / BlockSize == 0 && k % BlockSize == k;
    }
    LaneCell(input, cc, quota, k, c);
  }

  /** Frame `k` of lane `c`, within the quota of a round, is the sample byte at its offset, or the origin. */
  lemma LaneCell(input: seq<byte>, cc: nat, quota: nat, k: nat, c: nat)
    requires Supported(cc) && c < cc && k < quota && k < BlockSize
    ensures var lane := DecodeLane(input, cc, quota, c);
      var at := SectorSize * c + 2 * k + 1;
      (if k < |lane| then lane[k] else Origin) == (if at < |input| then DecodeSample(Origin, input[at]) else Origin)
  {
    var lane := DecodeLane(input, cc, quota, c);
    var at := SectorSize * c + 2 * k + 1;
    if c < ReadCount(input, cc) {
      var read := SectorRead(input, c);
      if k < |lane| {
        assert k < |read| / 2 && lane[k] == DecodedSamples(read)[k];
        DecodedSampleAt(read, k);
        SliceAt(input, SectorSize * c, Min(SectorSize * (c + 1), |input|), 2 * k + 1);
      } else {
        assert |read| <= 2 * k + 1;
      }
    }
  }

  /** Index `i` of a slice from `a` is index `a + i` of the whole. */
  lemma SliceAt(s: seq<byte>, a: nat, b: nat, i: nat)
    requires a <= b <= |s| && i < b - a
    ensures s[a..b][i] == s[a + i] && a + i < |s|
  {
  }

  /** Every byte of one decode round is the closed-form cell of its frame and channel. */
  lemma RoundFramesCells(input: seq<byte>, count: nat, cc: nat)
    requires Supported(cc)
    ensures forall j :: 0 <= j < |DecodeRound(input, count, cc)| ==>
      DecodeRound(input, count, cc)[j] == Cell(input, cc, Frames(j, cc), Channel(j, cc))
  {
    var quota := Frames(count, cc);
    var frames := DecodeRound(input, count, cc);
    forall j | 0 <= j < |frames|
      ensures frames[j] == Cell(input, cc, Frames(j, cc), Channel(j, cc))
    {
      RoundCells(input, cc, quota, Frames(j, cc), Channel(j, cc));
    }
  }

  /** Every byte a decode writes is the closed-form cell of its frame and channel. */
  lemma {:induction false} DecodeRunCells(input: seq<byte>, count: nat, cc: nat)
    requires Supported(cc)
    ensures forall j :: 0 <= j < |DecodeRun(input, count, cc).0| ==>
      DecodeRun(input, count, cc).0[j] == Cell(input, cc, Frames(j, cc), Channel(j, cc))
    decreases count, 1
  {
    if count >= cc {
      RoundFramesCells(input, count, cc);
      if !RoundShort(input, cc) {
        HeadCells(input, count, cc);
        TailCells(input, count, cc);
      }
    }
  }

  /** The frames of a decode's first full round are the closed-form cells. */
  lemma HeadCells(input: seq<byte>, count: nat, cc: nat)
    requires Supported(cc) && count >= cc && !RoundShort(input, cc)
    ensures forall j :: 0 <= j < RoundSamples(count, cc) ==>
      DecodeRun(input, count, cc).0[j] == Cell(input, cc, Frames(j, cc), Channel(j, cc))
  {
    var head := DecodeRound(input, count, cc);
    var out := DecodeRun(input, count, cc).0;
    DecodeRunStep(input, count, cc);
    DecodeRoundLength(input, count, cc);
    RoundFramesCells(input, count, cc);
    forall j | 0 <= j < |head|
      ensures out[j] == head[j]
    {
    }
  }

  /** The frames of a decode past its first full round are the closed-form cells. */
  lemma {:induction false} TailCells(input: seq<byte>, count: nat, cc: nat)
    requires Supported(cc) && count >= cc && !RoundShort(input, cc)
    ensures forall j :: RoundSamples(count, cc) <= j < |DecodeRun(input, count, cc).0| ==>
      DecodeRun(input, count, cc).0[j] == Cell(input, cc, Frames(j, cc), Channel(j, cc))
    decreases count, 0
  {
    var head := DecodeRound(input, count, cc);
    var tail := input[RoundBytes(cc)..];
    var rest := DecodeRun(tail, Later(count, cc), cc).0;
    DecodeRunStep(input, count, cc);
    DecodeRoundLength(input, count, cc);
    DecodeRunCells(tail, Later(count, cc), cc);
    if |rest| > 0 {
      assert RoundFrames(count, cc) == BlockSize by {
        RoundStep(count, cc);
      }
      ShiftedCells(input, cc, head, rest);
    }
  }

  /** Cells read off the input past one round's sectors are the cells one round further on. */
  lemma ShiftedCells(input: seq<byte>, cc: nat, head: seq<byte>, rest: seq<byte>)
    requires Supported(cc) && RoundBytes(cc) <= |input| && |head| == Samples(BlockSize, cc)
    requires forall i :: 0 <= i < |rest| ==>
      rest[i] == Cell(input[RoundBytes(cc)..], cc, Frames(i, cc), Channel(i, cc))
    ensures forall j :: |head| <= j < |head + rest| ==>
      (head + rest)[j] == Cell(input, cc, Frames(j, cc), Channel(j, cc))
  {
    forall j | |head| <= j < |head + rest|
      ensures (head + rest)[j] == Cell(input, cc, Frames(j, cc), Channel(j, cc))
    {
      var i := j - |head|;
      assert (head + rest)[j] == rest[i];
      assert Frames(j, cc) == Frames(i, cc) + BlockSize && Channel(j, cc) == Channel(i, cc);
      CellNextRound(input, cc, Frames(i, cc), Channel(i, cc));
    }
  }

  /** The cells past the first round's sectors are the cells of the next rounds. */
  lemma CellNextRound(input: seq<byte>, cc: nat, k: nat, c: nat)
    requires Supported(cc) && RoundBytes(cc) <= |input|
    ensures Cell(input[RoundBytes(cc)..], cc, k, c) == Cell(input, cc, k + BlockSize, c)
  {
    assert CellOffset(cc, k + BlockSize, c) == RoundBytes(cc) + CellOffset(cc, k, c) by {
      assert (k + BlockSize) / BlockSize == k / BlockSize + 1;
      assert (k + BlockSize) % BlockSize == k % BlockSize;
    }
  }

  /**
   * With a whole number of sectors for every round it needs, a decode writes
   * every requested frame.
   */
  lemma {:induction false} DecodeRunComplete(input: seq<byte>, count: nat, cc: nat)
    requires Supported(cc)
    requires |input| >= Samples(SectorSize * Rounds(Frames(count, cc)), cc)
    ensures |DecodeRun(input, count, cc).0| == Samples(Frames(count, cc), cc)
    decreases count
  {
    if count >= cc {
      var later := Later(count, cc);
      assert Samples(Frames(count, cc), cc) == RoundSamples(count, cc) + Samples(Frames(later, cc), cc)
        && Samples(SectorSize * Rounds(Frames(count, cc)), cc)
          == RoundBytes(cc) + Samples(SectorSize * Rounds(Frames(later, cc)), cc) by {
        RoundStep(count, cc);
      }
      DecodeRunStep(input, count, cc);
      DecodeRoundLength(input, count, cc);
      DecodeRunComplete(input[RoundBytes(cc)..], later, cc);
    }
  }

  /**
   * A mono decode writes the decoded samples of the input in order, as many
   * as requested or as the input holds, whichever is fewer.
   */
  lemma {:induction false} DecodeRunMono(input: seq<byte>, count: nat)
    ensures DecodeRun(input, count, 1).0 == DecodedSamples(input)[..Min(count, |input| / 2)]
    decreases count, 1
  {
    if count == 0 {
      assert DecodeRun(input, count, 1).0 == [];
    } else if RoundShort(input, 1) {
      MonoRound(input, count);
      assert SectorRead(input, 0) == input;
    } else {
      MonoFullRound(input, count);
    }
  }

  /** The mono decode of an input that fills its first round. */
  lemma {:induction false} MonoFullRound(input: seq<byte>, count: nat)
    requires count >= 1 && !RoundShort(input, 1)
    ensures DecodeRun(input, count, 1).0 == DecodedSamples(input)[..Min(count, |input| / 2)]
    decreases count, 0
  {
    var all := DecodedSamples(input);
    var head := input[..SectorSize];
    var tail := input[SectorSize..];
    var frames := RoundFrames(count, 1);
    var later := Later(count, 1);
    var rest := DecodeRun(tail, later, 1).0;
    assert DecodeRun(input, count, 1).0 == DecodedSamples(head)[..frames] + rest by {
      DecodeRunStep(input, count, 1);
      MonoRound(input, count);
      assert SectorRead(input, 0) == head;
    }
    assert rest == DecodedSamples(tail)[..Min(later, |tail| / 2)] by {
      DecodeRunMono(tail, later);
    }
    assert all == DecodedSamples(head) + DecodedSamples(tail) by {
      assert input == head + tail;
      DecodedSamplesAppend(head, tail);
    }
    assert |input| / 2 == BlockSize + |tail| / 2;
    MonoJoin(DecodedSamples(head), DecodedSamples(tail), count);
  }

  /** The first `count` of a block joined to more samples: up to a block of the first, then the rest. */
  lemma MonoJoin(a: seq<byte>, b: seq<byte>, count: nat)
    requires |a| == BlockSize
    ensures a[..Min(count, BlockSize)] + b[..Min(count - Min(count, BlockSize), |b|)]
      == (a + b)[..Min(count, BlockSize + |b|)]
  {
    PrefixOfJoin(a, b, Min(count, BlockSize + |b|));
    if count > BlockSize {
      assert a[..BlockSize] == a;
    }
  }

  /** One mono round writes the decoded samples of its sector, up to the quota. */
  lemma MonoRound(input: seq<byte>, count: nat)
    requires count >= 1
    ensures var samples := DecodedSamples(SectorRead(input, 0));
      DecodeRound(input, count, 1) == samples[..Min(|samples|, count)]
  {
    var lanes := DecodeLanes(input, 1, count);
    assert Interleave(lanes, 1) == lanes[0];
  }

  /** A prefix of joined sequences: a prefix of the first, or all of it and a prefix of the second. */
  lemma PrefixOfJoin(a: seq<byte>, b: seq<byte>, n: nat)
    requires n <= |a| + |b|
    ensures (a + b)[..n] == if n <= |a| then a[..n] else a + b[..n - |a|]
  {
  }

  // Encoding

  /** Frames lane `c` gets when `n` interleaved samples are split over `cc` channels. */
  function LaneLength(n: nat, cc: nat, c: nat): nat
  {
    Frames(n, cc) + (if c < Channel(n, cc) then 1 else 0)
  }

  /** Lane `c` of the interleaved samples `taken`: every `cc`-th sample from slot `c` on. */
  function Lane(taken: seq<byte>, cc: nat, c: nat): (lane: seq<byte>)
    requires Supported(cc) && c < cc
    ensures |lane| == LaneLength(|taken|, cc, c)
  {
    seq(LaneLength(|taken|, cc, c), k requires 0 <= k < LaneLength(|taken|, cc, c) =>
      taken[Samples(k, cc) + c])
  }

  /** Every lane of the interleaved samples `taken`. */
  function Lanes(taken: seq<byte>, cc: nat): (lanes: seq<seq<byte>>)
    requires Supported(cc)
    ensures |lanes| == cc && forall c :: 0 <= c < cc ==> lanes[c] == Lane(taken, cc, c)
  {
    seq(cc, c requires 0 <= c < cc => Lane(taken, cc, c))
  }

  /** A lane padded to a whole block with the origin. */
  function Padded(lane: seq<byte>): (block: seq<byte>)
    requires |lane| <= BlockSize
    ensures |block| == BlockSize && block[..|lane|] == lane
  {
    lane + seq(BlockSize - |lane|, _ => Origin)
  }

  /** The sectors of lanes `c` onwards, stopping at the first empty lane. */
  function EncodeSectors(taken: seq<byte>, cc: nat, c: nat): (sectors: seq<byte>)
    requires Supported(cc) && c <= cc && |taken| <= Samples(BlockSize, cc)
    ensures |sectors| <= SectorSize * (cc - c)
    decreases cc - c
  {
    if c == cc || LaneLength(|taken|, cc, c) == 0 then []
    else EncodedSector(Padded(Lane(taken, cc, c))) + EncodeSectors(taken, cc, c + 1)
  }

  /**
   * The bytes an encode of `count` samples writes, with the count of input
   * bytes it reads. A round that finds all its frames reads `RoundSamples`
   * of them; one that runs out encodes what it found and is the last.
   */
  function EncodeRun(input: seq<byte>, count: nat, cc: nat): (r: (seq<byte>, nat))
    requires cc <= 2
    ensures r.1 <= |input| && r.1 <= count
    decreases count
  {
    if cc == 0 || count < cc then ([], 0)
    else if |input| < RoundSamples(count, cc) then (EncodeSectors(input, cc, 0), |input|)
    else
      var rest := EncodeRun(input[RoundSamples(count, cc)..], Later(count, cc), cc);
      (EncodeSectors(input[..RoundSamples(count, cc)], cc, 0) + rest.0, RoundSamples(count, cc) + rest.1)
  }

  /** An encode writes whole sectors. */
  lemma {:induction false} EncodeRunSectors(input: seq<byte>, count: nat, cc: nat)
    requires Supported(cc)
    ensures |EncodeRun(input, count, cc).0| % SectorSize == 0
    decreases count
  {
    if count >= cc {
      var avail := RoundSamples(count, cc);
      if |input| < avail {
        assert EncodeRun(input, count, cc).0 == EncodeSectors(input, cc, 0);
        EncodeSectorsWhole(input, cc, 0);
      } else {
        var sectors := EncodeSectors(input[..avail], cc, 0);
        var rest := EncodeRun(input[avail..], Later(count, cc), cc).0;
        assert EncodeRun(input, count, cc).0 == sectors + rest;
        assert |sectors| % SectorSize == 0 by {
          EncodeSectorsWhole(input[..avail], cc, 0);
        }
        assert |rest| % SectorSize == 0 by {
          EncodeRunSectors(input[avail..], Later(count, cc), cc);
        }
        SectorsJoin(sectors, rest);
      }
    } else {
      assert EncodeRun(input, count, cc).0 == [];
    }
  }

  /** Whole sectors joined are whole sectors. */
  lemma SectorsJoin(a: seq<byte>, b: seq<byte>)
    requires |a| % SectorSize == 0 && |b| % SectorSize == 0
    ensures |a + b| % SectorSize == 0
  {
  }

  /** The sectors of a round are whole sectors. */
  lemma {:induction false} EncodeSectorsWhole(taken: seq<byte>, cc: nat, c: nat)
    requires Supported(cc) && c <= cc && |taken| <= Samples(BlockSize, cc)
    ensures |EncodeSectors(taken, cc, c)| % SectorSize == 0
    decreases cc - c
  {
    if c < cc && LaneLength(|taken|, cc, c) != 0 {
      EncodeSectorsWhole(taken, cc, c + 1);
    }
  }

  /** Splitting whole frames into lanes and interleaving them again gives the frames back. */
  lemma InterleaveLanes(taken: seq<byte>, cc: nat, frames: nat)
    requires Supported(cc) && |taken| == Samples(frames, cc)
    ensures Interleave(Lanes(taken, cc), cc) == taken
  {
    var lanes := Lanes(taken, cc);
    var out := Interleave(lanes, cc);
    assert |out| == |taken|;
    forall j | 0 <= j < |taken|
      ensures out[j] == taken[j]
    {
      assert Frames(j, cc) < |lanes[Channel(j, cc)]|;
    }
  }

  /** Whole frames give every lane a sector. */
  lemma FullSectors(taken: seq<byte>, cc: nat, frames: nat)
    requires Supported(cc) && 1 <= frames <= BlockSize && |taken| == Samples(frames, cc)
    ensures EncodeSectors(taken, cc, 0) ==
      if cc == 1 then EncodedSector(Padded(Lane(taken, cc, 0)))
      else EncodedSector(Padded(Lane(taken, cc, 0))) + EncodedSector(Padded(Lane(taken, cc, 1)))
    ensures |EncodeSectors(taken, cc, 0)| == RoundBytes(cc)
  {
    assert LaneLength(|taken|, cc, 0) == frames;
    if cc == 2 {
      assert LaneLength(|taken|, cc, 1) == frames;
    }
  }

  /** With enough input, an encode is its first full round followed by the encode of the rest. */
  lemma EncodeRunStep(input: seq<byte>, count: nat, cc: nat)
    requires Supported(cc) && count >= cc && |input| >= count
    ensures EncodeRun(input, count, cc).0 ==
      EncodeSectors(input[..RoundSamples(count, cc)], cc, 0)
      + EncodeRun(input[RoundSamples(count, cc)..], Later(count, cc), cc).0
    ensures EncodeRun(input, count, cc).1 ==
      RoundSamples(count, cc) + EncodeRun(input[RoundSamples(count, cc)..], Later(count, cc), cc).1
  {
  }

  /** With enough input, an encode reads exactly the whole frames requested and writes full rounds. */
  lemma {:induction false} EncodeRunLength(input: seq<byte>, count: nat, cc: nat)
    requires Supported(cc) && |input| >= count
    ensures EncodeRun(input, count, cc).1 == Samples(Frames(count, cc), cc)
    ensures |EncodeRun(input, count, cc).0| == Samples(SectorSize * Rounds(Frames(count, cc)), cc)
    decreases count
  {
    if count >= cc {
      var later := Later(count, cc);
      assert 1 <= RoundFrames(count, cc) <= BlockSize
        && Samples(Frames(count, cc), cc) == RoundSamples(count, cc) + Samples(Frames(later, cc), cc)
        && Samples(SectorSize * Rounds(Frames(count, cc)), cc)
          == RoundBytes(cc) + Samples(SectorSize * Rounds(Frames(later, cc)), cc) by {
        RoundStep(count, cc);
      }
      EncodeRunStep(input, count, cc);
      FullSectors(input[..RoundSamples(count, cc)], cc, RoundFrames(count, cc));
      EncodeRunLength(input[RoundSamples(count, cc)..], later, cc);
    }
  }

  /**
   * Decoding what an encode writes gives back the whole frames encoded,
   * when the input holds every requested sample.
   */
  lemma {:induction false} EncodeDecodeRun(input: seq<byte>, count: nat, cc: nat)
    requires Supported(cc) && |input| >= count
    ensures DecodeRun(EncodeRun(input, count, cc).0, count, cc).0 == input[..Samples(Frames(count, cc), cc)]
    decreases count
  {
    if count >= cc {
      var avail := RoundSamples(count, cc);
      var later := Later(count, cc);
      var laterWhole := Samples(Frames(later, cc), cc);
      assert Samples(Frames(count, cc), cc) == avail + laterWhole by {
        RoundStep(count, cc);
      }
      var restOut := DecodeRun(EncodeRun(input[avail..], later, cc).0, later, cc).0;
      assert DecodeRun(EncodeRun(input, count, cc).0, count, cc).0 == input[..avail] + restOut by {
        EncodeDecodeStep(input, count, cc);
      }
      assert restOut == input[avail..][..laterWhole] by {
        EncodeDecodeRun(input[avail..], later, cc);
      }
      SliceJoin(input, avail, laterWhole);
    } else {
      assert EncodeRun(input, count, cc).0 == [] && Frames(count, cc) == 0;
      assert DecodeRun([], count, cc).0 == [];
      assert input[..Samples(Frames(count, cc), cc)] == [];
    }
  }

  /** Decoding an encode's output gives back its first round's frames, then the decode of the rest. */
  lemma EncodeDecodeStep(input: seq<byte>, count: nat, cc: nat)
    requires Supported(cc) && count >= cc && |input| >= count
    ensures DecodeRun(EncodeRun(input, count, cc).0, count, cc).0 ==
      input[..RoundSamples(count, cc)]
      + DecodeRun(EncodeRun(input[RoundSamples(count, cc)..], Later(count, cc), cc).0, Later(count, cc), cc).0
  {
    var taken := input[..RoundSamples(count, cc)];
    var rest := EncodeRun(input[RoundSamples(count, cc)..], Later(count, cc), cc).0;
    assert EncodeRun(input, count, cc).0 == EncodeSectors(taken, cc, 0) + rest by {
      EncodeRunStep(input, count, cc);
    }
    DecodeEncodedRound(taken, rest, count, cc);
  }

  /** A prefix of `a + b` bytes is the first `a` bytes, then the next `b`. */
  lemma SliceJoin(input: seq<byte>, a: nat, b: nat)
    requires a + b <= |input|
    ensures input[..a + b] == input[..a] + input[a..][..b]
  {
  }

  /** Decoding one encoded round of whole frames gives the frames back, then decodes on. */
  lemma DecodeEncodedRound(taken: seq<byte>, rest: seq<byte>, count: nat, cc: nat)
    requires Supported(cc) && count >= cc && |taken| == RoundSamples(count, cc)
    ensures DecodeRun(EncodeSectors(taken, cc, 0) + rest, count, cc).0
      == taken + DecodeRun(rest, Later(count, cc), cc).0
  {
    var encoded := EncodeSectors(taken, cc, 0) + rest;
    assert !RoundShort(encoded, cc) && encoded[RoundBytes(cc)..] == rest by {
      RoundStep(count, cc);
      FullSectors(taken, cc, RoundFrames(count, cc));
    }
    assert DecodeRound(encoded, count, cc) == taken by {
      DecodeEncodedLanes(taken, rest, count, cc);
    }
    DecodeRunStep(encoded, count, cc);
  }

  /** The lanes decoded from an encoded round interleave to the frames encoded. */
  lemma DecodeEncodedLanes(taken: seq<byte>, rest: seq<byte>, count: nat, cc: nat)
    requires Supported(cc) && count >= cc && |taken| == RoundSamples(count, cc)
    ensures DecodeRound(EncodeSectors(taken, cc, 0) + rest, count, cc) == taken
  {
    var lanes := Lanes(taken, cc);
    var decodedLanes := DecodeLanes(EncodeSectors(taken, cc, 0) + rest, cc, Frames(count, cc));
    forall c | 0 <= c < cc
      ensures decodedLanes[c] == lanes[c]
    {
      DecodeEncodedLane(taken, rest, count, cc, c);
    }
    assert decodedLanes == lanes;
    InterleaveLanes(taken, cc, RoundFrames(count, cc));
  }

  /** Lane `c` decoded from an encoded round is lane `c` of the frames encoded. */
  lemma DecodeEncodedLane(taken: seq<byte>, rest: seq<byte>, count: nat, cc: nat, c: nat)
    requires Supported(cc) && count >= cc && c < cc && |taken| == RoundSamples(count, cc)
    ensures DecodeLane(EncodeSectors(taken, cc, 0) + rest, cc, Frames(count, cc), c) == Lane(taken, cc, c)
  {
    var frames := RoundFrames(count, cc);
    assert 1 <= frames <= BlockSize by {
      RoundStep(count, cc);
    }
    var encoded := EncodeSectors(taken, cc, 0) + rest;
    var lane := Lane(taken, cc, c);
    assert |lane| == frames;
    assert ReadCount(encoded, cc) == cc && SectorRead(encoded, c) == EncodedSector(Padded(lane)) by {
      EncodedSectorRead(taken, rest, cc, frames, c);
    }
    var samples := DecodedSamples(SectorRead(encoded, c));
    assert samples == Padded(lane) by {
      SectorRoundTrip(Padded(lane));
    }
    assert DecodeLane(encoded, cc, Frames(count, cc), c) == samples[..frames];
  }

  /** Channel `c`'s sector of an encoded round is lane `c`, padded and encoded. */
  lemma EncodedSectorRead(taken: seq<byte>, rest: seq<byte>, cc: nat, frames: nat, c: nat)
    requires Supported(cc) && c < cc && 1 <= frames <= BlockSize && |taken| == Samples(frames, cc)
    ensures |EncodeSectors(taken, cc, 0) + rest| >= RoundBytes(cc)
    ensures SectorRead(EncodeSectors(taken, cc, 0) + rest, c) == EncodedSector(Padded(Lane(taken, cc, c)))
  {
    FullSectors(taken, cc, frames);
    var encoded := EncodeSectors(taken, cc, 0) + rest;
    var first := EncodedSector(Padded(Lane(taken, cc, 0)));
    if cc == 1 {
      assert encoded[..SectorSize] == first;
    } else if c == 0 {
      assert encoded[..SectorSize] == first;
    } else {
      assert encoded[SectorSize..2 * SectorSize] == EncodedSector(Padded(Lane(taken, cc, 1)));
    }
  }
}
