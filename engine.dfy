/**
 * The transcoding context and the stream operations built on it. A context
 * ties a header to a source and an output stream and owns the buffers of one
 * round: a block per channel, a byte count and a read index per channel,
 * and one sector. Each context operation is proved against the pure run it
 * carries out (`DecodeRun`, `EncodeRun`).
 */
module Engine {
  import opened Layout
  import opened Sector
  import opened EngineSpec
  import opened Streams
  import opened HeaderCodec
  import opened Transport
  import opened Counts

  /** `Samples(frame, cc) + channel` is slot `channel` of frame `frame`. */
  lemma SlotOf(frame: nat, channel: nat, cc: nat)
    requires Supported(cc) && channel < cc
    ensures Frames(Samples(frame, cc) + channel, cc) == frame
    ensures Channel(Samples(frame, cc) + channel, cc) == channel
  {
  }

  /** A run of a supported channel count, one round unfolded. */
  lemma DecodeRunRound(input: seq<byte>, count: nat, cc: nat)
    requires Supported(cc) && count >= cc
    ensures RoundShort(input, cc) ==> DecodeRun(input, count, cc) == (DecodeRound(input, count, cc), |input|)
    ensures !RoundShort(input, cc) ==> (RoundBytes(cc) <= |input| &&
      DecodeRun(input, count, cc).0 == DecodeRound(input, count, cc) + DecodeRun(input[RoundBytes(cc)..], Later(count, cc), cc).0 &&
      DecodeRun(input, count, cc).1 == RoundBytes(cc) + DecodeRun(input[RoundBytes(cc)..], Later(count, cc), cc).1)
  {
  }

  /** Every lane of a decode round is at most a block, and no longer than lane 0. */
  lemma DecodeLanesBounded(input: seq<byte>, cc: nat, quota: nat)
    requires Supported(cc)
    ensures forall c :: 0 <= c < cc ==>
      |DecodeLanes(input, cc, quota)[c]| <= BlockSize &&
      |DecodeLanes(input, cc, quota)[c]| <= |DecodeLanes(input, cc, quota)[0]|
  {
    var lanes := DecodeLanes(input, cc, quota);
    forall c | 0 <= c < cc
      ensures |lanes[c]| <= BlockSize && |lanes[c]| <= |lanes[0]|
    {
      if c < ReadCount(input, cc) {
        assert |SectorRead(input, c)| <= SectorSize;
      }
      if 1 <= c < ReadCount(input, cc) {
        assert |SectorRead(input, 0)| == SectorSize;
      }
    }
  }

  /** Frame `k` of channel `c` is emitted by the round when `k` lies below `Reach(frame, channel, c)`. */
  function Reach(frame: nat, channel: nat, c: nat): nat
  {
    if c < channel then frame + 1 else frame
  }

  /** Lane 0 of a round holds at most the quota, and a whole block or the quota without a short read. */
  lemma LaneZero(input: seq<byte>, cc: nat, quota: nat)
    requires Supported(cc)
    ensures |DecodeLanes(input, cc, quota)[0]| <= quota
    ensures !RoundShort(input, cc) ==> |DecodeLanes(input, cc, quota)[0]| == Min(BlockSize, quota)
  {
    if !RoundShort(input, cc) {
      FullLaneZero(input, cc, quota);
    }
  }

  /**
   * A round's reads end after `channel` sectors: all of them in full, or
   * the last one short. Either way that is how many sectors the round reads,
   * and the round is short exactly when a read was.
   */
  lemma ReadCountEnd(input: seq<byte>, cc: nat, channel: nat, error: bool)
    requires Supported(cc) && channel <= cc
    requires !error ==> channel == cc && SectorSize * channel <= |input|
    requires error ==> 1 <= channel && SectorSize * (channel - 1) <= |input| < SectorSize * channel
    ensures channel == ReadCount(input, cc)
    ensures error == RoundShort(input, cc)
    ensures Min(|input|, RoundBytes(cc)) == if error then |input| else SectorSize * channel
  {
  }

  /** Block `c` of the back-to-back blocks `b` starts with `lane`. */
  ghost predicate HoldsIn(b: seq<byte>, c: nat, lane: seq<byte>)
  {
    BlockSize * c + |lane| <= |b| && b[BlockSize * c .. BlockSize * c + |lane|] == lane
  }

  /** A block wholly below `base` still holds its lane when nothing below `base` changes. */
  lemma HoldsKept(b: seq<byte>, b2: seq<byte>, base: nat, c: nat, lane: seq<byte>)
    requires |b| == |b2| && base <= |b| && b[..base] == b2[..base]
    requires BlockSize * c + |lane| <= base && HoldsIn(b, c, lane)
    ensures HoldsIn(b2, c, lane)
  {
    assert b[BlockSize * c .. BlockSize * c + |lane|] == b[..base][BlockSize * c .. BlockSize * c + |lane|];
    assert b2[BlockSize * c .. BlockSize * c + |lane|] == b2[..base][BlockSize * c .. BlockSize * c + |lane|];
  }

  /** A block that starts with `samples` starts with every prefix of them. */
  lemma HoldsPrefix(b: seq<byte>, c: nat, samples: seq<byte>, n: nat)
    requires HoldsIn(b, c, samples) && n <= |samples|
    ensures HoldsIn(b, c, samples[..n])
  {
    assert b[BlockSize * c .. BlockSize * c + n] == b[BlockSize * c .. BlockSize * c + |samples|][..n];
  }

  /** Lane `c` of a round whose earlier sectors were read in full: the decoded read, cut to the quota. */
  lemma ChannelLane(input: seq<byte>, cc: nat, quota: nat, c: nat)
    requires Supported(cc) && c < cc && SectorSize * c <= |input|
    ensures c < ReadCount(input, cc)
    ensures |SectorRead(input, c)| == Min(SectorSize, |input| - SectorSize * c)
    ensures DecodeLanes(input, cc, quota)[c] ==
      DecodedSamples(SectorRead(input, c))[..Min(|SectorRead(input, c)| / 2, quota)]
  {
  }

  /** Channels from `from` on have used up their blocks. */
  ghost predicate DrainedFrom(counts: seq<nat>, indexes: seq<nat>, from: nat)
  {
    |indexes| == |counts| && forall c :: from <= c < |counts| ==> indexes[c] >= counts[c]
  }

  /** Channels below `upto` hold their lanes, counted in full and indexed at the start. */
  ghost predicate LoadedIn(counts: seq<nat>, indexes: seq<nat>, b: seq<byte>, lanes: seq<seq<byte>>, upto: nat)
  {
    |indexes| == |counts| == |lanes| && upto <= |counts| &&
    forall c :: 0 <= c < upto ==> indexes[c] == 0 && counts[c] == |lanes[c]| && HoldsIn(b, c, lanes[c])
  }

  /**
   * The blocks `b` hold `lanes`: each lane at the start of its channel's
   * block, no longer than a block or than lane 0, and a nonempty lane's count
   * is its length.
   */
  ghost predicate StockedIn(counts: seq<nat>, b: seq<byte>, lanes: seq<seq<byte>>)
  {
    |lanes| == |counts| &&
    forall c :: 0 <= c < |counts| ==>
      |lanes[c]| <= BlockSize && |lanes[c]| <= |lanes[0]| && HoldsIn(b, c, lanes[c]) &&
      (lanes[c] != [] ==> counts[c] == |lanes[c]|)
  }

  /**
   * The read indexes stand at frame `frame`, slot `channel`: a channel whose
   * lane still has frames is indexed at the next of them, and one whose lane
   * has run out has its index at or past its count.
   */
  ghost predicate CursorIn(counts: seq<nat>, indexes: seq<nat>, lanes: seq<seq<byte>>, frame: nat, channel: nat)
  {
    |lanes| == |counts| == |indexes| &&
    forall c :: 0 <= c < |counts| ==>
      (Reach(frame, channel, c) < |lanes[c]| ==> indexes[c] == Reach(frame, channel, c) < counts[c]) &&
      (|lanes[c]| <= Reach(frame, channel, c) ==> indexes[c] >= counts[c])
  }

  /** Dropping `a` elements, then `b` more, drops `a + b`. */
  lemma DropDrop(s: seq<byte>, a: nat, b: nat)
    requires a + b <= |s|
    ensures s[a..][b..] == s[a + b..]
  {
  }

  /** Loading channel `c` extends the loaded channels by one. */
  lemma LoadStep(counts: seq<nat>, indexes: seq<nat>, b: seq<byte>, b2: seq<byte>,
                 lanes: seq<seq<byte>>, c: nat)
    requires LoadedIn(counts, indexes, b, lanes, c) && DrainedFrom(counts, indexes, c) && c < |counts|
    requires forall k :: 0 <= k < c ==> |lanes[k]| <= BlockSize
    requires |b2| == |b| && BlockSize * c <= |b| && b[..BlockSize * c] == b2[..BlockSize * c]
    requires HoldsIn(b2, c, lanes[c])
    ensures LoadedIn(counts[c := |lanes[c]|], indexes[c := 0], b2, lanes, c + 1)
    ensures DrainedFrom(counts[c := |lanes[c]|], indexes[c := 0], c + 1)
  {
    forall k | 0 <= k < c
      ensures HoldsIn(b2, k, lanes[k])
    {
      assert BlockSize * k + |lanes[k]| <= BlockSize * c by {
        assert BlockSize * (k + 1) <= BlockSize * c;
      }
      HoldsKept(b, b2, BlockSize * c, k, lanes[k]);
    }
  }

  /** Loading the sector read for channel `c` of a round extends the loaded channels by one. */
  lemma LoadSector(input: seq<byte>, cc: nat, quota: nat, c: nat, read: seq<byte>,
                   counts: seq<nat>, indexes: seq<nat>, b: seq<byte>, b2: seq<byte>)
    requires Supported(cc) && c < cc && SectorSize * c <= |input| && read == SectorRead(input, c)
    requires LoadedIn(counts, indexes, b, DecodeLanes(input, cc, quota), c) && DrainedFrom(counts, indexes, c)
    requires |b2| == |b| && BlockSize * c <= |b| && b[..BlockSize * c] == b2[..BlockSize * c]
    requires HoldsIn(b2, c, DecodedSamples(read)[..Min(|read| / 2, quota)])
    ensures LoadedIn(counts[c := Min(|read| / 2, quota)], indexes[c := 0], b2, DecodeLanes(input, cc, quota), c + 1)
    ensures DrainedFrom(counts[c := Min(|read| / 2, quota)], indexes[c := 0], c + 1)
  {
    var lanes := DecodeLanes(input, cc, quota);
    ChannelLane(input, cc, quota, c);
    DecodeLanesBounded(input, cc, quota);
    LoadStep(counts, indexes, b, b2, lanes, c);
  }

  /**
   * Once every channel a round reads is loaded, the blocks hold the round's
   * lanes and the indexes stand at its start.
   */
  lemma LoadDone(input: seq<byte>, cc: nat, quota: nat, counts: seq<nat>, indexes: seq<nat>, b: seq<byte>)
    requires Supported(cc) && |counts| == cc && |b| == BlockSize * cc
    requires LoadedIn(counts, indexes, b, DecodeLanes(input, cc, quota), ReadCount(input, cc))
    requires DrainedFrom(counts, indexes, ReadCount(input, cc))
    ensures StockedIn(counts, b, DecodeLanes(input, cc, quota))
    ensures CursorIn(counts, indexes, DecodeLanes(input, cc, quota), 0, 0)
  {
    var lanes := DecodeLanes(input, cc, quota);
    DecodeLanesBounded(input, cc, quota);
    forall c | ReadCount(input, cc) <= c < cc
      ensures lanes[c] == [] && HoldsIn(b, c, lanes[c])
    {
      assert BlockSize * c <= BlockSize * cc;
    }
  }

  /** The frame after slot `channel` of frame `frame`. */
  function NextFrame(frame: nat, channel: nat, cc: nat): nat
  {
    if channel + 1 == cc then frame + 1 else frame
  }

  /** The slot after `channel`, wrapping to 0 after the last channel. */
  function NextChannel(channel: nat, cc: nat): nat
    requires cc > 0
  {
    (channel + 1) % cc
  }

  /** The next slot is one further on, and still a slot. */
  lemma NextSlot(frame: nat, channel: nat, cc: nat)
    requires Supported(cc) && channel < cc
    ensures NextChannel(channel, cc) < cc
    ensures Samples(NextFrame(frame, channel, cc), cc) + NextChannel(channel, cc) == Samples(frame, cc) + channel + 1
  {
  }

  /** Slot `channel` of frame `frame` of the interleaved lanes is that frame of that lane, or the origin. */
  lemma InterleaveAt(lanes: seq<seq<byte>>, cc: nat, frame: nat, channel: nat)
    requires Supported(cc) && |lanes| == cc && channel < cc && frame < |lanes[0]|
    ensures Samples(frame, cc) + channel < |Interleave(lanes, cc)|
    ensures Interleave(lanes, cc)[Samples(frame, cc) + channel] == Slot(lanes, frame, channel)
  {
    SlotOf(frame, channel, cc);
  }

  /**
   * Emitting slot `channel` of frame `frame` after the slots before it runs
   * the output one slot further through the interleaved frames, and the
   * next slot is still within the round or at its end.
   */
  lemma SlotAppend(base: seq<byte>, lanes: seq<seq<byte>>, cc: nat, frame: nat, channel: nat, data: seq<byte>)
    requires Supported(cc) && |lanes| == cc && channel < cc && frame < |lanes[0]|
    requires data == base + Interleave(lanes, cc)[..Samples(frame, cc) + channel] + [Slot(lanes, frame, channel)]
    ensures var next, after := NextFrame(frame, channel, cc), NextChannel(channel, cc);
      data == base + Interleave(lanes, cc)[..Samples(next, cc) + after] &&
      Samples(next, cc) + after == Samples(frame, cc) + channel + 1 && after < cc &&
      next <= |lanes[0]| && (after > 0 ==> next < |lanes[0]|)
  {
    InterleaveAt(lanes, cc, frame, channel);
    NextSlot(frame, channel, cc);
    AppendNext(base, Interleave(lanes, cc), Samples(frame, cc) + channel);
  }

  /** Appending the next element to a prefix extends the prefix by one. */
  lemma AppendNext(a: seq<byte>, s: seq<byte>, n: nat)
    requires n < |s|
    ensures a + s[..n] + [s[n]] == a + s[..n + 1]
  {
    assert s[..n + 1] == s[..n] + [s[n]];
  }

  /** The byte at offset `k` of a block that starts with `lane` is `lane[k]`. */
  lemma HoldsAt(b: seq<byte>, c: nat, lane: seq<byte>, k: nat)
    requires HoldsIn(b, c, lane) && k < |lane|
    ensures BlockSize * c + k < |b| && b[BlockSize * c + k] == lane[k]
  {
    assert b[BlockSize * c .. BlockSize * c + |lane|][k] == b[BlockSize * c + k];
  }

  /**
   * One slot of the emit loop: a channel with samples left is indexed at the
   * current frame, which its lane holds, and moving past it advances its
   * index; a channel without has run out of lane, and its index stays.
   */
  lemma CursorAdvance(counts: seq<nat>, indexes: seq<nat>, lanes: seq<seq<byte>>, frame: nat, channel: nat, cc: nat)
    requires Supported(cc) && |counts| == cc && channel < cc
    requires CursorIn(counts, indexes, lanes, frame, channel)
    requires lanes[channel] != [] ==> counts[channel] == |lanes[channel]|
    ensures indexes[channel] < counts[channel] ==>
      indexes[channel] == frame < |lanes[channel]| &&
      CursorIn(counts, indexes[channel := indexes[channel] + 1], lanes, NextFrame(frame, channel, cc), NextChannel(channel, cc))
    ensures indexes[channel] >= counts[channel] ==>
      |lanes[channel]| <= frame &&
      CursorIn(counts, indexes, lanes, NextFrame(frame, channel, cc), NextChannel(channel, cc))
  {
    ReachNext(frame, channel, cc);
  }

  /** Moving past slot `channel` moves that channel on to the next frame and no other. */
  lemma ReachNext(frame: nat, channel: nat, cc: nat)
    requires Supported(cc) && channel < cc
    ensures Reach(frame, channel, channel) == frame
    ensures forall c :: 0 <= c < cc ==>
      Reach(NextFrame(frame, channel, cc), NextChannel(channel, cc), c) == (if c == channel then frame + 1 else Reach(frame, channel, c))
  {
    if channel + 1 == cc {
      assert NextChannel(channel, cc) == 0;
    } else {
      assert NextChannel(channel, cc) == channel + 1;
    }
  }

  /** Indexes at a frame every lane has run out by leave every channel drained. */
  lemma CursorDrained(counts: seq<nat>, indexes: seq<nat>, lanes: seq<seq<byte>>, frame: nat)
    requires CursorIn(counts, indexes, lanes, frame, 0)
    requires forall c :: 0 <= c < |lanes| ==> |lanes[c]| <= frame
    ensures DrainedFrom(counts, indexes, 0)
  {
  }

  /** Concatenation is associative. */
  lemma AppendAssoc(a: seq<byte>, b: seq<byte>, c: seq<byte>)
    ensures a + b + c == a + (b + c)
  {
  }

  /** A prefix reaching into the middle part of three is the first part and a prefix of the middle. */
  lemma PrefixThrough(a: seq<byte>, b: seq<byte>, c: seq<byte>, n: nat)
    requires n <= |b|
    ensures (a + b + c)[..|a| + n] == a + b[..n]
  {
    assert (a + b + c)[..|a| + n] == (a + b)[..|a| + n];
  }

  /**
   * Progress through the decode `run` of some samples over `input`: `done` is
   * its output so far and `used` the bytes read so far. While no read came up
   * short, the run is that prefix followed by the run of the `left` samples
   * still wanted over the unread bytes; after a short read it is exactly the
   * prefix.
   */
  ghost predicate RunAfter(run: (seq<byte>, nat), input: seq<byte>, cc: nat, done: seq<byte>, used: nat, left: nat, short: bool)
    requires Supported(cc)
  {
    used <= |input| &&
    if short then run == (done, used)
    else
      run.0 == done + DecodeRun(input[used..], left, cc).0 &&
      run.1 == used + DecodeRun(input[used..], left, cc).1
  }

  /** A round whose reads come up short ends the run: it is the prefix and that round. */
  lemma RunAfterShort(run: (seq<byte>, nat), input: seq<byte>, cc: nat, done: seq<byte>, used: nat, left: nat, next: nat)
    requires Supported(cc) && left >= cc && RunAfter(run, input, cc, done, used, left, false)
    requires RoundShort(input[used..], cc)
    ensures RunAfter(run, input, cc, done + DecodeRound(input[used..], left, cc), |input|, next, true)
  {
    var rest := input[used..];
    DecodeRunRound(rest, left, cc);
    assert DecodeRun(rest, left, cc) == (DecodeRound(rest, left, cc), |rest|);
  }

  /** A round whose reads are all full keeps the progress relation for the samples it leaves. */
  lemma RunAfterFull(run: (seq<byte>, nat), input: seq<byte>, cc: nat, done: seq<byte>, used: nat, left: nat)
    requires Supported(cc) && left >= cc && RunAfter(run, input, cc, done, used, left, false)
    requires !RoundShort(input[used..], cc)
    ensures RunAfter(run, input, cc, done + DecodeRound(input[used..], left, cc), used + RoundBytes(cc), Later(left, cc), false)
  {
    var rest := input[used..];
    var round := DecodeRound(rest, left, cc);
    DecodeRunRound(rest, left, cc);
    DropDrop(input, used, RoundBytes(cc));
    var pending := DecodeRun(input[used + RoundBytes(cc)..], Later(left, cc), cc);
    assert DecodeRun(rest, left, cc) == (round + pending.0, RoundBytes(cc) + pending.1);
    AppendAssoc(done, round, pending.0);
  }

  /** A prefix of a round's output extends the run's output so far to a prefix of the run's output. */
  lemma RunAfterPrefix(run: (seq<byte>, nat), input: seq<byte>, cc: nat, done: seq<byte>, used: nat, left: nat, n: nat)
    requires Supported(cc) && left >= cc && RunAfter(run, input, cc, done, used, left, false)
    requires n <= |DecodeRound(input[used..], left, cc)|
    ensures |done| + n <= |run.0|
    ensures run.0[..|done| + n] == done + DecodeRound(input[used..], left, cc)[..n]
  {
    var rest := input[used..];
    var round := DecodeRound(rest, left, cc);
    DecodeRunRound(rest, left, cc);
    if RoundShort(rest, cc) {
      PrefixThrough(done, round, [], n);
    } else {
      var pending := DecodeRun(rest[RoundBytes(cc)..], Later(left, cc), cc);
      AppendAssoc(done, round, pending.0);
      PrefixThrough(done, round, pending.0, n);
    }
  }

  /** Once a read comes up short or too few samples are left for a frame, the run is its prefix. */
  lemma RunAfterDone(run: (seq<byte>, nat), input: seq<byte>, cc: nat, done: seq<byte>, used: nat, left: nat, short: bool)
    requires Supported(cc) && RunAfter(run, input, cc, done, used, left, short)
    requires short || left < cc
    ensures run == (done, used)
  {
    if !short {
      assert DecodeRun(input[used..], left, cc) == ([], 0);
      assert done + [] == done;
    }
  }

  // Encoding

  /** Where interleaved sample `j` goes: its channel's block, at its frame. */
  function BlockCell(j: nat, cc: nat): nat
  {
    BlockSize * Channel(j, cc) + Frames(j, cc)
  }

  /** Each channel has counted the samples of its lane among the first `n` interleaved samples. */
  ghost predicate Counted(counts: seq<nat>, n: nat, cc: nat)
  {
    |counts| == cc && forall c :: 0 <= c < cc ==> counts[c] == LaneLength(n, cc, c)
  }

  /** Every sample of `taken` sits in its channel's block, at its frame. */
  ghost predicate CellsIn(b: seq<byte>, taken: seq<byte>, cc: nat)
  {
    |b| == BlockSize * cc && |taken| <= Samples(BlockSize, cc) &&
    forall j :: 0 <= j < |taken| ==> BlockCell(j, cc) < |b| && b[BlockCell(j, cc)] == taken[j]
  }

  /** Slot `channel` of frame `frame` goes to that frame of that channel's block, and its lane holds `frame` samples before it. */
  lemma CellOf(frame: nat, channel: nat, cc: nat)
    requires Supported(cc) && channel < cc
    ensures BlockCell(Samples(frame, cc) + channel, cc) == BlockSize * channel + frame
    ensures LaneLength(Samples(frame, cc) + channel, cc, channel) == frame
  {
    SlotOf(frame, channel, cc);
  }

  /** One more interleaved sample adds one to its own channel's lane and leaves the others. */
  lemma LaneLengthStep(n: nat, cc: nat, c: nat)
    requires Supported(cc) && c < cc
    ensures LaneLength(n + 1, cc, c) == LaneLength(n, cc, c) + (if c == Channel(n, cc) then 1 else 0)
  {
    if cc == 2 {
      if n % 2 == 0 {
        assert (n + 1) / 2 == n / 2 && (n + 1) % 2 == 1;
      } else {
        assert (n + 1) / 2 == n / 2 + 1 && (n + 1) % 2 == 0;
      }
    }
  }

  /** Counting sample `n` in its channel keeps every count right. */
  lemma CountedStep(counts: seq<nat>, n: nat, cc: nat)
    requires Supported(cc) && Counted(counts, n, cc)
    ensures Channel(n, cc) < cc
    ensures Counted(counts[Channel(n, cc) := counts[Channel(n, cc)] + 1], n + 1, cc)
  {
    ChannelArithmetic(n, cc);
    forall c | 0 <= c < cc
      ensures LaneLength(n + 1, cc, c) == LaneLength(n, cc, c) + (if c == Channel(n, cc) then 1 else 0)
    {
      LaneLengthStep(n, cc, c);
    }
  }

  /** Distinct samples of a round go to distinct cells. */
  lemma BlockCellDistinct(i: nat, j: nat, cc: nat)
    requires Supported(cc) && i < j < Samples(BlockSize, cc)
    ensures BlockCell(i, cc) != BlockCell(j, cc) && BlockCell(j, cc) < BlockSize * cc
  {
    ChannelArithmetic(i, cc);
    ChannelArithmetic(j, cc);
  }

  /** Storing the next sample in its cell keeps every sample in its cell. */
  lemma CellsStep(b: seq<byte>, taken: seq<byte>, x: byte, cc: nat)
    requires Supported(cc) && CellsIn(b, taken, cc) && |taken| < Samples(BlockSize, cc)
    ensures BlockCell(|taken|, cc) < |b|
    ensures CellsIn(b[BlockCell(|taken|, cc) := x], taken + [x], cc)
  {
    ChannelArithmetic(|taken|, cc);
    forall j | 0 <= j < |taken|
      ensures BlockCell(j, cc) != BlockCell(|taken|, cc)
    {
      BlockCellDistinct(j, |taken|, cc);
    }
  }

  /** With every sample in its cell, each channel's block starts with the channel's lane. */
  lemma CellsLanes(b: seq<byte>, taken: seq<byte>, cc: nat)
    requires Supported(cc) && CellsIn(b, taken, cc)
    ensures forall c :: 0 <= c < cc ==> HoldsIn(b, c, Lane(taken, cc, c))
  {
    forall c | 0 <= c < cc
      ensures HoldsIn(b, c, Lane(taken, cc, c))
    {
      var lane := Lane(taken, cc, c);
      assert |lane| <= BlockSize by {
        ChannelArithmetic(|taken|, cc);
      }
      forall k | 0 <= k < |lane|
        ensures b[BlockSize * c + k] == lane[k]
      {
        CellOf(k, c, cc);
      }
      assert b[BlockSize * c .. BlockSize * c + |lane|] == lane;
    }
  }

  /** Samples the channels below `c` hold among `n` interleaved samples. */
  function LanesBefore(n: nat, cc: nat, c: nat): nat
  {
    if c == 0 then 0 else LanesBefore(n, cc, c - 1) + LaneLength(n, cc, c - 1)
  }

  /** Once every channel is counted, or an empty lane is reached, every sample is counted. */
  lemma LanesBeforeDone(n: nat, cc: nat, c: nat)
    requires Supported(cc) && c <= cc && (c == cc || LaneLength(n, cc, c) == 0)
    ensures LanesBefore(n, cc, c) == n
  {
    if cc == 2 {
      assert n == 2 * (n / 2) + n % 2;
      if c == 2 {
        assert LanesBefore(n, cc, 1) == LaneLength(n, cc, 0);
        assert LanesBefore(n, cc, 2) == LanesBefore(n, cc, 1) + LaneLength(n, cc, 1);
      } else if c == 1 {
        assert LanesBefore(n, cc, c) == LaneLength(n, cc, 0);
      }
    } else if c == 1 {
      assert LanesBefore(n, cc, c) == LaneLength(n, cc, 0);
    }
  }

  /** A block wholly at or above `top` still holds its lane when nothing from `top` on changes. */
  lemma HoldsKeptAbove(b: seq<byte>, b2: seq<byte>, top: nat, c: nat, lane: seq<byte>)
    requires |b| == |b2| && top <= BlockSize * c && top <= |b| && b[top..] == b2[top..]
    requires HoldsIn(b, c, lane)
    ensures HoldsIn(b2, c, lane)
  {
    var lo: nat := BlockSize * c - top;
    assert b[BlockSize * c .. BlockSize * c + |lane|] == b[top..][lo .. lo + |lane|];
    assert b2[BlockSize * c .. BlockSize * c + |lane|] == b2[top..][lo .. lo + |lane|];
  }

  /** The library's test for a whole sector write: the bytes put, in blocks, make a block size. */
  lemma WholeSector(put: nat)
    requires put <= SectorSize
    ensures put / SectorBlocks == BlockSize <==> put == SectorSize
  {
    LayoutConstants();
  }

  /** The sectors from channel `c` on: channel `c`'s padded sector, then those after it. */
  lemma SectorsNext(taken: seq<byte>, cc: nat, c: nat)
    requires Supported(cc) && c < cc && |taken| <= Samples(BlockSize, cc) && LaneLength(|taken|, cc, c) != 0
    ensures EncodeSectors(taken, cc, c) == EncodedSector(Padded(Lane(taken, cc, c))) + EncodeSectors(taken, cc, c + 1)
  {
  }

  /**
   * The first `i` samples of `input` are in their cells of `b`, `counts`
   * has each channel's share of them, and `rest` is the input after them.
   */
  ghost predicate GatheredIn(rest: seq<byte>, b: seq<byte>, counts: seq<nat>, input: seq<byte>, i: nat, cc: nat)
  {
    i <= |input| && rest == input[i..] && CellsIn(b, input[..i], cc) && Counted(counts, i, cc)
  }

  /** Storing sample `i` in its cell and counting it in its channel gathers one sample more. */
  lemma GatherStep(b: seq<byte>, counts: seq<nat>, input: seq<byte>, i: nat, cc: nat)
    requires Supported(cc) && i < |input| && i < Samples(BlockSize, cc)
    requires GatheredIn(input[i..], b, counts, input, i, cc)
    ensures BlockCell(i, cc) < |b| && Channel(i, cc) < cc
    ensures GatheredIn(input[i + 1..], b[BlockCell(i, cc) := input[i]], counts[Channel(i, cc) := counts[Channel(i, cc)] + 1], input, i + 1, cc)
  {
    CellsStep(b, input[..i], input[i], cc);
    assert input[..i] + [input[i]] == input[..i + 1];
    CountedStep(counts, i, cc);
  }

  /**
   * A sequence that agrees with `before` below `p` and from `p + got` on,
   * for `got` at most 1, is `before` itself or `before` with element `p`
   * replaced.
   */
  lemma Overwritten(before: seq<byte>, after: seq<byte>, p: nat, got: nat)
    requires got <= 1 && p + got <= |before| == |after|
    requires after[..p] == before[..p] && after[p + got..] == before[p + got..]
    ensures got == 0 ==> after == before
    ensures got == 1 ==> after == before[p := after[p]]
  {
    if got == 0 {
      assert after == after[..p] + after[p..];
      assert before == before[..p] + before[p..];
    } else {
      assert after == after[..p] + [after[p]] + after[p + 1..];
      assert before[p := after[p]] == before[..p] + [after[p]] + before[p + 1..];
    }
  }

  /**
   * With every channel's index counted after slot `channel` of frame
   * `frame`, the channel's index is the frame, and the read loop has read
   * every frame exactly when that index has reached `countBlock`.
   */
  lemma FrameCursor(indexes: seq<nat>, i: nat, frame: nat, channel: nat, countBlock: nat, cc: nat)
    requires Supported(cc) && channel < cc && i == Samples(frame, cc) + channel
    requires Counted(indexes, i, cc) && frame <= countBlock && (channel > 0 ==> frame < countBlock)
    ensures indexes[channel] == frame
    ensures indexes[channel] < countBlock <==> i < Samples(countBlock, cc)
    ensures indexes[channel] >= countBlock ==> i == Samples(countBlock, cc)
  {
    CellOf(frame, channel, cc);
  }

  /** The channels below `c` hold no more than all the samples. */
  lemma LanesBeforeBound(n: nat, cc: nat, c: nat)
    requires Supported(cc) && c <= cc
    ensures LanesBefore(n, cc, c) <= n
  {
    if c == cc {
      LanesBeforeDone(n, cc, c);
    } else if c == 1 {
      assert LanesBefore(n, cc, 1) == LaneLength(n, cc, 0);
    }
  }

  /** The sectors one encode round of a run of `count` samples writes over `input`. */
  function EncodeRound(input: seq<byte>, count: nat, cc: nat): seq<byte>
    requires Supported(cc)
  {
    EncodeSectors(input[..Min(|input|, RoundSamples(count, cc))], cc, 0)
  }

  /** An encode run of a supported channel count, one round unfolded. */
  lemma EncodeRunRound(input: seq<byte>, count: nat, cc: nat)
    requires Supported(cc) && count >= cc
    ensures |input| < RoundSamples(count, cc) ==> EncodeRun(input, count, cc) == (EncodeRound(input, count, cc), |input|)
    ensures RoundSamples(count, cc) <= |input| ==> (
      EncodeRun(input, count, cc).0 == EncodeRound(input, count, cc) + EncodeRun(input[RoundSamples(count, cc)..], Later(count, cc), cc).0 &&
      EncodeRun(input, count, cc).1 == RoundSamples(count, cc) + EncodeRun(input[RoundSamples(count, cc)..], Later(count, cc), cc).1)
  {
    assert input[..|input|] == input;
  }

  /**
   * Progress through the encode `run` of some samples over `input`, as
   * `RunAfter` is for a decode: `done` is its output so far and `used` the
   * bytes read so far.
   */
  ghost predicate EncodeAfter(run: (seq<byte>, nat), input: seq<byte>, cc: nat, done: seq<byte>, used: nat, left: nat, short: bool)
    requires Supported(cc)
  {
    used <= |input| &&
    if short then run == (done, used)
    else
      run.0 == done + EncodeRun(input[used..], left, cc).0 &&
      run.1 == used + EncodeRun(input[used..], left, cc).1
  }

  /** A round that runs out of input ends the run: it is the prefix and that round. */
  lemma EncodeAfterShort(run: (seq<byte>, nat), input: seq<byte>, cc: nat, done: seq<byte>, used: nat, left: nat, next: nat)
    requires Supported(cc) && left >= cc && EncodeAfter(run, input, cc, done, used, left, false)
    requires |input| - used < RoundSamples(left, cc)
    ensures EncodeAfter(run, input, cc, done + EncodeRound(input[used..], left, cc), |input|, next, true)
  {
    EncodeRunRound(input[used..], left, cc);
  }

  /** A round that finds all its frames keeps the progress relation for the samples it leaves. */
  lemma EncodeAfterFull(run: (seq<byte>, nat), input: seq<byte>, cc: nat, done: seq<byte>, used: nat, left: nat)
    requires Supported(cc) && left >= cc && EncodeAfter(run, input, cc, done, used, left, false)
    requires RoundSamples(left, cc) <= |input| - used
    ensures EncodeAfter(run, input, cc, done + EncodeRound(input[used..], left, cc), used + RoundSamples(left, cc), Later(left, cc), false)
  {
    var rest := input[used..];
    var round := EncodeRound(rest, left, cc);
    EncodeRunRound(rest, left, cc);
    DropDrop(input, used, RoundSamples(left, cc));
    var pending := EncodeRun(input[used + RoundSamples(left, cc)..], Later(left, cc), cc);
    AppendAssoc(done, round, pending.0);
  }

  /** A whole round, short or full, keeps the progress relation for the samples it leaves. */
  lemma EncodeAfterNext(run: (seq<byte>, nat), input: seq<byte>, cc: nat, done: seq<byte>, used: nat, left: nat, short: bool, later: nat)
    requires Supported(cc) && left >= cc && EncodeAfter(run, input, cc, done, used, left, false)
    requires short == (|input| - used < RoundSamples(left, cc))
    requires !short ==> later == Later(left, cc)
    ensures EncodeAfter(run, input, cc, done + EncodeRound(input[used..], left, cc),
      used + Min(|input| - used, RoundSamples(left, cc)), later, short)
  {
    if short {
      EncodeAfterShort(run, input, cc, done, used, left, later);
    } else {
      EncodeAfterFull(run, input, cc, done, used, left);
    }
  }

  /** A prefix of a round's sectors extends the run's output so far to a prefix of the run's output. */
  lemma EncodeAfterPrefix(run: (seq<byte>, nat), input: seq<byte>, cc: nat, done: seq<byte>, used: nat, left: nat, n: nat)
    requires Supported(cc) && left >= cc && EncodeAfter(run, input, cc, done, used, left, false)
    requires n <= |EncodeRound(input[used..], left, cc)|
    ensures |done| + |EncodeRound(input[used..], left, cc)| <= |run.0|
    ensures run.0[..|done| + n] == done + EncodeRound(input[used..], left, cc)[..n]
  {
    var rest := input[used..];
    var round := EncodeRound(rest, left, cc);
    EncodeRunRound(rest, left, cc);
    if |rest| < RoundSamples(left, cc) {
      PrefixThrough(done, round, [], n);
    } else {
      var pending := EncodeRun(rest[RoundSamples(left, cc)..], Later(left, cc), cc);
      AppendAssoc(done, round, pending.0);
      PrefixThrough(done, round, pending.0, n);
    }
  }

  /** Once the input runs out or too few samples are left for a frame, the run is its prefix. */
  lemma EncodeAfterDone(run: (seq<byte>, nat), input: seq<byte>, cc: nat, done: seq<byte>, used: nat, left: nat, short: bool)
    requires Supported(cc) && EncodeAfter(run, input, cc, done, used, left, short)
    requires short || left < cc
    ensures run == (done, used)
  {
    if !short {
      assert EncodeRun(input[used..], left, cc) == ([], 0);
      assert done + [] == done;
    }
  }

  /**
   * The bytes `passes` loop passes of `length` samples decode: the first
   * pass over `first`, where the source stands, and every later one over
   * `again`, where the seek back to the loop start leaves it.
   */
  function LoopRun(first: seq<byte>, again: seq<byte>, length: nat, cc: nat, passes: nat): (run: seq<byte>)
    requires cc <= 2
    ensures |run| <= passes * length
    decreases passes
  {
    if passes == 0 then []
    else if passes == 1 then
      PassWithin(first, length, cc);
      DecodeRun(first, length, cc).0
    else
      PassWithin(again, length, cc);
      MulStep(passes - 1, length);
      LoopRun(first, again, length, cc, passes - 1) + DecodeRun(again, length, cc).0
  }

  /** A pass writes at most its `length` samples, whatever the channel count. */
  lemma PassWithin(input: seq<byte>, length: nat, cc: nat)
    requires cc <= 2
    ensures |DecodeRun(input, length, cc).0| <= length
  {
    if Supported(cc) {
      DecodeRunBound(input, length, cc);
    }
  }

  /**
   * Later passes only append: the bytes of `k` passes begin the bytes of
   * any larger number of passes, so every run begins with the first pass.
   */
  lemma {:induction false} LoopRunExtends(first: seq<byte>, again: seq<byte>, length: nat, cc: nat, k: nat, passes: nat)
    requires cc <= 2 && 1 <= k <= passes
    ensures DecodeRun(first, length, cc).0 <= LoopRun(first, again, length, cc, passes)
    ensures LoopRun(first, again, length, cc, k) <= LoopRun(first, again, length, cc, passes)
    decreases passes
  {
    if passes > 1 {
      var before := LoopRun(first, again, length, cc, passes - 1);
      var pass := DecodeRun(again, length, cc).0;
      assert LoopRun(first, again, length, cc, passes) == before + pass;
      if passes > k {
        LoopRunExtends(first, again, length, cc, k, passes - 1);
      } else {
        LoopRunExtends(first, again, length, cc, 1, passes - 1);
      }
    }
  }

  /**
   * No pass writes more than its `length` samples, and when both the first
   * pass and a pass over `again` decode in full, `passes` passes write
   * exactly `passes * length` bytes.
   */
  lemma {:induction false} LoopRunLength(first: seq<byte>, again: seq<byte>, length: nat, cc: nat, passes: nat)
    requires Supported(cc)
    ensures |LoopRun(first, again, length, cc, passes)| <= passes * length
    ensures |DecodeRun(first, length, cc).0| == length && |DecodeRun(again, length, cc).0| == length ==>
      |LoopRun(first, again, length, cc, passes)| == passes * length
    decreases passes
  {
    if passes == 1 {
      PassBound(first, length, cc);
    } else if passes > 1 {
      var before := LoopRun(first, again, length, cc, passes - 1);
      var pass := DecodeRun(again, length, cc).0;
      assert LoopRun(first, again, length, cc, passes) == before + pass;
      LoopRunLength(first, again, length, cc, passes - 1);
      PassBound(again, length, cc);
      MulStep(passes - 1, length);
    }
  }

  /** A pass writes at most its `length` samples. */
  lemma PassBound(input: seq<byte>, length: nat, cc: nat)
    requires Supported(cc)
    ensures |DecodeRun(input, length, cc).0| <= length
  {
    DecodeRunBound(input, length, cc);
  }

  lemma MulStep(n: nat, length: nat)
    ensures n * length + length == (n + 1) * length
  {
  }

  /**
   * One more pass, cut to the room the output has left, extends the bytes
   * written by the passes so far to the same prefix of one more pass.
   */
  lemma LoopRunNext(first: seq<byte>, again: seq<byte>, length: nat, cc: nat, passes: nat, count: nat, room: nat)
    requires cc <= 2
    requires |LoopRun(first, again, length, cc, passes)| <= room
    requires count == Min(|DecodeRun(if passes == 0 then first else again, length, cc).0|, room - |LoopRun(first, again, length, cc, passes)|)
    ensures var before := LoopRun(first, again, length, cc, passes);
      var after := LoopRun(first, again, length, cc, passes + 1);
      && |before| + count == Min(|after|, room)
      && after[..|before| + count] == before + DecodeRun(if passes == 0 then first else again, length, cc).0[..count]
  {
    var before := LoopRun(first, again, length, cc, passes);
    var pass := DecodeRun(if passes == 0 then first else again, length, cc).0;
    assert LoopRun(first, again, length, cc, passes + 1) == before + pass;
    assert (before + pass)[..|before| + count] == before + pass[..count];
  }

  class IoContext {
    const header: Header
    const source: Source
    const output: Sink
    const channelCount: nat
    /** Per channel: how many samples of its block the round uses. */
    const counts: array<nat>
    /** Per channel: the next sample of its block to use. */
    const indexes: array<nat>
    /** One block per channel, back to back. */
    const blocks: array<byte>
    const sector: array<byte>

    ghost predicate Valid()
      reads output
    {
      channelCount == ToChannelCount(header.format)
      && counts.Length == channelCount && indexes.Length == channelCount
      && blocks.Length == BlockSize * channelCount && sector.Length == SectorSize
      && blocks != sector && counts != indexes
      && output.Valid()
    }

    /** Every channel has used up its block: nothing stale is left to emit. */
    ghost predicate Drained()
      reads counts, indexes
    {
      DrainedFrom(counts[..], indexes[..], 0)
    }

    /**
     * Makes a context for `header` over `source` and `output`. The counts and
     * indexes start at zero, so a fresh context is drained.
     */
    constructor(header: Header, source: Source, output: Sink)
      requires output.Valid()
      ensures Valid() && Drained()
      ensures this.header == header && this.source == source && this.output == output
      ensures fresh(counts) && fresh(indexes) && fresh(blocks) && fresh(sector)
    {
      this.header := header;
      this.source := source;
      this.output := output;
      var channelCount := ToChannelCount(header.format);
      this.channelCount := channelCount;
      blocks := new byte[BlockSize * channelCount](_ => 0);
      counts := new nat[channelCount](_ => 0);
      indexes := new nat[channelCount](_ => 0);
      sector := new byte[SectorSize](_ => 0);
    }

    /** Channel `c`'s block starts with `lane`. */
    ghost predicate Holds(c: nat, lane: seq<byte>)
      reads blocks
    {
      HoldsIn(blocks[..], c, lane)
    }

    /** The blocks hold `lanes`, with the counts to match. */
    ghost predicate Stocked(lanes: seq<seq<byte>>)
      reads counts, blocks
    {
      StockedIn(counts[..], blocks[..], lanes)
    }

    /** The read indexes stand at frame `frame`, slot `channel`, of `lanes`. */
    ghost predicate Cursor(lanes: seq<seq<byte>>, frame: nat, channel: nat)
      reads counts, indexes
    {
      CursorIn(counts[..], indexes[..], lanes, frame, channel)
    }

    /**
     * Decodes the `got` bytes read into the sector into channel `channel`'s
     * block; the channel's count is the samples decoded, cut to
     * `count / channelCount`, and its index is reset. Returns whether the read
     * came up short of a whole block.
     */
    method LoadChannel(channel: nat, count: nat, got: nat) returns (error: bool)
      requires Valid() && Supported(channelCount) && channel < channelCount && got <= SectorSize
      modifies counts, indexes, blocks
      ensures error == (got / 2 != BlockSize)
      ensures counts[channel] == Min(got / 2, Frames(count, channelCount)) && indexes[channel] == 0
      ensures Holds(channel, DecodedSamples(sector[..got])[..counts[channel]])
      ensures counts[..] == old(counts[..])[channel := counts[channel]]
      ensures indexes[..] == old(indexes[..])[channel := 0]
      ensures blocks[..BlockSize * channel] == old(blocks[..BlockSize * channel])
    {
      var decoded := DecodeSector(sector, got, blocks, BlockSize * channel);
      ghost var samples := DecodedSamples(sector[..got]);
      counts[channel] := decoded;
      error := counts[channel] != BlockSize;
      var quota := count / channelCount;
      assert quota == Frames(count, channelCount) by {
        ChannelArithmetic(count, channelCount);
      }
      if counts[channel] > quota {
        counts[channel] := quota;
      }
      indexes[channel] := 0;
      assert Holds(channel, samples[..counts[channel]]) by {
        HoldsPrefix(blocks[..], channel, samples, counts[channel]);
      }
    }

    /**
     * Reads channel `channel`'s sector of a round over `input`, every earlier
     * channel's sector having been read in full, and loads it. Returns whether
     * the read came up short.
     */
    method ReadChannel(channel: nat, count: nat, ghost input: seq<byte>) returns (error: bool)
      requires Valid() && Supported(channelCount) && channel < channelCount
      requires SectorSize * channel <= |input| && source.Remaining() == input[SectorSize * channel..]
      requires LoadedIn(counts[..], indexes[..], blocks[..], DecodeLanes(input, channelCount, Frames(count, channelCount)), channel)
      requires DrainedFrom(counts[..], indexes[..], channel)
      modifies source, counts, indexes, blocks, sector
      ensures source.data == old(source.data) && source.statuses == old(source.statuses) && source.log == old(source.log)
      ensures error == (|input| < SectorSize * (channel + 1))
      ensures source.Remaining() == input[Min(|input|, SectorSize * (channel + 1))..]
      ensures LoadedIn(counts[..], indexes[..], blocks[..], DecodeLanes(input, channelCount, Frames(count, channelCount)), channel + 1)
      ensures DrainedFrom(counts[..], indexes[..], channel + 1)
    {
      ghost var before := blocks[..];
      ghost var countsBefore := counts[..];
      ghost var indexesBefore := indexes[..];
      var got := source.Read(sector, 0, SectorSize);
      assert sector[..got] == SectorRead(input, channel) && got == Min(SectorSize, |input| - SectorSize * channel) by {
        ChannelLane(input, channelCount, Frames(count, channelCount), channel);
      }
      assert source.Remaining() == input[Min(|input|, SectorSize * (channel + 1))..] by {
        DropDrop(input, SectorSize * channel, got);
      }
      error := LoadChannel(channel, count, got);
      LoadSector(input, channelCount, Frames(count, channelCount), channel, sector[..got],
        countsBefore, indexesBefore, before, blocks[..]);
    }

    /**
     * Reads one round of `count` samples: one sector per channel, stopping
     * after the first short read, each decoded into its channel's block with
     * its count cut to the quota `count / channelCount`. Returns whether a
     * read came up short; channels after it keep their counts and indexes.
     */
    method ReadRound(count: nat) returns (error: bool)
      requires Valid() && Drained() && Supported(channelCount) && count >= channelCount
      modifies source, counts, indexes, blocks, sector
      ensures Valid()
      ensures source.data == old(source.data) && source.statuses == old(source.statuses) && source.log == old(source.log)
      ensures error == RoundShort(old(source.Remaining()), channelCount)
      ensures source.Remaining() == old(source.Remaining())[Min(|old(source.Remaining())|, RoundBytes(channelCount))..]
      ensures Stocked(DecodeLanes(old(source.Remaining()), channelCount, Frames(count, channelCount)))
      ensures Cursor(DecodeLanes(old(source.Remaining()), channelCount, Frames(count, channelCount)), 0, 0)
      ensures counts[0] <= Frames(count, channelCount)
      ensures !error ==> counts[0] == RoundFrames(count, channelCount)
    {
      ghost var input := source.Remaining();
      ghost var quota := Frames(count, channelCount);
      ghost var lanes := DecodeLanes(input, channelCount, quota);
      error := false;
      var channel := 0;
      while !error && channel < channelCount
        invariant channel <= channelCount
        invariant source.data == old(source.data) && source.statuses == old(source.statuses) && source.log == old(source.log)
        invariant !error ==> SectorSize * channel <= |input| && source.Remaining() == input[SectorSize * channel..]
        invariant error ==> 1 <= channel && SectorSize * (channel - 1) <= |input| < SectorSize * channel
        invariant error ==> source.Remaining() == []
        invariant LoadedIn(counts[..], indexes[..], blocks[..], lanes, channel)
        invariant DrainedFrom(counts[..], indexes[..], channel)
      {
        error := ReadChannel(channel, count, input);
        channel := channel + 1;
      }
      ReadCountEnd(input, channelCount, channel, error);
      assert Stocked(lanes) && Cursor(lanes, 0, 0) by {
        LoadDone(input, channelCount, quota, counts[..], indexes[..], blocks[..]);
      }
      assert counts[0] == |lanes[0]| <= quota && (!error ==> counts[0] == RoundFrames(count, channelCount)) by {
        LaneZero(input, channelCount, quota);
      }
    }

    /**
     * Emits slot `channel` of frame `frame` of `lanes`: the channel's next
     * sample while it has one, the origin for a later channel that has run
     * out. Returns whether the round stops instead, which it does when channel
     * 0 has run out, and otherwise the bytes the write put.
     */
    method EmitSlot(channel: nat, ghost lanes: seq<seq<byte>>, ghost frame: nat) returns (stop: bool, put: nat)
      requires Valid() && Supported(channelCount) && channel < channelCount
      requires Stocked(lanes) && Cursor(lanes, frame, channel)
      requires channel > 0 ==> frame < |lanes[0]|
      modifies output, indexes
      ensures Valid()
      ensures stop <==> channel == 0 && |lanes[0]| <= frame
      ensures stop ==> output.data == old(output.data) && Drained()
      ensures !stop ==> (frame < |lanes[0]| && put == Min(1, old(output.Room())) &&
        output.data == old(output.data) + (if put == 1 then [Slot(lanes, frame, channel)] else []) &&
        Cursor(lanes, NextFrame(frame, channel, channelCount), NextChannel(channel, channelCount)))
    {
      CursorAdvance(counts[..], indexes[..], lanes, frame, channel, channelCount);
      var sample: byte;
      if indexes[channel] < counts[channel] {
        assert blocks[BlockSize * channel + indexes[channel]] == lanes[channel][frame] by {
          HoldsAt(blocks[..], channel, lanes[channel], frame);
        }
        sample := blocks[BlockSize * channel + indexes[channel]];
        indexes[channel] := indexes[channel] + 1;
      } else if channel > 0 {
        sample := Origin;
      } else {
        assert Drained() by {
          CursorDrained(counts[..], indexes[..], lanes, frame);
        }
        return true, 0;
      }
      stop := false;
      put := output.Put(sample);
      assert [sample][..put] == if put == 1 then [sample] else [];
    }

    /**
     * Emits slot `channel` of frame `frame` of `lanes` after the frames
     * before it, written after `base`: the output then runs one slot further
     * through the interleaved frames, or stays put when the round stops or
     * the write fails.
     */
    method WriteSlot(channel: nat, ghost lanes: seq<seq<byte>>, ghost frame: nat, ghost base: seq<byte>) returns (stop: bool, put: nat)
      requires Valid() && Supported(channelCount) && channel < channelCount
      requires Stocked(lanes) && Cursor(lanes, frame, channel)
      requires frame <= |lanes[0]| && (channel > 0 ==> frame < |lanes[0]|)
      requires output.data == base + Interleave(lanes, channelCount)[..Samples(frame, channelCount) + channel]
      modifies output, indexes
      ensures Valid()
      ensures stop <==> channel == 0 && |lanes[0]| <= frame
      ensures stop ==> (output.data == old(output.data) && Drained() &&
        Samples(frame, channelCount) + channel == |Interleave(lanes, channelCount)|)
      ensures !stop ==> Samples(frame, channelCount) + channel < |Interleave(lanes, channelCount)|
      ensures !stop && put != 1 ==> output.data == old(output.data) && old(output.Room()) == 0
      ensures !stop && put == 1 ==> (
        var next, after := NextFrame(frame, channel, channelCount), NextChannel(channel, channelCount);
        output.data == base + Interleave(lanes, channelCount)[..Samples(next, channelCount) + after] &&
        Cursor(lanes, next, after) && after < channelCount &&
        Samples(next, channelCount) + after == Samples(frame, channelCount) + channel + 1 &&
        next <= |lanes[0]| && (after > 0 ==> next < |lanes[0]|))
    {
      stop, put := EmitSlot(channel, lanes, frame);
      if stop {
        assert frame == |lanes[0]| && channel == 0;
        return;
      }
      InterleaveAt(lanes, channelCount, frame, channel);
      if put == 1 {
        SlotAppend(base, lanes, channelCount, frame, channel, output.data);
      }
    }

    /**
     * Emits the frames of `lanes` one byte at a time, cycling through the
     * channels, until channel 0 runs out. Returns the bytes written and
     * whether a write failed, which ends the round at once.
     */
    method WriteRound(ghost lanes: seq<seq<byte>>) returns (written: nat, failed: bool)
      requires Valid() && Supported(channelCount) && Stocked(lanes) && Cursor(lanes, 0, 0)
      modifies output, indexes
      ensures Valid()
      ensures written == Min(|Interleave(lanes, channelCount)|, old(output.Room()))
      ensures failed <==> written < |Interleave(lanes, channelCount)|
      ensures output.data == old(output.data) + Interleave(lanes, channelCount)[..written]
      ensures !failed ==> Drained()
    {
      ghost var frames := Interleave(lanes, channelCount);
      ghost var room := output.Room();
      ghost var frame: nat := 0;
      written := 0;
      failed := false;
      var channel: nat := 0;
      while true
        invariant Valid() && channel < channelCount
        invariant written == Samples(frame, channelCount) + channel
        invariant written <= room && |output.data| == |old(output.data)| + written
        invariant frame <= |lanes[0]| && (channel > 0 ==> frame < |lanes[0]|)
        invariant output.data == old(output.data) + frames[..written]
        invariant Cursor(lanes, frame, channel)
        decreases |frames| - written
      {
        var stop, put := WriteSlot(channel, lanes, frame, old(output.data));
        if stop {
          assert frames[..written] == frames;
          break;
        }
        if put != 1 {
          failed := true;
          return;
        }
        written := written + 1;
        frame := NextFrame(frame, channel, channelCount);
        channel := (channel + 1) % channelCount;
      }
    }

    /**
     * One decode round of a run with `count` samples left: reads a sector per
     * channel, emits the frames they hold, and returns the bytes written,
     * whether a write failed, whether a read came up short, and the samples
     * left after the round. Its output is the head of the run's output.
     */
    method DecodeOneRound(count: nat) returns (written: nat, failed: bool, error: bool, later: nat)
      requires Valid() && Drained() && Supported(channelCount) && count >= channelCount
      modifies source, output, counts, indexes, blocks, sector
      ensures Valid()
      ensures source.data == old(source.data) && source.statuses == old(source.statuses) && source.log == old(source.log)
      ensures source.Remaining() == old(source.Remaining())[Min(|old(source.Remaining())|, RoundBytes(channelCount))..]
      ensures error == RoundShort(old(source.Remaining()), channelCount)
      ensures !error ==> later == Later(count, channelCount) < count
      ensures var round := DecodeRound(old(source.Remaining()), count, channelCount);
        written == Min(|round|, old(output.Room())) && (failed <==> written < |round|) &&
        output.data == old(output.data) + round[..written]
      ensures !failed ==> Drained()
    {
      ghost var rest := source.Remaining();
      error := ReadRound(count);
      written, failed := WriteRound(DecodeLanes(rest, channelCount, Frames(count, channelCount)));
      assert counts[0] * channelCount <= count && (!error ==> count - counts[0] * channelCount == Later(count, channelCount)) by {
        ChannelArithmetic(counts[0], channelCount);
        ChannelArithmetic(count, channelCount);
        RoundStep(count, channelCount);
      }
      later := count - counts[0] * channelCount;
    }

    /**
     * A decode round inside a decode `run` over `input`, with the run's
     * output so far `done` written after `base` and `used` input bytes read:
     * returns what the round adds to both, and keeps the run's progress
     * relation, or shows the output is a proper prefix of the run's when a
     * write fails.
     */
    method DecodeStep(out: nat, left: nat, ghost run: (seq<byte>, nat), ghost input: seq<byte>, ghost base: seq<byte>,
        ghost room: nat, ghost done: seq<byte>, ghost used: nat)
      returns (out': nat, failed: bool, error: bool, later: nat, ghost done': seq<byte>, ghost used': nat)
      requires Valid() && Drained() && Supported(channelCount) && left >= channelCount
      requires RunAfter(run, input, channelCount, done, used, left, false)
      requires source.Remaining() == input[used..] && output.data == base + done
      requires out == |done| && room == out + output.Room()
      modifies source, output, counts, indexes, blocks, sector
      ensures Valid()
      ensures source.data == old(source.data) && source.statuses == old(source.statuses) && source.log == old(source.log)
      ensures used' <= |input| && source.Remaining() == input[used'..]
      ensures out' == |done'| && room == out' + output.Room() && output.data == base + done'
      ensures failed ==> (out' == Min(|run.0|, room) && output.data == base + run.0[..out'] && out' < |run.0|)
      ensures !failed ==> Drained() && RunAfter(run, input, channelCount, done', used', later, error)
      ensures !error ==> later < left
    {
      ghost var rest := input[used..];
      ghost var round := DecodeRound(rest, left, channelCount);
      var written;
      written, failed, error, later := DecodeOneRound(left);
      out' := out + written;
      done' := done + round[..written];
      AppendAssoc(base, done, round[..written]);
      used' := used + Min(|rest|, RoundBytes(channelCount));
      DropDrop(input, used, Min(|rest|, RoundBytes(channelCount)));
      if failed {
        RunAfterPrefix(run, input, channelCount, done, used, left, written);
      } else {
        assert round[..written] == round;
        if error {
          RunAfterShort(run, input, channelCount, done, used, left, later);
        } else {
          RunAfterFull(run, input, channelCount, done, used, left);
        }
      }
    }

    /**
     * Decodes `count` samples from the source to the output, round by round,
     * and returns the bytes written. A round reads a sector per channel and
     * emits the frames it holds; a short read makes it the last round, a
     * failed write ends the run at once. A context without a supported
     * channel count decodes nothing.
     */
    method DecodeContextFor(count: nat) returns (out: nat)
      requires Valid() && Drained()
      modifies source, output, counts, indexes, blocks, sector
      ensures Valid()
      ensures source.data == old(source.data) && source.statuses == old(source.statuses) && source.log == old(source.log)
      ensures var run := DecodeRun(old(source.Remaining()), count, channelCount);
        out == Min(|run.0|, old(output.Room())) && output.data == old(output.data) + run.0[..out]
      ensures var run := DecodeRun(old(source.Remaining()), count, channelCount);
        out == |run.0| ==> Drained() && source.Remaining() == old(source.Remaining())[run.1..]
    {
      if channelCount == 0 {
        return 0;
      }
      ghost var input := source.Remaining();
      ghost var room := output.Room();
      ghost var run := DecodeRun(input, count, channelCount);
      ghost var done: seq<byte> := [];
      ghost var used: nat := 0;
      var left: nat := count;
      out := 0;
      var error := false;
      assert input[0..] == input;
      assert [] + run.0 == run.0;
      while !error && left >= channelCount
        invariant Valid() && Supported(channelCount) && Drained()
        invariant source.data == old(source.data) && source.statuses == old(source.statuses) && source.log == old(source.log)
        invariant out == |done| && room == out + output.Room() && output.data == old(output.data) + done
        invariant used <= |input| && source.Remaining() == input[used..]
        invariant RunAfter(run, input, channelCount, done, used, left, error)
        decreases if error then 0 else 1, left
      {
        var failed, later;
        out, failed, error, later, done, used := DecodeStep(out, left, run, input, old(output.data), room, done, used);
        if failed {
          return;
        }
        left := later;
      }
      RunAfterDone(run, input, channelCount, done, used, left, error);
      assert run.0[..out] == done;
    }

    /** Channels from `from` on hold their lanes of the interleaved samples `taken`. */
    ghost predicate HoldsFrom(taken: seq<byte>, from: nat)
      reads blocks
    {
      Supported(channelCount) &&
      forall c :: from <= c < channelCount ==> Holds(c, Lane(taken, channelCount, c))
    }

    /**
     * The first `i` samples of `input` have been read, each into its cell,
     * every channel has counted its own, and the source stands after them.
     */
    ghost predicate Gathered(input: seq<byte>, i: nat)
      reads source, counts, blocks
    {
      GatheredIn(source.Remaining(), blocks[..], counts[..], input, i, channelCount)
    }

    /**
     * Reads sample `i`, which is sample `channel` of frame `frame`, of
     * `input` into its cell of channel `channel`'s block. The channel's index
     * moves on either way; its count only when the byte was read. Returns the
     * bytes read, 1 unless the input has run out.
     */
    method ReadSample(channel: nat, ghost input: seq<byte>, ghost frame: nat, ghost i: nat) returns (got: nat)
      requires Valid() && Supported(channelCount) && channel < channelCount && frame < BlockSize
      requires i == Samples(frame, channelCount) + channel
      requires i <= |input| && source.Remaining() == input[i..] && Counted(indexes[..], i, channelCount)
      modifies source, counts, indexes, blocks
      ensures source.data == old(source.data) && source.statuses == old(source.statuses) && source.log == old(source.log)
      ensures got <= 1 && (got == 1 <==> i < |input|) && Channel(i, channelCount) == channel
      ensures got == 1 ==> (source.Remaining() == input[i + 1..] &&
        blocks[..] == old(blocks[..])[BlockCell(i, channelCount) := input[i]] &&
        counts[..] == old(counts[..])[Channel(i, channelCount) := old(counts[..])[Channel(i, channelCount)] + 1] &&
        indexes[..] == old(indexes[..])[Channel(i, channelCount) := old(indexes[..])[Channel(i, channelCount)] + 1])
      ensures got != 1 ==> (source.Remaining() == input[i..] &&
        blocks[..] == old(blocks[..]) && counts[..] == old(counts[..]))
    {
      ghost var before := blocks[..];
      ghost var counted := counts[..];
      ghost var indexed := indexes[..];
      CellOf(frame, channel, channelCount);
      SlotOf(frame, channel, channelCount);
      assert BlockSize * (channel + 1) <= BlockSize * channelCount;
      var cell := BlockSize * channel + indexes[channel];
      got := source.Read(blocks, cell, 1);
      Overwritten(before, blocks[..], cell, got);
      indexes[channel] := indexes[channel] + 1;
      assert indexes[..] == indexed[channel := indexed[channel] + 1];
      if got != 1 {
        return;
      }
      counts[channel] := counts[channel] + 1;
      assert counts[..] == counted[channel := counted[channel] + 1];
      assert blocks[cell] == input[i] by {
        assert blocks[cell] == blocks[cell..cell + 1][0];
      }
      DropDrop(input, i, 1);
    }

    /**
     * Reads sample `i`, which is sample `channel` of frame `frame`, of
     * `input`, the samples before it having been gathered: gathers one sample
     * more, or none when the input has run out.
     */
    method GatherSample(channel: nat, ghost input: seq<byte>, ghost frame: nat, ghost i: nat) returns (got: nat)
      requires Valid() && Supported(channelCount) && channel < channelCount && frame < BlockSize
      requires i == Samples(frame, channelCount) + channel
      requires Gathered(input, i) && Counted(indexes[..], i, channelCount)
      modifies source, counts, indexes, blocks
      ensures source.data == old(source.data) && source.statuses == old(source.statuses) && source.log == old(source.log)
      ensures got == 1 <==> i < |input|
      ensures got == 1 ==> Gathered(input, i + 1) && Counted(indexes[..], i + 1, channelCount)
      ensures got != 1 ==> Gathered(input, i)
    {
      ghost var cells, tally, marks := blocks[..], counts[..], indexes[..];
      got := ReadSample(channel, input, frame, i);
      if got == 1 {
        GatherStep(cells, tally, input, i, channelCount);
        CountedStep(marks, i, channelCount);
      }
    }

    /**
     * Reads up to `countBlock` frames, one sample at a time, cycling through
     * the channels, each sample into its cell of its channel's block, with
     * every count and index zeroed first. Returns whether the input ran out
     * before the frames did; either way the blocks hold what was read.
     */
    method ReadFrames(countBlock: nat) returns (error: bool)
      requires Valid() && Supported(channelCount) && 1 <= countBlock <= BlockSize
      modifies source, counts, indexes, blocks
      ensures source.data == old(source.data) && source.statuses == old(source.statuses) && source.log == old(source.log)
      ensures error == (|old(source.Remaining())| < Samples(countBlock, channelCount))
      ensures Gathered(old(source.Remaining()), Min(|old(source.Remaining())|, Samples(countBlock, channelCount)))
    {
      ResetCounts();
      ghost var input := source.Remaining();
      assert input[0..] == input;
      ghost var frame: nat := 0;
      ghost var i: nat := 0;
      error := false;
      var channel: nat := 0;
      while indexes[channel] < countBlock
        invariant channel < channelCount && frame <= countBlock && (channel > 0 ==> frame < countBlock)
        invariant i == Samples(frame, channelCount) + channel
        invariant source.data == old(source.data) && source.statuses == old(source.statuses) && source.log == old(source.log)
        invariant Gathered(input, i) && Counted(indexes[..], i, channelCount)
        decreases Samples(countBlock, channelCount) - i
      {
        FrameCursor(indexes[..], i, frame, channel, countBlock, channelCount);
        var got := GatherSample(channel, input, frame, i);
        if got != 1 {
          error := true;
          break;
        }
        NextSlot(frame, channel, channelCount);
        frame := NextFrame(frame, channel, channelCount);
        channel := (channel + 1) % channelCount;
        i := i + 1;
      }
      if !error {
        FrameCursor(indexes[..], i, frame, channel, countBlock, channelCount);
      }
      assert i == Min(|input|, Samples(countBlock, channelCount));
    }

    /** Zeroes the count and the index of every channel: no channel has read a sample yet. */
    method ResetCounts()
      requires Valid() && Supported(channelCount)
      modifies counts, indexes
      ensures Counted(counts[..], 0, channelCount) && Counted(indexes[..], 0, channelCount)
    {
      var c := 0;
      while c < channelCount
        invariant c <= channelCount
        invariant forall k :: 0 <= k < c ==> counts[k] == 0 && indexes[k] == 0
      {
        counts[c] := 0;
        indexes[c] := 0;
        c := c + 1;
      }
    }

    /** Fills channel `channel`'s block past its lane with the origin. */
    method PadBlock(channel: nat, ghost lane: seq<byte>)
      requires Valid() && channel < channelCount && counts[channel] == |lane| <= BlockSize && Holds(channel, lane)
      modifies blocks
      ensures blocks[BlockSize * channel .. BlockSize * channel + BlockSize] == Padded(lane)
      ensures blocks[..BlockSize * channel] == old(blocks[..BlockSize * channel])
      ensures blocks[BlockSize * channel + BlockSize..] == old(blocks[BlockSize * channel + BlockSize..])
    {
      var base := BlockSize * channel;
      assert base + BlockSize <= blocks.Length by {
        assert BlockSize * (channel + 1) <= BlockSize * channelCount;
      }
      forall j | base <= j < base + |lane|
        ensures blocks[j] == lane[j - base]
      {
        HoldsAt(blocks[..], channel, lane, j - base);
      }
      var index := counts[channel];
      while index < BlockSize
        invariant |lane| <= index <= BlockSize
        invariant forall j :: base <= j < base + |lane| ==> blocks[j] == lane[j - base]
        invariant forall j :: base + |lane| <= j < base + index ==> blocks[j] == Origin
        invariant forall j :: 0 <= j < base ==> blocks[j] == old(blocks[j])
        invariant forall j :: base + BlockSize <= j < blocks.Length ==> blocks[j] == old(blocks[j])
      {
        blocks[base + index] := Origin;
        index := index + 1;
      }
      forall k | 0 <= k < BlockSize
        ensures blocks[base .. base + BlockSize][k] == Padded(lane)[k]
      {
        assert blocks[base .. base + BlockSize][k] == blocks[base + k];
      }
    }

    /**
     * Pads channel `channel`'s block, which holds its lane of `taken`,
     * encodes it into the sector and writes the sector. Returns the bytes the
     * write put; the blocks after it still hold their lanes.
     */
    method EmitLane(channel: nat, ghost taken: seq<byte>) returns (put: nat)
      requires Valid() && Supported(channelCount) && channel < channelCount && |taken| <= Samples(BlockSize, channelCount)
      requires counts[channel] == LaneLength(|taken|, channelCount, channel) > 0
      requires HoldsFrom(taken, channel)
      modifies blocks, sector, output
      ensures Valid() && HoldsFrom(taken, channel + 1)
      ensures put == Min(SectorSize, old(output.Room()))
      ensures output.data == old(output.data) + EncodedSector(Padded(Lane(taken, channelCount, channel)))[..put]
      ensures EncodeSectors(taken, channelCount, channel) ==
        EncodedSector(Padded(Lane(taken, channelCount, channel))) + EncodeSectors(taken, channelCount, channel + 1)
    {
      ghost var lane := Lane(taken, channelCount, channel);
      ghost var before := blocks[..];
      assert |lane| <= BlockSize by {
        ChannelArithmetic(|taken|, channelCount);
      }
      PadBlock(channel, lane);
      var n := EncodeSector(blocks, BlockSize * channel, BlockSize, sector);
      put := output.Write(sector, 0, n);
      assert sector[0..put] == EncodedSector(Padded(lane))[..put];
      SectorsNext(taken, channelCount, channel);
      forall c | channel < c < channelCount
        ensures Holds(c, Lane(taken, channelCount, c))
      {
        HoldsKeptAbove(before, blocks[..], BlockSize * (channel + 1), c, Lane(taken, channelCount, c));
      }
    }

    /**
     * Writes channel `channel`'s sector of a round whose sectors are
     * `sectors`, the sectors before it, `done`, having been written after
     * `base`, `written` bytes into an output that had `room` bytes of room.
     * Returns the bytes the write put and whether they make a whole sector,
     * as the library tests it; a whole write runs the output one sector
     * further, a short one leaves a proper prefix of the round.
     */
    method WriteLane(channel: nat, written: nat, ghost taken: seq<byte>, ghost sectors: seq<byte>,
        ghost base: seq<byte>, ghost done: seq<byte>, ghost room: nat)
      returns (put: nat, whole: bool, ghost done': seq<byte>)
      requires Valid() && Supported(channelCount) && channel < channelCount && |taken| <= Samples(BlockSize, channelCount)
      requires counts[channel] == LaneLength(|taken|, channelCount, channel) > 0
      requires HoldsFrom(taken, channel)
      requires sectors == done + EncodeSectors(taken, channelCount, channel) && output.data == base + done
      requires written == |done| && room == written + output.Room()
      modifies blocks, sector, output
      ensures Valid() && HoldsFrom(taken, channel + 1)
      ensures whole == (put / SectorBlocks == BlockSize) && (whole <==> put == SectorSize)
      ensures whole ==> (output.data == base + done' && written + put == |done'| &&
        room == written + put + output.Room() && sectors == done' + EncodeSectors(taken, channelCount, channel + 1))
      ensures !whole ==> (written + put == Min(|sectors|, room) && written + put < |sectors|
        && output.data == base + sectors[..written + put])
    {
      ghost var rest := EncodeSectors(taken, channelCount, channel + 1);
      ghost var encoded := EncodedSector(Padded(Lane(taken, channelCount, channel)));
      put := EmitLane(channel, taken);
      WholeSector(put);
      whole := put / SectorBlocks == BlockSize;
      AppendAssoc(done, encoded, rest);
      done' := done + encoded;
      if put != SectorSize {
        PrefixThrough(done, encoded, rest, put);
        AppendAssoc(base, done, encoded[..put]);
      } else {
        assert encoded[..put] == encoded;
      }
    }

    /**
     * One pass of the write loop: takes channel `channel`'s samples off the
     * `left` still to encode, then writes its sector.
     */
    method LaneStep(channel: nat, left: nat, written: nat, ghost count: nat, ghost taken: seq<byte>, ghost sectors: seq<byte>,
        ghost base: seq<byte>, ghost done: seq<byte>, ghost room: nat)
      returns (put: nat, whole: bool, left': nat, ghost done': seq<byte>)
      requires Valid() && Supported(channelCount) && channel < channelCount
      requires |taken| <= Samples(BlockSize, channelCount) && |taken| <= count
      requires Counted(counts[..], |taken|, channelCount) && counts[channel] > 0
      requires HoldsFrom(taken, channel)
      requires left == count - LanesBefore(|taken|, channelCount, channel)
      requires sectors == done + EncodeSectors(taken, channelCount, channel) && output.data == base + done
      requires written == |done| && room == written + output.Room()
      modifies blocks, sector, output
      ensures Valid() && HoldsFrom(taken, channel + 1)
      ensures left' == count - LanesBefore(|taken|, channelCount, channel + 1)
      ensures whole ==> (output.data == base + done' && written + put == |done'| &&
        room == written + put + output.Room() && sectors == done' + EncodeSectors(taken, channelCount, channel + 1))
      ensures !whole ==> (written + put == Min(|sectors|, room) && written + put < |sectors|
        && output.data == base + sectors[..written + put])
    {
      LanesBeforeBound(|taken|, channelCount, channel + 1);
      assert counts[channel] == LaneLength(|taken|, channelCount, channel);
      left' := left - counts[channel];
      put, whole, done' := WriteLane(channel, written, taken, sectors, base, done, room);
    }

    /**
     * Pads, encodes and writes the block of every channel in turn, stopping
     * at the first channel with an empty lane, and takes each lane's samples
     * off `count`. A short write ends the round at once. Returns the bytes
     * written, whether a write came up short and the samples left.
     */
    method WriteSectors(count: nat, ghost taken: seq<byte>) returns (written: nat, failed: bool, left: nat)
      requires Valid() && Supported(channelCount) && |taken| <= Samples(BlockSize, channelCount) && |taken| <= count
      requires Counted(counts[..], |taken|, channelCount) && HoldsFrom(taken, 0)
      modifies blocks, sector, output
      ensures Valid()
      ensures var sectors := EncodeSectors(taken, channelCount, 0);
        written == Min(|sectors|, old(output.Room())) && (failed <==> written < |sectors|) &&
        output.data == old(output.data) + sectors[..written]
      ensures !failed ==> left == count - |taken|
    {
      ghost var sectors := EncodeSectors(taken, channelCount, 0);
      ghost var room := output.Room();
      ghost var done: seq<byte> := [];
      written := 0;
      failed := false;
      left := count;
      var channel: nat := 0;
      while channel < channelCount && counts[channel] > 0
        invariant Valid() && channel <= channelCount && HoldsFrom(taken, channel)
        invariant sectors == done + EncodeSectors(taken, channelCount, channel)
        invariant written == |done| && room == written + output.Room() && output.data == old(output.data) + done
        invariant left == count - LanesBefore(|taken|, channelCount, channel)
      {
        var put, whole;
        ghost var next;
        put, whole, left, next := LaneStep(channel, left, written, count, taken, sectors, old(output.data), done, room);
        written := written + put;
        if !whole {
          failed := true;
          return;
        }
        done := next;
        channel := channel + 1;
      }
      LanesBeforeDone(|taken|, channelCount, channel);
      assert sectors == done;
    }

    /**
     * One encode round of a run with `count` samples left: reads up to a
     * block of frames, then writes a sector per channel that got samples.
     * Returns the bytes written, whether a write came up short, whether the
     * input ran out, and the samples left after the round.
     */
    method EncodeOneRound(count: nat) returns (written: nat, failed: bool, error: bool, later: nat)
      requires Valid() && Supported(channelCount) && count >= channelCount
      modifies source, output, counts, indexes, blocks, sector
      ensures Valid()
      ensures source.data == old(source.data) && source.statuses == old(source.statuses) && source.log == old(source.log)
      ensures var input := old(source.Remaining());
        source.Remaining() == input[Min(|input|, RoundSamples(count, channelCount))..] &&
        error == (|input| < RoundSamples(count, channelCount))
      ensures !error && !failed ==> later == Later(count, channelCount) < count
      ensures var round := EncodeRound(old(source.Remaining()), count, channelCount);
        written == Min(|round|, old(output.Room())) && (failed <==> written < |round|) &&
        output.data == old(output.data) + round[..written]
    {
      ghost var input := source.Remaining();
      var countBlock := if count / channelCount > BlockSize then BlockSize else count / channelCount;
      assert countBlock == RoundFrames(count, channelCount) && 1 <= countBlock by {
        ChannelArithmetic(count, channelCount);
        RoundStep(count, channelCount);
      }
      error := ReadFrames(countBlock);
      ghost var taken := input[..Min(|input|, RoundSamples(count, channelCount))];
      assert CellsIn(blocks[..], taken, channelCount) && Counted(counts[..], |taken|, channelCount);
      CellsLanes(blocks[..], taken, channelCount);
      written, failed, later := WriteSectors(count, taken);
    }

    /**
     * An encode round inside an encode `run` over `input`, with the run's
     * output so far `done` written after `base` and `used` input bytes read:
     * returns what the round adds to both, and keeps the run's progress
     * relation, or shows the output is a proper prefix of the run's when a
     * write comes up short.
     */
    method EncodeStep(out: nat, left: nat, ghost run: (seq<byte>, nat), ghost input: seq<byte>, ghost base: seq<byte>,
        ghost room: nat, ghost done: seq<byte>, ghost used: nat)
      returns (out': nat, failed: bool, error: bool, later: nat, ghost done': seq<byte>, ghost used': nat)
      requires Valid() && Supported(channelCount) && left >= channelCount
      requires EncodeAfter(run, input, channelCount, done, used, left, false)
      requires source.Remaining() == input[used..] && output.data == base + done
      requires out == |done| && room == out + output.Room()
      modifies source, output, counts, indexes, blocks, sector
      ensures Valid()
      ensures source.data == old(source.data) && source.statuses == old(source.statuses) && source.log == old(source.log)
      ensures used' <= |input| && source.Remaining() == input[used'..]
      ensures out' == |done'| && room == out' + output.Room() && output.data == base + done'
      ensures failed ==> (out' == Min(|run.0|, room) && output.data == base + run.0[..out'] && out' < |run.0|)
      ensures !failed ==> EncodeAfter(run, input, channelCount, done', used', later, error)
      ensures !error && !failed ==> later < left
    {
      ghost var rest := input[used..];
      ghost var round := EncodeRound(rest, left, channelCount);
      var written;
      written, failed, error, later := EncodeOneRound(left);
      out' := out + written;
      done' := done + round[..written];
      AppendAssoc(base, done, round[..written]);
      used' := used + Min(|rest|, RoundSamples(left, channelCount));
      DropDrop(input, used, Min(|rest|, RoundSamples(left, channelCount)));
      if failed {
        EncodeAfterPrefix(run, input, channelCount, done, used, left, written);
      } else {
        assert round[..written] == round;
        EncodeAfterNext(run, input, channelCount, done, used, left, error, later);
      }
    }

    /**
     * Encodes `count` samples from the source to the output, round by round,
     * and returns the bytes written. A round reads up to a block of frames
     * and writes a sector per channel that got samples; running out of input
     * makes it the last round, a short write ends the run at once. A context
     * without a supported channel count encodes nothing.
     */
    method EncodeContextFor(count: nat) returns (out: nat)
      requires Valid()
      modifies source, output, counts, indexes, blocks, sector
      ensures Valid()
      ensures source.data == old(source.data) && source.statuses == old(source.statuses) && source.log == old(source.log)
      ensures var run := EncodeRun(old(source.Remaining()), count, channelCount);
        out == Min(|run.0|, old(output.Room())) && output.data == old(output.data) + run.0[..out]
      ensures var run := EncodeRun(old(source.Remaining()), count, channelCount);
        out == |run.0| ==> source.Remaining() == old(source.Remaining())[run.1..]
    {
      if channelCount == 0 {
        return 0;
      }
      ghost var input := source.Remaining();
      ghost var room := output.Room();
      ghost var run := EncodeRun(input, count, channelCount);
      ghost var done: seq<byte> := [];
      ghost var used: nat := 0;
      var left: nat := count;
      out := 0;
      var error := false;
      assert input[0..] == input;
      assert [] + run.0 == run.0;
      while !error && left >= channelCount
        invariant Valid() && Supported(channelCount)
        invariant source.data == old(source.data) && source.statuses == old(source.statuses) && source.log == old(source.log)
        invariant out == |done| && room == out + output.Room() && output.data == old(output.data) + done
        invariant used <= |input| && source.Remaining() == input[used..]
        invariant EncodeAfter(run, input, channelCount, done, used, left, error)
        decreases if error then 0 else 1, left
      {
        var failed, later;
        out, failed, error, later, done, used := EncodeStep(out, left, run, input, old(output.data), room, done, used);
        if failed {
          return;
        }
        left := later;
      }
      EncodeAfterDone(run, input, channelCount, done, used, left, error);
      assert run.0[..out] == done;
    }

    /**
     * Runs one loop pass of `length` samples over what the source holds,
     * which is `first` for the first pass and `again` for a later one, and
     * returns the bytes it wrote. A pass that writes all `length` leaves the
     * context drained for the next.
     */
    method DecodePass(length: nat, ghost first: seq<byte>, ghost again: seq<byte>, ghost passes: nat,
        ghost base: seq<byte>, ghost room: nat) returns (count: nat)
      requires Valid() && Drained()
      requires source.Remaining() == if passes == 0 then first else again
      requires output.data == base + LoopRun(first, again, length, channelCount, passes)
      requires room == |LoopRun(first, again, length, channelCount, passes)| + output.Room()
      modifies source, output, counts, indexes, blocks, sector
      ensures Valid()
      ensures source.data == old(source.data) && source.statuses == old(source.statuses) && source.log == old(source.log)
      ensures var before := LoopRun(first, again, length, channelCount, passes);
        var after := LoopRun(first, again, length, channelCount, passes + 1);
        && |before| + count == Min(|after|, room) && output.data == base + after[..|before| + count]
      ensures count == length ==> (Drained()
        && |LoopRun(first, again, length, channelCount, passes + 1)| == |LoopRun(first, again, length, channelCount, passes)| + length)
    {
      ghost var input := source.Remaining();
      ghost var run := DecodeRun(input, length, channelCount);
      ghost var before := LoopRun(first, again, length, channelCount, passes);
      count := DecodeContextFor(length);
      if Supported(channelCount) {
        DecodeRunBound(input, length, channelCount);
      }
      LoopRunNext(first, again, length, channelCount, passes, count, room);
      AppendAssoc(base, before, run.0[..count]);
      assert count == length ==> count == |run.0|;
    }

    /**
     * Decides whether the loop runs another pass: not after a pass that
     * wrote fewer than `length` bytes, not once the passes left run out, and
     * not when seeking the source back to the loop start fails.
     */
    method Rewind(count: nat, length: nat, left: int) returns (more: bool, left': int)
      modifies source
      ensures source.data == old(source.data) && source.statuses == old(source.statuses)
      ensures more ==> (count == length && left' == left - 1 >= 1
        && source.Remaining() == Rewound(source.data, header.mark))
      ensures |source.log| >= |old(source.log)|
      ensures !more ==> (count != length || left - 1 < 1
        || source.FailedSince(|old(source.log)|))
      ensures count == length ==> left' == left - 1
    {
      more, left' := false, left;
      if count != length {
        return;
      }
      left' := left - 1;
      if left' < 1 {
        return;
      }
      var status := DecodeSeek(source, header.mark);
      more := status == 0;
    }

    /**
     * One turn of the loop: a pass, then the decision whether to rewind for
     * another. `base`, `data`, `statuses` and `logged` are the output, the
     * source and the request count as the loop found them.
     */
    method LoopTurn(loopCount: int, length: nat, ghost first: seq<byte>, ghost again: seq<byte>, ghost room: nat,
        ghost base: seq<byte>, ghost data: seq<byte>, ghost statuses: seq<int>, ghost logged: nat,
        out: nat, ghost passes: nat, left: int)
      returns (out': nat, ghost passes': nat, more: bool, left': int)
      requires Valid() && source.data == data && source.statuses == statuses && again == Rewound(data, header.mark)
      requires 1 <= left && passes + left == loopCount && Drained()
      requires out == |LoopRun(first, again, length, channelCount, passes)| && out == passes * length
      requires source.Remaining() == if passes == 0 then first else again
      requires out == Min(|LoopRun(first, again, length, channelCount, passes)|, room)
      requires output.data == base + LoopRun(first, again, length, channelCount, passes)[..out]
      requires room == |LoopRun(first, again, length, channelCount, passes)| + output.Room()
      requires |source.log| >= logged
      modifies source, output, counts, indexes, blocks, sector
      ensures Valid() && source.data == data && source.statuses == statuses
      ensures passes' == passes + 1 && passes' <= loopCount
      ensures var run := LoopRun(first, again, length, channelCount, passes');
        out' == Min(|run|, room) && output.data == base + run[..out']
      ensures more ==> (1 <= left' && passes' + left' == loopCount && Drained()
        && out' == |LoopRun(first, again, length, channelCount, passes')| && out' == passes' * length
        && source.Remaining() == again)
      ensures more ==> room == |LoopRun(first, again, length, channelCount, passes')| + output.Room()
      ensures |source.log| >= logged
      ensures !more && passes' < loopCount ==> (out' != passes' * length || source.FailedSince(logged))
      ensures |LoopRun(first, again, length, channelCount, passes' - 1)| == (passes' - 1) * length <= room
    {
      var count := DecodePass(length, first, again, passes, base, room);
      MulStep(passes, length);
      out' := out + count;
      passes' := passes + 1;
      more, left' := Rewind(count, length, left);
    }

    /**
     * Decodes loop passes of `LoopLength` samples: the first from where the
     * source stands, each later one after seeking the source back to the
     * loop start. Stops after `loopCount` passes, after a pass that writes
     * fewer bytes than its length, or when a seek fails; a `loopCount` below
     * one decodes nothing. Returns the bytes written, with the passes run.
     */
    method DecodeContextLoop(loopCount: int) returns (out: nat, ghost passes: nat)
      requires Valid() && Drained()
      modifies source, output, counts, indexes, blocks, sector
      ensures Valid()
      ensures source.data == old(source.data) && source.statuses == old(source.statuses)
      ensures loopCount < 1 ==> (passes == 0 && out == 0 && output.data == old(output.data)
        && source.pos == old(source.pos) && source.log == old(source.log))
      ensures loopCount >= 1 ==> 1 <= passes <= loopCount
      ensures var run := LoopRun(old(source.Remaining()), Rewound(old(source.data), header.mark),
          LoopLength(header, channelCount), channelCount, passes);
        out == Min(|run|, old(output.Room())) && output.data == old(output.data) + run[..out]
      ensures 1 <= passes < loopCount ==> (out != passes * LoopLength(header, channelCount)
        || source.FailedSince(|old(source.log)|))
      ensures passes >= 1 ==> (var before := LoopRun(old(source.Remaining()), Rewound(old(source.data), header.mark),
          LoopLength(header, channelCount), channelCount, passes - 1);
        |before| == (passes - 1) * LoopLength(header, channelCount) <= old(output.Room()))
    {
      passes := 0;
      if loopCount < 1 {
        return 0, 0;
      }
      var length := LoopLength(header, channelCount);
      ghost var first := source.Remaining();
      ghost var again := Rewound(source.data, header.mark);
      ghost var room := output.Room();
      var left := loopCount;
      out := 0;
      var more := true;
      while more
        invariant Valid() && source.data == old(source.data) && source.statuses == old(source.statuses)
        invariant 1 <= passes || more
        invariant passes <= loopCount
        invariant var run := LoopRun(first, again, length, channelCount, passes);
          out == Min(|run|, room) && output.data == old(output.data) + run[..out]
        invariant more ==> (1 <= left && passes + left == loopCount && Drained()
          && out == |LoopRun(first, again, length, channelCount, passes)| && out == passes * length
          && source.Remaining() == if passes == 0 then first else again)
        invariant |source.log| >= |old(source.log)|
        invariant !more && passes < loopCount ==> (out != passes * length
          || source.FailedSince(|old(source.log)|))
        invariant passes >= 1 ==> |LoopRun(first, again, length, channelCount, passes - 1)| == (passes - 1) * length <= room
        decreases if more then left else 0
      {
        out, passes, more, left := LoopTurn(loopCount, length, first, again, room, old(output.data),
          old(source.data), old(source.statuses), |old(source.log)|, out, passes, left);
      }
    }
  }
}
