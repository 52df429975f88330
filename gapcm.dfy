/**
 * The library's stream entry points. Each makes a transcoding context for a
 * header over a source and an output stream and runs it: decoding the
 * stream with its loop, a number of frames, or loop passes alone, and
 * encoding the stream's length or a number of frames. Releasing the
 * context is left to the garbage collector.
 */
module Gapcm {
  import opened Layout
  import opened HeaderCodec
  import opened Streams
  import opened Transport
  import opened EngineSpec
  import opened Counts
  import opened Engine

  /**
   * Decodes the stream up to the loop start and, when every sample before
   * it was written, `loopCount` loop passes after it. Returns the bytes
   * written, with the loop passes run.
   */
  method DecodeStream(header: Header, source: Source, output: Sink, loopCount: int) returns (out: nat, ghost passes: nat)
    requires output.Valid()
    modifies source, output
    ensures output.Valid()
    ensures source.data == old(source.data) && source.statuses == old(source.statuses)
    ensures var cc := ToChannelCount(header.format);
      var intro := DecodeRun(old(source.Remaining()), MarkSamples(header), cc);
      var stream := intro.0 + LoopRun(old(source.Remaining())[intro.1..], Rewound(old(source.data), header.mark),
        LoopLength(header, cc), cc, passes);
      out == Min(|stream|, old(output.Room())) && output.data == old(output.data) + stream[..out]
    ensures out < MarkSamples(header) || loopCount < 1 ==> passes == 0
    ensures out >= MarkSamples(header) && loopCount >= 1 ==> 1 <= passes <= loopCount
    ensures var cc := ToChannelCount(header.format);
      var intro := DecodeRun(old(source.Remaining()), MarkSamples(header), cc);
      1 <= passes < loopCount ==> (out - |intro.0| != passes * LoopLength(header, cc)
        || source.FailedSince(|old(source.log)|))
    ensures var cc := ToChannelCount(header.format);
      var intro := DecodeRun(old(source.Remaining()), MarkSamples(header), cc);
      passes >= 1 ==> (var before := LoopRun(old(source.Remaining())[intro.1..], Rewound(old(source.data), header.mark),
          LoopLength(header, cc), cc, passes - 1);
        |before| == (passes - 1) * LoopLength(header, cc) && |intro.0| + |before| <= old(output.Room()))
  {
    var context := new IoContext(header, source, output);
    ghost var input := source.Remaining();
    ghost var room := output.Room();
    var mark := MarkSamples(header);
    var cc := context.channelCount;
    ghost var intro := DecodeRun(input, mark, cc);
    out := context.DecodeContextFor(mark);
    passes := 0;
    if Supported(cc) {
      DecodeRunBound(input, mark, cc);
    }
    if out == mark {
      assert intro.0[..out] == intro.0;
      var more;
      more, passes := context.DecodeContextLoop(loopCount);
      ghost var run := LoopRun(input[intro.1..], Rewound(source.data, header.mark), LoopLength(header, cc), cc, passes);
      JoinPrefix(intro.0, run, more, room);
      AppendAssoc(old(output.data), intro.0, run[..more]);
      out := out + more;
    } else {
      assert intro.0 + LoopRun(input[intro.1..], Rewound(source.data, header.mark), LoopLength(header, cc), cc, 0) == intro.0;
    }
  }

  /** Decodes `count` frames of the stream. Returns the bytes written. */
  method DecodeStreamFor(header: Header, source: Source, output: Sink, count: u32) returns (out: nat)
    requires output.Valid()
    modifies source, output
    ensures output.Valid()
    ensures source.data == old(source.data) && source.statuses == old(source.statuses) && source.log == old(source.log)
    ensures var run := DecodeRun(old(source.Remaining()), StreamSamples(count, ToChannelCount(header.format)), ToChannelCount(header.format));
      out == Min(|run.0|, old(output.Room())) && output.data == old(output.data) + run.0[..out]
  {
    var context := new IoContext(header, source, output);
    out := context.DecodeContextFor(StreamSamples(count, context.channelCount));
  }

  /**
   * Runs `loopCount` loop passes alone, the first from where the source
   * stands. Returns the bytes written, with the passes run.
   */
  method DecodeLoop(header: Header, source: Source, output: Sink, loopCount: int) returns (out: nat, ghost passes: nat)
    requires output.Valid()
    modifies source, output
    ensures output.Valid()
    ensures source.data == old(source.data) && source.statuses == old(source.statuses)
    ensures loopCount < 1 ==> passes == 0 && out == 0 && output.data == old(output.data)
    ensures loopCount >= 1 ==> 1 <= passes <= loopCount
    ensures var cc := ToChannelCount(header.format);
      var run := LoopRun(old(source.Remaining()), Rewound(old(source.data), header.mark), LoopLength(header, cc), cc, passes);
      out == Min(|run|, old(output.Room())) && output.data == old(output.data) + run[..out]
    ensures 1 <= passes < loopCount ==> (out != passes * LoopLength(header, ToChannelCount(header.format))
      || source.FailedSince(|old(source.log)|))
    ensures var cc := ToChannelCount(header.format);
      passes >= 1 ==> (var before := LoopRun(old(source.Remaining()), Rewound(old(source.data), header.mark),
          LoopLength(header, cc), cc, passes - 1);
        |before| == (passes - 1) * LoopLength(header, cc) <= old(output.Room()))
  {
    var context := new IoContext(header, source, output);
    out, passes := context.DecodeContextLoop(loopCount);
  }

  /**
   * The loop's stop clauses fix how many passes run: when every pass
   * decodes in full, the room holds them all and no seek fails, only
   * `loopCount` passes and their `loopCount * length` bytes meet them.
   */
  lemma LoopRunsToCount(first: seq<byte>, again: seq<byte>, length: nat, cc: nat, room: nat,
      loopCount: int, passes: nat, out: nat)
    requires Supported(cc) && 1 <= passes <= loopCount
    requires |DecodeRun(first, length, cc).0| == length && |DecodeRun(again, length, cc).0| == length
    requires |LoopRun(first, again, length, cc, loopCount)| <= room
    requires out == Min(|LoopRun(first, again, length, cc, passes)|, room)
    requires passes < loopCount ==> out != passes * length
    ensures passes == loopCount && out == loopCount * length
  {
    LoopRunLength(first, again, length, cc, passes);
    LoopRunLength(first, again, length, cc, loopCount);
    assert passes * length <= loopCount * length by {
      MulMonotone(passes, loopCount, length);
    }
  }

  lemma MulMonotone(a: nat, b: nat, c: nat)
    requires a <= b
    ensures a * c <= b * c
  {
  }

  /**
   * A mono stream with the loop start at 0 and 2048 frames, decoded with a
   * loop count of 2 over enough input into enough room, writes 2 · 2048
   * bytes: any result `DecodeStream`'s postconditions allow without a
   * failed seek has this size.
   */
  lemma MonoLoopTwice(h: Header, input: seq<byte>, again: seq<byte>, room: nat, passes: nat, out: nat)
    requires h.format == FormatMono && h.mark == 0 && h.length == 2048
    requires |input| >= 2 * SectorSize && |again| >= 2 * SectorSize && room >= 2 * 2048
    requires 1 <= passes <= 2
    requires var intro := DecodeRun(input, MarkSamples(h), 1);
      out == Min(|intro.0 + LoopRun(input[intro.1..], again, LoopLength(h, 1), 1, passes)|, room)
    requires var intro := DecodeRun(input, MarkSamples(h), 1);
      passes < 2 ==> out - |intro.0| != passes * LoopLength(h, 1)
    ensures out == 2 * 2048
  {
    var intro := DecodeRun(input, MarkSamples(h), 1);
    assert MarkSamples(h) == 0 && intro == ([], 0);
    assert LoopLength(h, 1) == 2048;
    assert input[intro.1..] == input;
    DecodeRunComplete(input, 2048, 1);
    DecodeRunComplete(again, 2048, 1);
    LoopRunsToCount(input, again, 2048, 1, room, 2, passes, out);
  }

  /** Encodes the stream's `length` frames. Returns the bytes written. */
  method EncodeStream(header: Header, source: Source, output: Sink) returns (out: nat)
    requires output.Valid()
    modifies source, output
    ensures output.Valid()
    ensures source.data == old(source.data) && source.statuses == old(source.statuses) && source.log == old(source.log)
    ensures var run := EncodeRun(old(source.Remaining()), StreamSamples(header.length, ToChannelCount(header.format)), ToChannelCount(header.format));
      out == Min(|run.0|, old(output.Room())) && output.data == old(output.data) + run.0[..out]
  {
    out := EncodeStreamFor(header, source, output, header.length);
  }

  /** Encodes `count` frames of the stream. Returns the bytes written. */
  method EncodeStreamFor(header: Header, source: Source, output: Sink, count: u32) returns (out: nat)
    requires output.Valid()
    modifies source, output
    ensures output.Valid()
    ensures source.data == old(source.data) && source.statuses == old(source.statuses) && source.log == old(source.log)
    ensures var run := EncodeRun(old(source.Remaining()), StreamSamples(count, ToChannelCount(header.format)), ToChannelCount(header.format));
      out == Min(|run.0|, old(output.Room())) && output.data == old(output.data) + run.0[..out]
  {
    var context := new IoContext(header, source, output);
    out := context.EncodeContextFor(StreamSamples(count, context.channelCount));
  }

  /**
   * Encoding `count` frames of a stream and decoding `count` frames of what
   * the encode wrote gives back those frames, when the input holds them all.
   */
  lemma StreamRoundTrip(header: Header, input: seq<byte>, count: u32)
    requires ToChannelCount(header.format) != 0
    requires |input| >= StreamSamples(count, ToChannelCount(header.format))
    ensures var cc := ToChannelCount(header.format);
      var samples := StreamSamples(count, cc);
      DecodeRun(EncodeRun(input, samples, cc).0, samples, cc).0 == input[..samples]
  {
    var cc := ToChannelCount(header.format);
    var samples := StreamSamples(count, cc);
    assert Samples(Frames(samples, cc), cc) == samples by {
      if cc == 1 {
        assert samples == count && Frames(samples, cc) == count;
      } else {
        assert cc == 2 && samples == 2 * count;
        assert Frames(samples, cc) == count;
      }
    }
    EncodeDecodeRun(input, samples, cc);
  }

  /** Output cut to the room left after a whole first part is the first part and a prefix of the second. */
  lemma JoinPrefix(a: seq<byte>, b: seq<byte>, k: nat, room: nat)
    requires |a| <= room && k == Min(|b|, room - |a|)
    ensures |a| + k == Min(|a + b|, room)
    ensures (a + b)[..|a| + k] == a + b[..k]
  {
    assert (a + b)[..|a| + k] == a + b[..k];
  }
}
