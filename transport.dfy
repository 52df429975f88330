/**
 * The two stream helpers outside the transcoding context: the loop seek,
 * which moves the source to a block position past the header sector in
 * relative steps small enough for a 32-bit offset, and the pregap, which
 * writes silent blocks of origin samples.
 */
module Transport {
  import opened Layout
  import opened Streams

  /** Sectors one relative seek step covers: the most whose byte offset fits in 32 bits. */
  const OffsetMaximum: nat := 2097151

  lemma OffsetMaximumFits()
    ensures OffsetMaximum == U32Max / SectorSize
    ensures SectorSize * OffsetMaximum <= U32Max < SectorSize * (OffsetMaximum + 1)
  {
  }

  /** The byte a seek to `position` blocks lands on: past the header sector, one sector per block. */
  function SeekTarget(position: nat): nat
  {
    SectorSize * (1 + position)
  }

  /** The bytes a source holding `data` has left once a seek to `position` blocks succeeds. */
  function Rewound(data: seq<byte>, position: nat): (rest: seq<byte>)
    ensures SeekTarget(position) <= |data| ==> |rest| == |data| - SeekTarget(position)
  {
    if SeekTarget(position) <= |data| then data[SeekTarget(position)..] else []
  }

  /**
   * The requests a seek to `position` issues when every one succeeds: a
   * flush, an absolute seek past the header, the whole steps, then the rest.
   */
  function SeekPlan(position: nat): (plan: seq<Request>)
    ensures |plan| == 3 + position / OffsetMaximum
  {
    [Request.Flush, Request.SeekSet(SectorSize)]
    + seq(position / OffsetMaximum, _ => Request.SeekCur(SectorSize * OffsetMaximum))
    + [Request.SeekCur(SectorSize * (position % OffsetMaximum))]
  }

  /** The plan flushes first, and every seek offset in it fits in 32 bits. */
  lemma SeekPlanFits(position: nat)
    ensures SeekPlan(position)[0] == Request.Flush
    ensures forall r :: r in SeekPlan(position) && !r.Flush? ==> r.offset <= U32Max
  {
    var plan := SeekPlan(position);
    forall r | r in plan && !r.Flush?
      ensures r.offset <= U32Max
    {
      var i :| 0 <= i < |plan| && plan[i] == r;
      if 2 <= i < |plan| - 1 {
        assert r == Request.SeekCur(SectorSize * OffsetMaximum);
      }
    }
  }

  /**
   * Flushes `source`, then seeks it to block `position` past the header
   * sector, stopping at the first request that fails and returning its
   * status; zero when every request succeeds.
   */
  method DecodeSeek(source: Source, position: u32) returns (status: int)
    modifies source
    ensures source.data == old(source.data) && source.statuses == old(source.statuses)
    ensures |old(source.log)| < |source.log| <= |old(source.log)| + |SeekPlan(position)|
    ensures source.log == old(source.log) + SeekPlan(position)[..|source.log| - |old(source.log)|]
    ensures forall i :: |old(source.log)| <= i < |source.log| - 1 ==> source.StatusAt(i) == 0
    ensures status == source.StatusAt(|source.log| - 1)
    ensures status == 0 ==> |source.log| == |old(source.log)| + |SeekPlan(position)|
    ensures status == 0 ==> source.pos == SeekTarget(position)
    ensures status == 0 ==> source.Remaining() == Rewound(source.data, position)
  {
    ghost var plan := SeekPlan(position);
    ghost var start := |source.log|;
    status := source.Flush();
    assert source.log == old(source.log) + plan[..1];
    if status != 0 {
      return;
    }
    status := source.SeekSet(SectorSize);
    assert source.log == old(source.log) + plan[..2];
    if status != 0 {
      return;
    }
    var rest: nat := position;
    ghost var steps: nat := 0;
    while rest >= OffsetMaximum
      invariant rest + steps * OffsetMaximum == position
      invariant steps <= position / OffsetMaximum
      invariant source.data == old(source.data) && source.statuses == old(source.statuses)
      invariant source.log == old(source.log) + plan[..2 + steps]
      invariant forall i :: start <= i < |source.log| ==> source.StatusAt(i) == 0
      invariant source.pos == SectorSize * (1 + steps * OffsetMaximum)
      decreases rest
    {
      assert steps < position / OffsetMaximum;
      status := source.SeekCur(SectorSize * OffsetMaximum);
      assert plan[..2 + steps] + [plan[2 + steps]] == plan[..3 + steps];
      if status != 0 {
        return;
      }
      rest := rest - OffsetMaximum;
      steps := steps + 1;
    }
    assert steps == position / OffsetMaximum && rest == position % OffsetMaximum;
    status := source.SeekCur(SectorSize * rest);
    assert plan[..2 + steps] + [plan[2 + steps]] == plan;
  }

  /**
   * The relative step the library's loop actually asks for. Its offset
   * maximum macro expands without parentheses, so the step reads
   * `2048 * UINT32_MAX / 2048`: the product wraps in 32 bits before the
   * division, leaving one sector's worth of bytes short of every sector.
   */
  function SeekStepAsWritten(): nat
  {
    Wrap32(SectorSize * U32Max) / SectorSize
  }

  /**
   * Where the library's seek lands when every request succeeds, with that
   * step: never past the intended byte, and on it below one whole step.
   */
  function SeekTargetAsWritten(position: nat): (r: nat)
    ensures r <= SeekTarget(position)
    ensures position < OffsetMaximum ==> r == SeekTarget(position)
  {
    SeekStepAsWrittenValue();
    assert position == (position / OffsetMaximum) * OffsetMaximum + position % OffsetMaximum;
    SectorSize + (position / OffsetMaximum) * SeekStepAsWritten() + SectorSize * (position % OffsetMaximum)
  }

  /** The step as written is 2097151 bytes, not 2097151 sectors. */
  lemma SeekStepAsWrittenValue()
    ensures SeekStepAsWritten() == OffsetMaximum
    ensures SeekStepAsWritten() < SectorSize * OffsetMaximum
  {
    assert SectorSize * U32Max == 2047 * U32Modulus + (U32Modulus - SectorSize);
  }

  /** The seek as written lands on the right byte exactly when no whole step is taken. */
  lemma SeekAsWrittenMissesTarget(position: nat)
    ensures SeekTargetAsWritten(position) == SeekTarget(position) <==> position < OffsetMaximum
  {
    SeekStepAsWrittenValue();
    var q := position / OffsetMaximum;
    var r := position % OffsetMaximum;
    assert position == q * OffsetMaximum + r;
    assert SeekTarget(position) == SectorSize + SectorSize * (q * OffsetMaximum) + SectorSize * r;
    assert SeekTargetAsWritten(position) == SectorSize + q * OffsetMaximum + SectorSize * r;
    if q > 0 {
      assert SectorSize * (q * OffsetMaximum) > q * OffsetMaximum;
    }
  }

  /**
   * Writes `pregap` silent blocks of origin samples to `output` and returns
   * the count written. A failed write abandons only the current block: every
   * later block is still attempted, one write at a time.
   */
  method DecodePregap(pregap: byte, output: Sink) returns (out: nat)
    requires output.Valid()
    modifies output
    ensures output.Valid()
    ensures out == Min(BlockSize * pregap, old(output.Room()))
    ensures output.data == old(output.data) + seq(out, _ => Origin)
    ensures output.calls == old(output.calls) +
      if old(output.Room()) >= BlockSize * pregap then BlockSize * pregap
      else old(output.Room()) + pregap - old(output.Room()) / BlockSize
  {
    ghost var room := output.Room();
    out := 0;
    var remaining: byte := pregap;
    while remaining > 0
      invariant remaining <= pregap && output.Valid()
      invariant out == Min(BlockSize * (pregap - remaining), room)
      invariant output.data == old(output.data) + seq(out, _ => Origin)
      invariant output.calls == old(output.calls) + PregapCalls(pregap - remaining, room)
    {
      ghost var before := out;
      ghost var callsBefore := output.calls;
      ghost var stopped := false;
      var index := 0;
      while index < BlockSize
        invariant index <= BlockSize && output.Valid()
        invariant out == before + index && out <= room
        invariant |output.data| == |old(output.data)| + out
        invariant output.data == old(output.data) + seq(out, _ => Origin)
        invariant output.calls == callsBefore + index
      {
        var put := output.Put(Origin);
        if put != 1 {
          stopped := true;
          break;
        }
        out := out + 1;
        index := index + 1;
      }
      assert stopped ==> out == room && output.calls == callsBefore + index + 1;
      assert !stopped ==> out == before + BlockSize && output.calls == callsBefore + BlockSize;
      remaining := remaining - 1;
    }
    PregapCallsTotal(pregap, room);
  }

  /**
   * Write calls the pregap block numbered `block` makes on a sink with
   * `room` bytes of room at the start of the pregap: a whole block while
   * the room lasts, the rest of the room and the failed write in the block
   * where it runs out, and one failed write in every later block.
   */
  function BlockCalls(block: nat, room: nat): nat
  {
    if room >= BlockSize * (block + 1) then BlockSize
    else if room >= BlockSize * block then room - BlockSize * block + 1
    else 1
  }

  /** Write calls the first `blocks` pregap blocks make, block by block. */
  function PregapCalls(blocks: nat, room: nat): nat
  {
    if blocks == 0 then 0 else PregapCalls(blocks - 1, room) + BlockCalls(blocks - 1, room)
  }

  /**
   * In closed form: every byte of the pregap when the room suffices, and
   * otherwise every byte of the room plus one failed write per block from
   * the block where the room runs out.
   */
  lemma {:induction false} PregapCallsTotal(pregap: nat, room: nat)
    ensures PregapCalls(pregap, room) == if room >= BlockSize * pregap then BlockSize * pregap
      else room + pregap - room / BlockSize
    decreases pregap
  {
    if pregap > 0 {
      PregapCallsTotal(pregap - 1, room);
      if BlockSize * (pregap - 1) <= room < BlockSize * pregap {
        assert room / BlockSize == pregap - 1;
      }
    }
  }
}
