/**
 The decompression bound of crates/umbrik-core/src/payload.rs: the ceiling computed from the
 limits, and the reader that stops the inflating stream once the ceiling is passed.
 */
module Inflate {
  import opened Basics
  import opened LimitsModel

  const RATIO_CHECK_FLOOR_BYTES: nat := 64 * 1024

  function SaturatingAdd(a: u64, b: u64): u64 {
    if a + b < U64_LIMIT then a + b else U64_LIMIT - 1
  }

  function SaturatingMul(a: nat, b: nat): u64 {
    if a * b < U64_LIMIT then a * b else U64_LIMIT - 1
  }

  /** The ceiling as the code computes it, in 64-bit saturating arithmetic. */
  function InflateCeiling(compressedLen: nat, limits: Limits): u64 {
    Min(Max(SaturatingMul(compressedLen, limits.maxCompressionRatio), RATIO_CHECK_FLOOR_BYTES),
        limits.maxUncompressedBytes)
  }

  /** Saturation is invisible: the ceiling is the unbounded-integer formula and stays below the cap. */
  lemma CeilingIsUnbounded(compressedLen: nat, limits: Limits)
    ensures InflateCeiling(compressedLen, limits)
         == Min(Max(compressedLen * limits.maxCompressionRatio, 65536), limits.maxUncompressedBytes)
    ensures InflateCeiling(compressedLen, limits) <= limits.maxUncompressedBytes
  {
  }

  /** Loosening the length, the ratio or the byte cap never lowers the ceiling. */
  lemma {:induction false} CeilingIsMonotone(len: nat, limits: Limits, len': nat, limits': Limits)
    requires len <= len'
    requires limits.maxCompressionRatio <= limits'.maxCompressionRatio
    requires limits.maxUncompressedBytes <= limits'.maxUncompressedBytes
    ensures InflateCeiling(len, limits) <= InflateCeiling(len', limits')
  {
    var r, r' := limits.maxCompressionRatio, limits'.maxCompressionRatio;
    assert len * r <= len' * r' by {
      assert len * r <= len' * r;
      assert len' * r <= len' * r';
    }
    CeilingIsUnbounded(len, limits);
    CeilingIsUnbounded(len', limits');
  }

  // ----- the limited reader -----

  /** What the wrapped decompressor answers to one read call. */
  datatype Chunk = Bytes(n: u64) | Fault

  /** What the limited reader answers to its caller. */
  datatype Reply = Delivered(n: u64) | SourceFault | TooLarge

  /** The counter and the answer after one read, as a value. */
  function Counted(read: u64, chunk: Chunk): u64 {
    if chunk.Bytes? then SaturatingAdd(read, chunk.n) else read
  }

  function Answer(read: u64, max: u64, chunk: Chunk): Reply {
    if chunk.Fault? then SourceFault
    else if SaturatingAdd(read, chunk.n) > max then TooLarge
    else Delivered(chunk.n)
  }

  class LimitedReader {
    var read: u64
    const max: u64

    constructor (max: u64)
      ensures this.max == max && read == 0
    {
      this.max := max;
      read := 0;
    }

    method Read(chunk: Chunk) returns (reply: Reply)
      modifies this
      ensures read == Counted(old(read), chunk)
      ensures reply == Answer(old(read), max, chunk)
    {
      if chunk.Fault? {
        return SourceFault;
      }
      read := SaturatingAdd(read, chunk.n);
      if read > max {
        return TooLarge;
      }
      return Delivered(chunk.n);
    }

    /** Drain a whole run of reads through one reader. */
    method ReadAll(chunks: seq<Chunk>) returns (replies: seq<Reply>)
      requires read == 0
      modifies this
      ensures replies == Replies(chunks, max)
      ensures read == CounterAfter(chunks)
    {
      replies := [];
      for i := 0 to |chunks|
        invariant replies == Replies(chunks[..i], max)
        invariant read == CounterAfter(chunks[..i])
      {
        assert chunks[..i + 1][..i] == chunks[..i];
        var reply := Read(chunks[i]);
        replies := replies + [reply];
      }
      assert chunks[..|chunks|] == chunks;
    }
  }

  function CounterAfter(chunks: seq<Chunk>): u64 {
    if chunks == [] then 0
    else Counted(CounterAfter(chunks[..|chunks| - 1]), chunks[|chunks| - 1])
  }

  /** The answers of one reader over a whole run of reads, oldest first. */
  function Replies(chunks: seq<Chunk>, max: u64): (replies: seq<Reply>)
    ensures |replies| == |chunks|
  {
    if chunks == [] then []
    else
      var before := chunks[..|chunks| - 1];
      Replies(before, max) + [Answer(CounterAfter(before), max, chunks[|chunks| - 1])]
  }

  /** Bytes the caller was actually given over a run. */
  function DeliveredBytes(replies: seq<Reply>): nat {
    if replies == [] then 0
    else DeliveredBytes(replies[..|replies| - 1])
         + (if replies[|replies| - 1].Delivered? then replies[|replies| - 1].n else 0)
  }

  /** Bytes the decompressor produced over a run, without any 64-bit bound. */
  function Produced(chunks: seq<Chunk>): nat {
    if chunks == [] then 0
    else Produced(chunks[..|chunks| - 1])
         + (if chunks[|chunks| - 1].Bytes? then chunks[|chunks| - 1].n else 0)
  }

  /** The saturating counter is the true count, capped. */
  lemma {:induction false} CounterIsCappedCount(chunks: seq<Chunk>)
    ensures CounterAfter(chunks) == Min(Produced(chunks), U64_LIMIT - 1)
  {
    if chunks != [] {
      CounterIsCappedCount(chunks[..|chunks| - 1]);
    }
  }

  lemma {:induction false} DeliveredWithinProduced(chunks: seq<Chunk>, max: u64)
    requires max < U64_LIMIT - 1
    ensures DeliveredBytes(Replies(chunks, max)) <= Min(Produced(chunks), max)
  {
    if chunks != [] {
      var before := chunks[..|chunks| - 1];
      DeliveredWithinProduced(before, max);
      CounterIsCappedCount(before);
      CounterIsCappedCount(chunks);
      var replies := Replies(chunks, max);
      assert replies[..|replies| - 1] == Replies(before, max);
    }
  }

  /** A run of 2^64 bytes that a reader with the largest possible bound lets through. */
  const UNBOUNDED_RUN: seq<Chunk> := [Bytes(0x8000_0000_0000_0000), Bytes(0x8000_0000_0000_0000)]

  lemma DeliveredPair(a: u64, b: u64)
    ensures DeliveredBytes([Delivered(a), Delivered(b)]) == a as int + b
  {
    var both, one := [Delivered(a), Delivered(b)], [Delivered(a)];
    assert both[..1] == one && one[..0] == [];
    assert DeliveredBytes(one) == a;
  }

  lemma UnboundedRunPasses()
    ensures DeliveredBytes(Replies(UNBOUNDED_RUN, U64_LIMIT - 1)) == U64_LIMIT
  {
    hide DeliveredBytes, Replies;
    var max: u64 := U64_LIMIT - 1;
    var replies := Replies(UNBOUNDED_RUN, max);
    RepliesAt(UNBOUNDED_RUN, max, 0);
    RepliesAt(UNBOUNDED_RUN, max, 1);
    var one := UNBOUNDED_RUN[..1];
    assert one[..0] == [] && CounterAfter(one) == 0x8000_0000_0000_0000;
    assert replies == [Delivered(0x8000_0000_0000_0000), Delivered(0x8000_0000_0000_0000)];
    DeliveredPair(0x8000_0000_0000_0000, 0x8000_0000_0000_0000);
  }

  /**
   The byte bound holds over every run exactly when the maximum is below the saturation point:
   at `u64::MAX` the saturating counter can never exceed it and the reader bounds nothing.
   */
  lemma DeliveryBoundedIffBelowSaturation(max: u64)
    ensures (forall chunks :: DeliveredBytes(Replies(chunks, max)) <= max) <==> max < U64_LIMIT - 1
  {
    if max < U64_LIMIT - 1 {
      forall chunks ensures DeliveredBytes(Replies(chunks, max)) <= max {
        DeliveredWithinProduced(chunks, max);
      }
    } else {
      UnboundedRunPasses();
    }
  }

  /**
   Whatever the decompressor produces, a payload of a given length never inflates past the byte cap, nor past the
   ratio once above the floor, whenever the ceiling they lead to is below the saturation point.
   */
  lemma {:induction false} InflationBounded(compressedLen: nat, limits: Limits, chunks: seq<Chunk>)
    requires InflateCeiling(compressedLen, limits) < U64_LIMIT - 1
    ensures
      var delivered := DeliveredBytes(Replies(chunks, InflateCeiling(compressedLen, limits)));
      && delivered <= limits.maxUncompressedBytes
      && delivered <= Max(compressedLen * limits.maxCompressionRatio, RATIO_CHECK_FLOOR_BYTES)
  {
    CeilingIsUnbounded(compressedLen, limits);
    DeliveryBoundedIffBelowSaturation(InflateCeiling(compressedLen, limits));
  }

  /** The answers of a reader that limits nothing. */
  function PassedThrough(chunks: seq<Chunk>): seq<Reply> {
    seq(|chunks|, i requires 0 <= i < |chunks| => if chunks[i].Bytes? then Delivered(chunks[i].n) else SourceFault)
  }

  lemma {:induction false} ProducedGrows(chunks: seq<Chunk>, n: nat)
    requires n <= |chunks|
    ensures Produced(chunks[..n]) <= Produced(chunks)
  {
    if n < |chunks| {
      ProducedGrows(chunks[..|chunks| - 1], n);
      assert chunks[..|chunks| - 1][..n] == chunks[..n];
    } else {
      assert chunks[..n] == chunks;
    }
  }

  lemma {:induction false} DeliveredOfPassedThrough(chunks: seq<Chunk>)
    ensures DeliveredBytes(PassedThrough(chunks)) == Produced(chunks)
  {
    if chunks != [] {
      DeliveredOfPassedThrough(chunks[..|chunks| - 1]);
      assert PassedThrough(chunks)[..|chunks| - 1] == PassedThrough(chunks[..|chunks| - 1]);
    }
  }

  /** The reader is invisible exactly when the run fits the maximum, or the maximum is the one that bounds nothing. */
  lemma {:induction false} InvisibleIffFits(chunks: seq<Chunk>, max: u64)
    ensures Replies(chunks, max) == PassedThrough(chunks) <==> Produced(chunks) <= max || max == U64_LIMIT - 1
  {
    if Produced(chunks) <= max || max == U64_LIMIT - 1 {
      forall i | 0 <= i < |chunks| ensures Replies(chunks, max)[i] == PassedThrough(chunks)[i] {
        RepliesAt(chunks, max, i);
        CounterIsCappedCount(chunks[..i + 1]);
        ProducedGrows(chunks, i + 1);
        assert chunks[..i + 1][..i] == chunks[..i];
      }
    } else {
      DeliveredWithinProduced(chunks, max);
      DeliveredOfPassedThrough(chunks);
    }
  }

  /** Once a read is refused for size, no later read of the same reader delivers anything. */
  lemma {:induction false} RefusalIsPermanent(chunks: seq<Chunk>, max: u64, i: nat, j: nat)
    requires i < j < |chunks|
    requires Replies(chunks, max)[i] == TooLarge
    ensures !Replies(chunks, max)[j].Delivered?
  {
    RepliesAt(chunks, max, i);
    RepliesAt(chunks, max, j);
    assert chunks[..i + 1][..i] == chunks[..i];
    CounterGrows(chunks, i + 1, j);
  }

  lemma {:induction false} RepliesAt(chunks: seq<Chunk>, max: u64, i: nat)
    requires i < |chunks|
    ensures Replies(chunks, max)[i] == Answer(CounterAfter(chunks[..i]), max, chunks[i])
  {
    var last := |chunks| - 1;
    if i < last {
      RepliesAt(chunks[..last], max, i);
      assert chunks[..last][..i] == chunks[..i];
    }
  }

  lemma {:induction false} CounterGrows(chunks: seq<Chunk>, i: nat, j: nat)
    requires i <= j <= |chunks|
    ensures CounterAfter(chunks[..i]) <= CounterAfter(chunks[..j])
  {
    if i < j {
      CounterGrows(chunks, i, j - 1);
      assert chunks[..j][..j - 1] == chunks[..j - 1];
    }
  }
}
