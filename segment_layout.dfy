/**
 * Offset arithmetic of `downloadSegments` in src/Downloader.ts: the
 * preallocated size (line 71), the offset of segment k (line 85) and the
 * prefix sum `getTotalSizeOfSegmentsUpToIndex` (lines 104-106).
 *
 * Segment k is placed at `|init| + |index| + prefix(k) + k`: one byte of
 * padding per preceding segment.  The preallocated size has no padding, so
 * with N >= 2 segments the last one ends N - 1 bytes past it.
 */
module SegmentLayout {
  import opened PlaylistSchema
  import opened PositionalFile

  /** `segments.reduce((acc, segment) => acc + segment.size, 0)`: a left fold. */
  function SumSizes(segments: seq<Segment>): (total: nat)
    ensures forall k :: 0 <= k < |segments| ==> segments[k].size <= total
  {
    if |segments| == 0 then 0
    else
      var front := segments[..|segments| - 1];
      assert forall k :: 0 <= k < |front| ==> front[k] == segments[k];
      SumSizes(front) + segments[|segments| - 1].size
  }

  /** The sizes of a prefix never exceed the sizes of the whole list. */
  lemma {:induction false} PrefixSumAtMostTotal(segments: seq<Segment>, i: nat)
    requires i <= |segments|
    ensures SumSizes(segments[..i]) <= SumSizes(segments)
  {
    if i < |segments| {
      var front := segments[..|segments| - 1];
      assert segments[..i] == front[..i];
      PrefixSumAtMostTotal(front, i);
    } else {
      assert segments[..i] == segments;
    }
  }

  /**
   * `getTotalSizeOfSegmentsUpToIndex(segments, index)`: the sizes of
   * `segments.slice(0, index)`, where the slice stops at the end of the array.
   */
  function SizeUpToIndex(segments: seq<Segment>, index: nat): (size: nat)
    ensures size <= SumSizes(segments)
  {
    var end := if index <= |segments| then index else |segments|;
    PrefixSumAtMostTotal(segments, end);
    SumSizes(segments[..end])
  }

  lemma SizeUpToIndexIsPrefixSum(segments: seq<Segment>, i: nat)
    ensures SizeUpToIndex(segments, 0) == 0
    ensures i < |segments| ==> SizeUpToIndex(segments, i + 1) == SizeUpToIndex(segments, i) + segments[i].size
    ensures i >= |segments| ==> SizeUpToIndex(segments, i) == SumSizes(segments)
  {
    if i < |segments| {
      assert segments[..i + 1][..i] == segments[..i];
    } else {
      assert segments[..|segments|] == segments;
    }
  }

  /** `totalSize` of line 71: the header and the declared sizes, without padding. */
  function TotalSize(initLen: nat, indexLen: nat, segments: seq<Segment>): (total: nat)
    ensures total == initLen + indexLen + SizeUpToIndex(segments, |segments|)
  {
    assert segments[..|segments|] == segments;
    initLen + indexLen + SumSizes(segments)
  }

  /**
   * `offset` of line 85: past the header, and at most one padding byte per
   * preceding segment past the preallocated size.
   */
  function SegmentOffset(initLen: nat, indexLen: nat, segments: seq<Segment>, index: nat): (offset: nat)
    ensures initLen + indexLen + index <= offset <= TotalSize(initLen, indexLen, segments) + index
  {
    initLen + indexLen + SizeUpToIndex(segments, index) + index
  }

  function SegmentOffsets(initLen: nat, indexLen: nat, segments: seq<Segment>): (offsets: seq<nat>)
    ensures |offsets| == |segments|
    ensures forall k :: 0 <= k < |segments| ==> offsets[k] == SegmentOffset(initLen, indexLen, segments, k)
  {
    seq(|segments|, k requires 0 <= k < |segments| => SegmentOffset(initLen, indexLen, segments, k))
  }

  /** The first segment starts right after the header. */
  lemma FirstOffset(initLen: nat, indexLen: nat, segments: seq<Segment>)
    ensures SegmentOffset(initLen, indexLen, segments, 0) == initLen + indexLen
  {
    SizeUpToIndexIsPrefixSum(segments, 0);
  }

  /** Each next segment starts its predecessor's size plus one byte later. */
  lemma OffsetStep(initLen: nat, indexLen: nat, segments: seq<Segment>, k: nat)
    requires k + 1 < |segments|
    ensures SegmentOffset(initLen, indexLen, segments, k + 1)
            == SegmentOffset(initLen, indexLen, segments, k) + segments[k].size + 1
  {
    SizeUpToIndexIsPrefixSum(segments, k);
  }

  /** Offsets grow strictly, and segment j's declared region ends before segment k starts. */
  lemma {:induction false} OffsetsSpaced(initLen: nat, indexLen: nat, segments: seq<Segment>, j: nat, k: nat)
    requires j < k < |segments|
    ensures SegmentOffset(initLen, indexLen, segments, j) + segments[j].size + (k - j)
            <= SegmentOffset(initLen, indexLen, segments, k)
  {
    OffsetStep(initLen, indexLen, segments, k - 1);
    if j < k - 1 {
      OffsetsSpaced(initLen, indexLen, segments, j, k - 1);
    }
  }

  /**
   * The mismatch between lines 71 and 85: with N >= 1 segments the last
   * declared region ends N - 1 bytes past the preallocated size.
   */
  lemma LastSegmentOvershoot(initLen: nat, indexLen: nat, segments: seq<Segment>)
    requires |segments| >= 1
    ensures SegmentOffset(initLen, indexLen, segments, |segments| - 1) + segments[|segments| - 1].size
            == TotalSize(initLen, indexLen, segments) + |segments| - 1
  {
    SizeUpToIndexIsPrefixSum(segments, |segments| - 1);
    SizeUpToIndexIsPrefixSum(segments, |segments|);
  }

  /**
   * A received body no longer than its declared size stays inside its own
   * region: regions are pairwise disjoint and all start after the header.
   */
  lemma SegmentRegionsDisjoint(initLen: nat, indexLen: nat, segments: seq<Segment>, bodies: seq<seq<byte>>)
    requires |bodies| == |segments|
    requires forall k :: 0 <= k < |segments| ==> |bodies[k]| <= segments[k].size
    ensures Disjoint(SegmentOffsets(initLen, indexLen, segments), bodies)
    ensures forall k :: 0 <= k < |segments| ==> initLen + indexLen <= SegmentOffsets(initLen, indexLen, segments)[k]
  {
    var offsets := SegmentOffsets(initLen, indexLen, segments);
    forall j, k | 0 <= j < |offsets| && 0 <= k < |offsets| && j != k
      ensures offsets[j] + |bodies[j]| <= offsets[k] || offsets[k] + |bodies[k]| <= offsets[j]
    {
      if j < k {
        OffsetsSpaced(initLen, indexLen, segments, j, k);
      } else {
        OffsetsSpaced(initLen, indexLen, segments, k, j);
      }
    }
  }

  /**
   * The byte right after segment k lies past the header and inside no
   * segment's region, as long as no body is longer than its declared size.
   */
  lemma PaddingUntouched(initLen: nat, indexLen: nat, segments: seq<Segment>, bodies: seq<seq<byte>>,
                         order: seq<nat>, k: nat)
    requires |bodies| == |segments| && WritesInRange(SegmentOffsets(initLen, indexLen, segments), bodies, order)
    requires forall j :: 0 <= j < |segments| ==> |bodies[j]| <= segments[j].size
    requires k < |segments|
    ensures initLen + indexLen <= SegmentOffset(initLen, indexLen, segments, k) + segments[k].size
    ensures Untouched(SegmentOffset(initLen, indexLen, segments, k) + segments[k].size,
                      SegmentOffsets(initLen, indexLen, segments), bodies, order)
  {
    var offsets := SegmentOffsets(initLen, indexLen, segments);
    var p := offsets[k] + segments[k].size;
    forall j | j in order ensures !(offsets[j] <= p < offsets[j] + |bodies[j]|) {
      var i :| 0 <= i < |order| && order[i] == j;
      if j < k {
        OffsetsSpaced(initLen, indexLen, segments, j, k);
      } else if k < j {
        OffsetsSpaced(initLen, indexLen, segments, k, j);
      }
    }
  }

  /**
   * Sizes 100, 200 and 150 behind a header of h bytes: the file is
   * truncated to h + 450 bytes, the segments go at h, h + 101 and h + 302,
   * and the last one ends two bytes past the truncated size.
   */
  lemma ThreeSegmentExample(initLen: nat, indexLen: nat, s0: Segment, s1: Segment, s2: Segment)
    requires s0.size == 100 && s1.size == 200 && s2.size == 150
    ensures var segments := [s0, s1, s2];
      var h := initLen + indexLen;
      && TotalSize(initLen, indexLen, segments) == h + 450
      && SegmentOffsets(initLen, indexLen, segments) == [h, h + 101, h + 302]
      && SegmentOffset(initLen, indexLen, segments, 2) + s2.size == TotalSize(initLen, indexLen, segments) + 2
  {
    var segments := [s0, s1, s2];
    SizeUpToIndexIsPrefixSum(segments, 0);
    SizeUpToIndexIsPrefixSum(segments, 1);
    SizeUpToIndexIsPrefixSum(segments, 2);
    SizeUpToIndexIsPrefixSum(segments, 3);
  }
}
