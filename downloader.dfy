/**
 * `VimeoPlaylistDownloader` of src/Downloader.ts: `downloadSegments`, which
 * assembles one track into a preallocated file, and `download`, which
 * parses the manifest, selects the renditions and assembles both tracks.
 *
 * The network is replaced by a `TrackServer` value per track: the index
 * response, the response for each segment, and the order in which the
 * segment downloads complete (the only effect of the download queue's
 * concurrency that can be observed in the file).
 */
module Downloader {
  import opened Wrappers
  import opened PlaylistSchema
  import opened PositionalFile
  import opened SegmentLayout
  import opened RenditionSelection

  /** An HTTP response: its `ok` flag and the bytes of its body. */
  datatype Response = Response(ok: bool, body: seq<byte>)

  datatype DownloadError =
    | ManifestSchemaError
    | RenditionNotFound
    | IndexDownloadFailed
    | SegmentDownloadFailed(index: nat)

  /**
   * What the server answers for one track: the index response, the response
   * for segment k of the track, and the order in which the segment
   * downloads complete.
   */
  datatype TrackServer = TrackServer(index: Response, segment: nat -> Response, completion: seq<nat>)

  /** A completion order of n downloads names every segment exactly once. */
  predicate IsCompletionOrder(order: seq<nat>, n: nat) {
    && |order| == n
    && (forall i :: 0 <= i < |order| ==> order[i] < n)
    && (forall k :: 0 <= k < n ==> k in order)
  }

  function Bodies(segment: nat -> Response, n: nat): (bodies: seq<seq<byte>>)
    ensures |bodies| == n
    ensures forall k :: 0 <= k < n ==> bodies[k] == segment(k).body
  {
    seq(n, k requires 0 <= k => segment(k).body)
  }

  /** Every received body is at most as long as the size the manifest declares for it. */
  predicate ReceivedWithinDeclared(segments: seq<Segment>, segment: nat -> Response) {
    forall k :: 0 <= k < |segments| ==> |segment(k).body| <= segments[k].size
  }

  /** The step of `order` at which the first failed response arrives, or |order| if none fails. */
  function FirstFailure(segment: nat -> Response, order: seq<nat>): (stop: nat)
    ensures stop <= |order|
    ensures forall i :: 0 <= i < stop ==> segment(order[i]).ok
    ensures stop < |order| ==> !segment(order[stop]).ok
  {
    if |order| == 0 || !segment(order[0]).ok then 0
    else 1 + FirstFailure(segment, order[1..])
  }

  /**
   * The file after lines 72-75: `totalSize` zero bytes, then the init bytes
   * written at 0 and the index bytes right after them.
   */
  function HeaderFile(init: seq<byte>, index: seq<byte>, segments: seq<Segment>): (header: seq<byte>)
    ensures |header| == TotalSize(|init|, |index|, segments)
  {
    WriteAt(WriteAt(Resize([], TotalSize(|init|, |index|, segments)), init, 0), index, |init|)
  }

  lemma HeaderFileLayout(init: seq<byte>, index: seq<byte>, segments: seq<Segment>)
    ensures HeaderFile(init, index, segments) == init + index + Zeros(SumSizes(segments))
  {
    var h := HeaderFile(init, index, segments);
    var sized := Resize([], TotalSize(|init|, |index|, segments));
    ResizeBytes([], TotalSize(|init|, |index|, segments));
    WriteAtBytes(sized, init, 0);
    WriteAtBytes(WriteAt(sized, init, 0), index, |init|);
    var expected := init + index + Zeros(SumSizes(segments));
    assert |h| == |expected|;
    forall p | 0 <= p < |h| ensures h[p] == expected[p] {
      if p < |init| {
        assert h[p] == init[p];
      } else if p < |init| + |index| {
        assert h[|init| + (p - |init|)] == index[p - |init|];
      }
    }
  }

  /** The file a track's assembly leaves, whether the file is still open, and the outcome. */
  datatype Assembly = Assembly(contents: seq<byte>, isOpen: bool, outcome: Result<(), DownloadError>)

  /**
   * What `downloadSegments` (lines 57-94) leaves behind.  The file is opened
   * empty; a failed index response ends there.  Otherwise the file is sized
   * and the header written, and segment bodies are written at their offsets
   * in completion order until the first failed response, which ends the
   * assembly with the file left open.
   */
  function Assemble(segments: seq<Segment>, init: seq<byte>, server: TrackServer): (a: Assembly)
    requires IsCompletionOrder(server.completion, |segments|)
  {
    if !server.index.ok then Assembly([], true, Err(IndexDownloadFailed))
    else
      var order := server.completion;
      var stop := FirstFailure(server.segment, order);
      assert forall i :: 0 <= i < |order[..stop]| ==> order[..stop][i] < |segments|;
      var contents := ApplyWrites(HeaderFile(init, server.index.body, segments),
                                  SegmentOffsets(|init|, |server.index.body|, segments),
                                  Bodies(server.segment, |segments|), order[..stop]);
      if stop < |order| then
        Assembly(contents, true, Err(SegmentDownloadFailed(order[stop])))
      else
        Assembly(contents, false, Ok(()))
  }

  /** Assemble after a successful index response, unfolded. */
  lemma AssembleUnfolded(segments: seq<Segment>, init: seq<byte>, server: TrackServer, stop: nat)
    requires IsCompletionOrder(server.completion, |segments|) && server.index.ok
    requires stop == FirstFailure(server.segment, server.completion)
    ensures WritesInRange(SegmentOffsets(|init|, |server.index.body|, segments),
                          Bodies(server.segment, |segments|), server.completion[..stop])
    ensures Assemble(segments, init, server)
            == Assembly(ApplyWrites(HeaderFile(init, server.index.body, segments),
                                    SegmentOffsets(|init|, |server.index.body|, segments),
                                    Bodies(server.segment, |segments|), server.completion[..stop]),
                        stop < |server.completion|,
                        if stop < |server.completion| then Err(SegmentDownloadFailed(server.completion[stop])) else Ok(()))
  {
  }

  /**
   * The assembly succeeds exactly when the index and every segment
   * response are ok, and only then is the file closed; a failure names the
   * index download or a segment whose response was not ok, and a failed
   * index download leaves the file empty.
   */
  lemma AssembleOutcome(segments: seq<Segment>, init: seq<byte>, server: TrackServer)
    requires IsCompletionOrder(server.completion, |segments|)
    ensures var a := Assemble(segments, init, server);
      && (a.outcome.Ok? <==> server.index.ok && forall k :: 0 <= k < |segments| ==> server.segment(k).ok)
      && (a.isOpen <==> a.outcome.Err?)
      && (!server.index.ok ==> a.outcome == Err(IndexDownloadFailed) && a.contents == [])
      && (a.outcome.Err? && server.index.ok ==>
            exists k :: 0 <= k < |segments| && a.outcome == Err(SegmentDownloadFailed(k)) && !server.segment(k).ok)
  {
    var order := server.completion;
    var stop := FirstFailure(server.segment, order);
    if server.index.ok && stop == |order| {
      forall k | 0 <= k < |segments| ensures server.segment(k).ok {
        assert k in order;
        var i :| 0 <= i < |order| && order[i] == k;
      }
    }
  }

  /** `downloadSegments`: the per-segment callbacks, run in the order their downloads complete. */
  method DownloadSegments(segments: seq<Segment>, init: seq<byte>, server: TrackServer)
    returns (file: OutputFile, r: Result<(), DownloadError>)
    requires IsCompletionOrder(server.completion, |segments|)
    ensures fresh(file)
    ensures Assembly(file.contents, file.isOpen, r) == Assemble(segments, init, server)
  {
    file := new OutputFile.Open();
    if !server.index.ok {
      r := Err(IndexDownloadFailed);
      return;
    }
    var index := server.index.body;
    file.Truncate(TotalSize(|init|, |index|, segments));
    file.Write(init, 0);
    file.Write(index, |init|);

    ghost var header := file.contents;
    ghost var offsets := SegmentOffsets(|init|, |index|, segments);
    ghost var bodies := Bodies(server.segment, |segments|);
    assert header == HeaderFile(init, index, segments);
    var order := server.completion;
    var step := 0;
    while step < |order|
      invariant 0 <= step <= |order|
      invariant file.isOpen
      invariant forall i :: 0 <= i < step ==> server.segment(order[i]).ok
      invariant WritesInRange(offsets, bodies, order[..step])
      invariant file.contents == ApplyWrites(header, offsets, bodies, order[..step])
    {
      var k := order[step];
      var response := server.segment(k);
      if !response.ok {
        r := Err(SegmentDownloadFailed(k));
        AssembleUnfolded(segments, init, server, step);
        return;
      }
      var offset := SegmentOffset(|init|, |index|, segments, k);
      assert offsets[k] == offset && bodies[k] == response.body;
      ApplyWritesSnoc(header, offsets, bodies, order[..step], k);
      assert order[..step + 1] == order[..step] + [k];
      file.Write(response.body, offset);
      assert forall i :: 0 <= i < step + 1 ==> server.segment(order[i]).ok;
      step := step + 1;
    }
    assert order[..step] == order;
    file.Close();
    r := Ok(());
    AssembleUnfolded(segments, init, server, step);
  }

  // ---------------------------------------------------------------------
  // What the assembled file holds

  /**
   * Segment writes never reach into the header: after a successful index
   * response the file starts with the init bytes followed by the index
   * bytes, whatever the segment responses were and however they arrived.
   */
  lemma AssembledHeaderIntact(segments: seq<Segment>, init: seq<byte>, server: TrackServer)
    requires IsCompletionOrder(server.completion, |segments|) && server.index.ok
    ensures var c := Assemble(segments, init, server).contents;
      && |init| + |server.index.body| <= |c|
      && c[..|init|] == init
      && c[|init|..|init| + |server.index.body|] == server.index.body
  {
    var index := server.index.body;
    var stop := FirstFailure(server.segment, server.completion);
    AssembleUnfolded(segments, init, server, stop);
    var header := HeaderFile(init, index, segments);
    var offsets := SegmentOffsets(|init|, |index|, segments);
    HeaderFileLayout(init, index, segments);
    var h := |init| + |index|;
    ApplyWritesKeepsPrefix(header, offsets, Bodies(server.segment, |segments|), server.completion[..stop], h);
    var c := Assemble(segments, init, server).contents;
    assert c[..h] == header[..h] == init + index;
    assert c[..|init|] == (init + index)[..|init|];
    assert c[|init|..h] == (init + index)[|init|..];
  }

  /** When no response fails, the assembly writes every segment, in its completion order. */
  lemma AssembleAllOk(segments: seq<Segment>, init: seq<byte>, server: TrackServer)
    requires IsCompletionOrder(server.completion, |segments|) && server.index.ok
    requires forall k :: 0 <= k < |segments| ==> server.segment(k).ok
    ensures WritesInRange(SegmentOffsets(|init|, |server.index.body|, segments),
                          Bodies(server.segment, |segments|), server.completion)
    ensures Assemble(segments, init, server)
            == Assembly(ApplyWrites(HeaderFile(init, server.index.body, segments),
                                    SegmentOffsets(|init|, |server.index.body|, segments),
                                    Bodies(server.segment, |segments|), server.completion),
                        false, Ok(()))
  {
    var stop := FirstFailure(server.segment, server.completion);
    AssembleUnfolded(segments, init, server, stop);
    assert server.completion[..stop] == server.completion;
  }

  /**
   * When every response is ok and no body is longer than its declared size,
   * the assembled file is the same for every completion order of the
   * segment downloads.
   */
  lemma CompletionOrderIrrelevant(segments: seq<Segment>, init: seq<byte>, index: Response,
                                  segment: nat -> Response, order1: seq<nat>, order2: seq<nat>)
    requires index.ok && forall k :: 0 <= k < |segments| ==> segment(k).ok
    requires ReceivedWithinDeclared(segments, segment)
    requires IsCompletionOrder(order1, |segments|) && IsCompletionOrder(order2, |segments|)
    ensures Assemble(segments, init, TrackServer(index, segment, order1))
            == Assemble(segments, init, TrackServer(index, segment, order2))
  {
    AssembleAllOk(segments, init, TrackServer(index, segment, order1));
    AssembleAllOk(segments, init, TrackServer(index, segment, order2));
    var offsets := SegmentOffsets(|init|, |index.body|, segments);
    var bodies := Bodies(segment, |segments|);
    SegmentRegionsDisjoint(|init|, |index.body|, segments, bodies);
    SameSegments(order1, order2, |segments|);
    WriteOrderIrrelevant(HeaderFile(init, index.body, segments), offsets, bodies, order1, order2);
  }

  /** Two completion orders of the same downloads name the same segments. */
  lemma SameSegments(order1: seq<nat>, order2: seq<nat>, n: nat)
    requires IsCompletionOrder(order1, n) && IsCompletionOrder(order2, n)
    ensures forall k :: k in order1 <==> k in order2
  {
    forall k ensures k in order1 <==> k in order2 {
      if k in order1 {
        var i :| 0 <= i < |order1| && order1[i] == k;
      }
      if k in order2 {
        var i :| 0 <= i < |order2| && order2[i] == k;
      }
    }
  }

  /** Every received body has exactly the size the manifest declares for it. */
  predicate ReceivedAsDeclared(segments: seq<Segment>, segment: nat -> Response) {
    forall k :: 0 <= k < |segments| ==> |segment(k).body| == segments[k].size
  }

  /** The byte right after each segment but the last, the one the offsets skip, is zero wherever the file reaches it. */
  predicate PaddingZero(c: seq<byte>, offsets: seq<nat>, segments: seq<Segment>)
    requires |offsets| == |segments|
  {
    forall k :: 0 <= k < |segments| - 1 && offsets[k] + segments[k].size < |c| ==> c[offsets[k] + segments[k].size] == 0
  }

  /**
   * In a file whose bytes past the header are zero wherever no segment
   * write reached them, the byte right after each segment but the last is
   * zero.
   */
  lemma UntouchedPadding(c: seq<byte>, initLen: nat, indexLen: nat, segments: seq<Segment>,
                         bodies: seq<seq<byte>>, order: seq<nat>)
    requires |bodies| == |segments| && WritesInRange(SegmentOffsets(initLen, indexLen, segments), bodies, order)
    requires forall j :: 0 <= j < |segments| ==> |bodies[j]| <= segments[j].size
    requires forall p :: initLen + indexLen <= p < |c| && Untouched(p, SegmentOffsets(initLen, indexLen, segments), bodies, order)
               ==> c[p] == 0
    ensures PaddingZero(c, SegmentOffsets(initLen, indexLen, segments), segments)
  {
    var offsets := SegmentOffsets(initLen, indexLen, segments);
    forall k | 0 <= k < |segments| - 1 && offsets[k] + segments[k].size < |c|
      ensures c[offsets[k] + segments[k].size] == 0
    {
      PaddingUntouched(initLen, indexLen, segments, bodies, order, k);
    }
  }

  /**
   * A file described by the segment writes over a header of the truncated
   * size, whose last segment is non-empty, is longer than that size by
   * exactly one byte per segment boundary.
   */
  lemma DescribedLength(c: seq<byte>, header: seq<byte>, initLen: nat, indexLen: nat, segments: seq<Segment>,
                        bodies: seq<seq<byte>>, order: seq<nat>)
    requires |bodies| == |segments| && WritesInRange(SegmentOffsets(initLen, indexLen, segments), bodies, order)
    requires forall k :: 0 <= k < |segments| ==> k in order && |bodies[k]| == segments[k].size
    requires |header| == TotalSize(initLen, indexLen, segments)
    requires Describes(c, header, SegmentOffsets(initLen, indexLen, segments), bodies, order)
    requires |segments| > 0 && segments[|segments| - 1].size > 0
    ensures |c| == TotalSize(initLen, indexLen, segments) + |segments| - 1
  {
    var n := |segments|;
    var offsets := SegmentOffsets(initLen, indexLen, segments);
    LastSegmentOvershoot(initLen, indexLen, segments);
    assert n - 1 in order;
    if |c| != |header| {
      var k :| k in order && |bodies[k]| > 0 && |c| == offsets[k] + |bodies[k]|;
      var i :| 0 <= i < |order| && order[i] == k;
      if k < n - 1 {
        OffsetsSpaced(initLen, indexLen, segments, k, n - 1);
      }
    }
  }

  /** The header a successful index response leaves is zero past the init and index bytes. */
  lemma HeaderZeroTail(init: seq<byte>, index: seq<byte>, segments: seq<Segment>)
    ensures |HeaderFile(init, index, segments)| == TotalSize(|init|, |index|, segments)
    ensures forall p :: |init| + |index| <= p < |HeaderFile(init, index, segments)| ==>
      HeaderFile(init, index, segments)[p] == 0
  {
    var header := HeaderFile(init, index, segments);
    HeaderFileLayout(init, index, segments);
    forall p | |init| + |index| <= p < |header| ensures header[p] == 0 {
      assert header[p] == Zeros(SumSizes(segments))[p - |init| - |index|];
    }
  }

  /** A fully successful download is described, order-free, by its segment writes over the header. */
  lemma AssembledDescribed(segments: seq<Segment>, init: seq<byte>, server: TrackServer)
    requires IsCompletionOrder(server.completion, |segments|) && server.index.ok
    requires forall k :: 0 <= k < |segments| ==> server.segment(k).ok
    requires ReceivedAsDeclared(segments, server.segment)
    ensures WritesInRange(SegmentOffsets(|init|, |server.index.body|, segments),
                          Bodies(server.segment, |segments|), server.completion)
    ensures Describes(Assemble(segments, init, server).contents, HeaderFile(init, server.index.body, segments),
                      SegmentOffsets(|init|, |server.index.body|, segments),
                      Bodies(server.segment, |segments|), server.completion)
  {
    var bodies := Bodies(server.segment, |segments|);
    AssembleAllOk(segments, init, server);
    SegmentRegionsDisjoint(|init|, |server.index.body|, segments, bodies);
    ApplyWritesDescribed(HeaderFile(init, server.index.body, segments),
                         SegmentOffsets(|init|, |server.index.body|, segments), bodies, server.completion);
  }

  /** After a fully successful download, each non-empty segment's bytes sit at its offset. */
  lemma AssembledRegions(segments: seq<Segment>, init: seq<byte>, server: TrackServer)
    requires IsCompletionOrder(server.completion, |segments|) && server.index.ok
    requires forall k :: 0 <= k < |segments| ==> server.segment(k).ok
    requires ReceivedAsDeclared(segments, server.segment)
    ensures forall k :: 0 <= k < |segments| && segments[k].size > 0 ==>
      HoldsAt(Assemble(segments, init, server).contents, server.segment(k).body,
              SegmentOffset(|init|, |server.index.body|, segments, k))
  {
    var c := Assemble(segments, init, server).contents;
    var header := HeaderFile(init, server.index.body, segments);
    var offsets := SegmentOffsets(|init|, |server.index.body|, segments);
    var bodies := Bodies(server.segment, |segments|);
    AssembledDescribed(segments, init, server);
    forall k | 0 <= k < |segments| && segments[k].size > 0
      ensures HoldsAt(c, server.segment(k).body, SegmentOffset(|init|, |server.index.body|, segments, k))
    {
      assert k in server.completion;
      DescribedRegion(c, header, offsets, bodies, server.completion, k);
    }
  }

  /**
   * After a fully successful download, the byte right after each segment
   * but the last, the one the offsets skip, is still zero.
   */
  lemma AssembledPadding(segments: seq<Segment>, init: seq<byte>, server: TrackServer)
    requires IsCompletionOrder(server.completion, |segments|) && server.index.ok
    requires forall k :: 0 <= k < |segments| ==> server.segment(k).ok
    requires ReceivedAsDeclared(segments, server.segment)
    ensures PaddingZero(Assemble(segments, init, server).contents, SegmentOffsets(|init|, |server.index.body|, segments), segments)
  {
    var index := server.index.body;
    var c := Assemble(segments, init, server).contents;
    var header := HeaderFile(init, index, segments);
    var bodies := Bodies(server.segment, |segments|);
    AssembledDescribed(segments, init, server);
    forall k | 0 <= k < |segments| ensures |bodies[k]| == segments[k].size { }
    HeaderZeroTail(init, index, segments);
    DescribedZeroPast(c, header, SegmentOffsets(|init|, |index|, segments), bodies, server.completion, |init| + |index|);
    UntouchedPadding(c, |init|, |index|, segments, bodies, server.completion);
  }

  /**
   * A fully successful download never leaves a file shorter than the
   * truncated size; with no segments it is exactly that size, and when the
   * last segment is non-empty it is longer by one byte per segment boundary.
   */
  lemma AssembledLength(segments: seq<Segment>, init: seq<byte>, server: TrackServer)
    requires IsCompletionOrder(server.completion, |segments|) && server.index.ok
    requires forall k :: 0 <= k < |segments| ==> server.segment(k).ok
    requires ReceivedAsDeclared(segments, server.segment)
    ensures TotalSize(|init|, |server.index.body|, segments) <= |Assemble(segments, init, server).contents|
    ensures |segments| == 0 ==>
      |Assemble(segments, init, server).contents| == TotalSize(|init|, |server.index.body|, segments)
    ensures |segments| > 0 && segments[|segments| - 1].size > 0 ==>
      |Assemble(segments, init, server).contents| == TotalSize(|init|, |server.index.body|, segments) + |segments| - 1
  {
    var index := server.index.body;
    var c := Assemble(segments, init, server).contents;
    var header := HeaderFile(init, index, segments);
    var bodies := Bodies(server.segment, |segments|);
    AssembledDescribed(segments, init, server);
    forall k | 0 <= k < |segments| ensures k in server.completion && |bodies[k]| == segments[k].size { }
    HeaderZeroTail(init, index, segments);
    if |segments| > 0 && segments[|segments| - 1].size > 0 {
      DescribedLength(c, header, |init|, |index|, segments, bodies, server.completion);
    }
    if |segments| == 0 {
      AssembleAllOk(segments, init, server);
    }
  }

  /**
   * Whatever happens later, each segment written before the first failed
   * response keeps its bytes at its offset: a failure leaves the earlier
   * writes in place.
   */
  lemma WrittenSegmentsInPlace(segments: seq<Segment>, init: seq<byte>, server: TrackServer)
    requires IsCompletionOrder(server.completion, |segments|) && server.index.ok
    requires ReceivedWithinDeclared(segments, server.segment)
    ensures forall i :: 0 <= i < FirstFailure(server.segment, server.completion) ==>
      |server.segment(server.completion[i]).body| > 0 ==>
        HoldsAt(Assemble(segments, init, server).contents, server.segment(server.completion[i]).body,
                SegmentOffset(|init|, |server.index.body|, segments, server.completion[i]))
  {
    var order := server.completion;
    var stop := FirstFailure(server.segment, order);
    var offsets := SegmentOffsets(|init|, |server.index.body|, segments);
    var bodies := Bodies(server.segment, |segments|);
    var header := HeaderFile(init, server.index.body, segments);
    var c := Assemble(segments, init, server).contents;
    AssembledPrefixDescribed(segments, init, server);
    forall i | 0 <= i < stop && |server.segment(order[i]).body| > 0
      ensures HoldsAt(c, server.segment(order[i]).body, SegmentOffset(|init|, |server.index.body|, segments, order[i]))
    {
      assert order[..stop][i] == order[i];
      DescribedRegion(c, header, offsets, bodies, order[..stop], order[i]);
    }
  }

  /** Any assembly after a successful index response is described by the writes made before the first failure. */
  lemma AssembledPrefixDescribed(segments: seq<Segment>, init: seq<byte>, server: TrackServer)
    requires IsCompletionOrder(server.completion, |segments|) && server.index.ok
    requires ReceivedWithinDeclared(segments, server.segment)
    ensures WritesInRange(SegmentOffsets(|init|, |server.index.body|, segments), Bodies(server.segment, |segments|),
                          server.completion[..FirstFailure(server.segment, server.completion)])
    ensures Describes(Assemble(segments, init, server).contents, HeaderFile(init, server.index.body, segments),
                      SegmentOffsets(|init|, |server.index.body|, segments), Bodies(server.segment, |segments|),
                      server.completion[..FirstFailure(server.segment, server.completion)])
  {
    var stop := FirstFailure(server.segment, server.completion);
    var bodies := Bodies(server.segment, |segments|);
    AssembleUnfolded(segments, init, server, stop);
    SegmentRegionsDisjoint(|init|, |server.index.body|, segments, bodies);
    ApplyWritesDescribed(HeaderFile(init, server.index.body, segments),
                         SegmentOffsets(|init|, |server.index.body|, segments), bodies, server.completion[..stop]);
  }

  // ---------------------------------------------------------------------
  // The whole download

  /** Each track's completion order covers the segments of the rendition selected for it. */
  predicate SchedulesFit(manifest: Json, audioServer: TrackServer, videoServer: TrackServer) {
    match ParsePlaylist(manifest)
    case None => true
    case Some(p) =>
      match Renditions(p)
      case None => true
      case Some((audio, video)) =>
        && IsCompletionOrder(audioServer.completion, |audio.segments|)
        && IsCompletionOrder(videoServer.completion, |video.segments|)
  }

  /**
   * `download` (lines 14-28) up to the merge: parse the manifest, select
   * the renditions, then assemble the audio track and, only if that
   * succeeds, the video track.  `decodeBase64` stands for `Buffer.from(init,
   * 'base64')`.
   */
  method Download(manifest: Json, decodeBase64: string -> seq<byte>, audioServer: TrackServer, videoServer: TrackServer)
    returns (r: Result<(), DownloadError>, audioFile: OutputFile?, videoFile: OutputFile?)
    requires SchedulesFit(manifest, audioServer, videoServer)
    ensures ParsePlaylist(manifest).None? ==>
      r == Err(ManifestSchemaError) && audioFile == null && videoFile == null
    ensures ParsePlaylist(manifest).Some? && Renditions(ParsePlaylist(manifest).value).None? ==>
      r == Err(RenditionNotFound) && audioFile == null && videoFile == null
    ensures ParsePlaylist(manifest).Some? && Renditions(ParsePlaylist(manifest).value).Some? ==>
      var (audio, video) := Renditions(ParsePlaylist(manifest).value).value;
      var audioResult := Assemble(audio.segments, decodeBase64(audio.initSegment), audioServer);
      && audioFile != null && fresh(audioFile)
      && Assembly(audioFile.contents, audioFile.isOpen, audioResult.outcome) == audioResult
      && (audioResult.outcome.Err? ==> r == audioResult.outcome && videoFile == null)
      && (audioResult.outcome.Ok? ==>
            var videoResult := Assemble(video.segments, decodeBase64(video.initSegment), videoServer);
            && videoFile != null && fresh(videoFile)
            && Assembly(videoFile.contents, videoFile.isOpen, r) == videoResult)
  {
    audioFile, videoFile := null, null;
    var parsed := ParsePlaylist(manifest);
    if parsed.None? {
      r := Err(ManifestSchemaError);
      return;
    }
    var selected := Renditions(parsed.value);
    if selected.None? {
      r := Err(RenditionNotFound);
      return;
    }
    var (audio, video) := selected.value;
    var audioOutcome;
    audioFile, audioOutcome := DownloadSegments(audio.segments, decodeBase64(audio.initSegment), audioServer);
    if audioOutcome.Err? {
      r := audioOutcome;
      return;
    }
    var file;
    file, r := DownloadSegments(video.segments, decodeBase64(video.initSegment), videoServer);
    videoFile := file;
  }
}
