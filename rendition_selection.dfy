/**
 * Rendition selection of `download` in src/Downloader.ts (lines 20-24):
 * the audio track is the head of the tracks sorted by descending bitrate
 * with JavaScript's stable `Array.prototype.sort`, the video track is the
 * first with height 1080; the download fails when either is missing.
 */
module RenditionSelection {
  import opened Wrappers
  import opened PlaylistSchema

  /** The only video height accepted; there is no nearest-height fallback. */
  const PreferredHeight: nat := 1080

  // ---------------------------------------------------------------------
  // The stable sort by descending bitrate

  /**
   * Inserts x, which comes before every track of ys in the manifest, in
   * front of the first track whose bitrate is not higher than its own.
   */
  function InsertByBitrate(x: Audio, ys: seq<Audio>): (r: seq<Audio>)
    ensures |r| == |ys| + 1
  {
    if |ys| == 0 || ys[0].bitrate <= x.bitrate then [x] + ys
    else
      assert ys == [ys[0]] + ys[1..];
      [ys[0]] + InsertByBitrate(x, ys[1..])
  }

  /** `tracks.sort((a, b) => b.bitrate - a.bitrate)` */
  function SortByBitrateDesc(tracks: seq<Audio>): (r: seq<Audio>)
    ensures |r| == |tracks|
  {
    if |tracks| == 0 then []
    else
      assert tracks == [tracks[0]] + tracks[1..];
      InsertByBitrate(tracks[0], SortByBitrateDesc(tracks[1..]))
  }

  lemma {:induction false} InsertIsPermutation(x: Audio, ys: seq<Audio>)
    ensures multiset(InsertByBitrate(x, ys)) == multiset(ys) + multiset{x}
  {
    if |ys| > 0 && ys[0].bitrate > x.bitrate {
      InsertIsPermutation(x, ys[1..]);
      assert ys == [ys[0]] + ys[1..];
    }
  }

  /** The sort only reorders the tracks. */
  lemma {:induction false} SortIsPermutation(tracks: seq<Audio>)
    ensures multiset(SortByBitrateDesc(tracks)) == multiset(tracks)
  {
    if |tracks| > 0 {
      SortIsPermutation(tracks[1..]);
      InsertIsPermutation(tracks[0], SortByBitrateDesc(tracks[1..]));
      assert tracks == [tracks[0]] + tracks[1..];
    }
  }

  predicate SortedByBitrateDesc(s: seq<Audio>) {
    forall i, j :: 0 <= i < j < |s| ==> s[i].bitrate >= s[j].bitrate
  }

  lemma {:induction false} InsertKeepsSorted(x: Audio, ys: seq<Audio>)
    requires SortedByBitrateDesc(ys)
    ensures SortedByBitrateDesc(InsertByBitrate(x, ys))
  {
    if |ys| > 0 && ys[0].bitrate > x.bitrate {
      var rest := InsertByBitrate(x, ys[1..]);
      InsertKeepsSorted(x, ys[1..]);
      assert rest[0] == x || rest[0] == ys[1];
      forall j | 0 <= j < |rest| ensures rest[j].bitrate <= ys[0].bitrate {
        assert rest[j].bitrate <= rest[0].bitrate;
      }
      assert InsertByBitrate(x, ys) == [ys[0]] + rest;
    }
  }

  lemma {:induction false} SortIsSorted(tracks: seq<Audio>)
    ensures SortedByBitrateDesc(SortByBitrateDesc(tracks))
  {
    if |tracks| > 0 {
      SortIsSorted(tracks[1..]);
      InsertKeepsSorted(tracks[0], SortByBitrateDesc(tracks[1..]));
    }
  }

  /** The tracks of bitrate b, in their order. */
  function WithBitrate(s: seq<Audio>, b: nat): seq<Audio> {
    if |s| == 0 then []
    else (if s[0].bitrate == b then [s[0]] else []) + WithBitrate(s[1..], b)
  }

  lemma {:induction false} InsertIsStable(x: Audio, ys: seq<Audio>, b: nat)
    ensures WithBitrate(InsertByBitrate(x, ys), b)
            == (if x.bitrate == b then [x] else []) + WithBitrate(ys, b)
  {
    if |ys| == 0 || ys[0].bitrate <= x.bitrate {
      assert ([x] + ys)[1..] == ys;
    } else {
      InsertIsStable(x, ys[1..], b);
      assert ([ys[0]] + InsertByBitrate(x, ys[1..]))[1..] == InsertByBitrate(x, ys[1..]);
    }
  }

  /** Stability: the tracks of any one bitrate keep their manifest order. */
  lemma {:induction false} SortIsStable(tracks: seq<Audio>, b: nat)
    ensures WithBitrate(SortByBitrateDesc(tracks), b) == WithBitrate(tracks, b)
  {
    if |tracks| > 0 {
      SortIsStable(tracks[1..], b);
      InsertIsStable(tracks[0], SortByBitrateDesc(tracks[1..]), b);
    }
  }

  // ---------------------------------------------------------------------
  // Selection

  /** Track i has the highest bitrate, and every earlier track a strictly lower one. */
  predicate IsFirstMax(tracks: seq<Audio>, i: nat) {
    && i < |tracks|
    && (forall j :: 0 <= j < |tracks| ==> tracks[j].bitrate <= tracks[i].bitrate)
    && (forall j :: 0 <= j < i ==> tracks[j].bitrate < tracks[i].bitrate)
  }

  /** `playlist.audio.sort(...).at(0)` */
  function SelectAudio(tracks: seq<Audio>): (r: Option<Audio>)
    ensures r.None? <==> |tracks| == 0
  {
    var sorted := SortByBitrateDesc(tracks);
    if |sorted| == 0 then None else Some(sorted[0])
  }

  /** The inserted track goes first exactly when the first track of ys does not beat it. */
  lemma InsertHead(x: Audio, ys: seq<Audio>)
    ensures |InsertByBitrate(x, ys)| > 0
    ensures InsertByBitrate(x, ys)[0] == if |ys| == 0 || ys[0].bitrate <= x.bitrate then x else ys[0]
  {
  }

  lemma {:induction false} SortHeadIsFirstMax(tracks: seq<Audio>) returns (i: nat)
    requires |tracks| > 0
    ensures IsFirstMax(tracks, i) && |SortByBitrateDesc(tracks)| > 0 && SortByBitrateDesc(tracks)[0] == tracks[i]
  {
    var rest := tracks[1..];
    var sortedRest := SortByBitrateDesc(rest);
    assert SortByBitrateDesc(tracks) == InsertByBitrate(tracks[0], sortedRest);
    InsertHead(tracks[0], sortedRest);
    if |rest| == 0 {
      i := 0;
    } else {
      var i' := SortHeadIsFirstMax(rest);
      assert forall j :: 1 <= j < |tracks| ==> tracks[j] == rest[j - 1];
      if sortedRest[0].bitrate <= tracks[0].bitrate {
        i := 0;
        forall j | 0 <= j < |tracks| ensures tracks[j].bitrate <= tracks[0].bitrate {
          if j > 0 { assert rest[j - 1].bitrate <= rest[i'].bitrate; }
        }
      } else {
        i := i' + 1;
        forall j | 0 <= j < |tracks| ensures tracks[j].bitrate <= tracks[i].bitrate {
          if j > 0 { assert rest[j - 1].bitrate <= rest[i'].bitrate; }
        }
        forall j | 0 <= j < i ensures tracks[j].bitrate < tracks[i].bitrate {
          if j > 0 { assert rest[j - 1].bitrate < rest[i'].bitrate; }
        }
      }
    }
  }

  /**
   * The selected audio track has the highest bitrate; among tracks tied at
   * the highest, it is the earliest in the manifest.
   */
  lemma SelectAudioIsFirstMax(tracks: seq<Audio>) returns (i: nat)
    requires |tracks| > 0
    ensures IsFirstMax(tracks, i) && SelectAudio(tracks) == Some(tracks[i])
  {
    i := SortHeadIsFirstMax(tracks);
  }

  /** Bitrates [5, 9, 9, 3] select the first 9. */
  lemma TiedBitratesPickEarliest(a0: Audio, a1: Audio, a2: Audio, a3: Audio)
    requires a0.bitrate == 5 && a1.bitrate == 9 && a2.bitrate == 9 && a3.bitrate == 3
    ensures SelectAudio([a0, a1, a2, a3]) == Some(a1)
  {
    var tracks := [a0, a1, a2, a3];
    var i := SelectAudioIsFirstMax(tracks);
    assert tracks[1].bitrate <= tracks[i].bitrate;
    assert i != 0 && i != 3;
    assert i != 2;
    assert tracks[i] == a1;
  }

  /** `playlist.video.find((video) => video.height === 1080)` */
  function SelectVideo(tracks: seq<Video>): (r: Option<Video>)
    ensures r.None? <==> forall i :: 0 <= i < |tracks| ==> tracks[i].height != PreferredHeight
    ensures r.Some? ==> r.value.height == PreferredHeight
  {
    if |tracks| == 0 then None
    else if tracks[0].height == PreferredHeight then Some(tracks[0])
    else SelectVideo(tracks[1..])
  }

  /** The selected video track is the first of height 1080 in the manifest. */
  lemma {:induction false} SelectVideoIsFirst(tracks: seq<Video>) returns (i: nat)
    requires SelectVideo(tracks).Some?
    ensures i < |tracks| && SelectVideo(tracks) == Some(tracks[i])
    ensures forall j :: 0 <= j < i ==> tracks[j].height != PreferredHeight
  {
    if tracks[0].height == PreferredHeight {
      i := 0;
    } else {
      var i' := SelectVideoIsFirst(tracks[1..]);
      i := i' + 1;
      forall j | 0 <= j < i ensures tracks[j].height != PreferredHeight {
        if j > 0 { assert tracks[j] == tracks[1..][j - 1]; }
      }
    }
  }

  /** Lines 20-24: both renditions, or none when either is missing. */
  function Renditions(p: Playlist): (r: Option<(Audio, Video)>)
    ensures r.None? <==> |p.audio| == 0 || forall i :: 0 <= i < |p.video| ==> p.video[i].height != PreferredHeight
    ensures r.Some? ==> r.value == (SelectAudio(p.audio).value, SelectVideo(p.video).value)
  {
    match (SelectAudio(p.audio), SelectVideo(p.video))
    case (Some(audio), Some(video)) => Some((audio, video))
    case _ => None
  }
}
