# vimeo-playlist-downloader, modelled in Dafny

`VimeoPlaylistDownloader` fetches a Vimeo playlist manifest (a JSON
document) and validates it against strict zod schemas. It then selects one
audio rendition (the highest bitrate) and one video rendition (the first
at 1080 lines). For each of the two tracks it downloads the index segment
and then every media segment. The bytes go into a temporary file that is
preallocated to the declared total size, each write landing at an offset
computed from the declared segment sizes. The two files are then merged
with ffmpeg.

This project models the core of that program:

- `wrappers.dfy` (`Wrappers`): `Option` and `Result`.
- `playlist_schema.dfy` (`PlaylistSchema`): the manifest as a JSON value.
  It also holds the typed records `Segment`, `Audio`, `Video` and
  `Playlist`, and the strict-object validation of
  `src/Schema/Playlist.schema.ts`. Validation is given twice, as
  declarative `Valid*` predicates and as `Parse*` functions, and the
  contracts tie the two together. Encoders back to JSON give the round
  trips.
- `positional_file.dfy` (`PositionalFile`): the output file as a byte
  sequence with POSIX positional-write semantics. A write past the end
  extends the file and zero-fills the gap, and a zero-length write changes
  nothing. `OutputFile` is the open file handle, a class whose methods
  update `contents` in place. `ApplyWrites` replays writes in a given
  order, and `Describes` characterises its result independently of that
  order.
- `segment_layout.dfy` (`SegmentLayout`): `getTotalSizeOfSegmentsUpToIndex`,
  the `totalSize` of line 71, the segment offsets of line 85, and the
  padding mismatch between the two.
- `rendition_selection.dfy` (`RenditionSelection`): the stable descending
  sort by bitrate, the audio and video choice, and the failure when either
  is missing.
- `downloader.dfy` (`Downloader`): `downloadSegments` as the method
  `DownloadSegments`. It loops over the order in which segment downloads
  complete and is proved against the specification function `Assemble`.
  `Download` is `download` up to the merge. The network becomes
  `TrackServer` values, one per track, each holding the index response,
  each segment's response and the completion order.

Lines 71 and 85 of `src/Downloader.ts` disagree:
- The preallocated size counts only the init bytes, the index bytes and
  the declared segment sizes.
- Each segment's offset adds one more byte per preceding segment.
- The model follows the code. `LastSegmentOvershoot` states that, for
  `N >= 1` segments, the last declared region ends `N - 1` bytes past the
  preallocated size.
- `AssembledLength` states when the file itself ends there: the index and
  every segment response are ok, every body has exactly its declared size,
  and the last declared size is not zero. `ThreeSegmentExample` works this out for sizes 100, 200 and 150.
- The model states this mismatch as lemmas and does not claim it as a
  defect. Whether the consumer of the file expects the extra length, and
  the zero byte between segments, cannot be decided from the code.

## Model

| member | source | states |
|---|---|---|
| PlaylistSchema.ParseArray | src/Schema/Playlist.schema.ts:27 | `z.array`: succeeds exactly when every element parses; the result has one value per element, in the same order |
| PlaylistSchema.ParseSegment | src/Schema/Playlist.schema.ts:3-8 | a Segment parses exactly when the value is an object with keys exactly {start, end, size, url}, three numbers and a string |
| PlaylistSchema.ParseSegments | src/Schema/Playlist.schema.ts:27 | an array of segments parses exactly when it is an array whose every element is a valid Segment |
| PlaylistSchema.ParseAudio | src/Schema/Playlist.schema.ts:10-28 | an Audio track parses exactly when it has its 17 declared keys and no other, each of the declared type, segments included |
| PlaylistSchema.ParseVideo | src/Schema/Playlist.schema.ts:30-48 | a Video track parses exactly when it has its 17 declared keys and no other, each of the declared type, segments included |
| PlaylistSchema.ParsePlaylist | src/Schema/Playlist.schema.ts:50-55 | a Playlist parses exactly when its keys are {audio, base_url, clip_id, video} and every audio and video element is valid |
| PlaylistSchema.ValidSegment | src/Schema/Playlist.schema.ts:3-8 | the Segment schema as a predicate; no contract of its own, `ParseSegment` states that it decides exactly when parsing succeeds |
| PlaylistSchema.ValidSegmentArray | src/Schema/Playlist.schema.ts:27 | `z.array(SegmentSchema)` as a predicate; no contract of its own, `ParseSegments` states that it decides exactly when parsing succeeds |
| PlaylistSchema.ValidAudio | src/Schema/Playlist.schema.ts:10-28 | the Audio schema as a predicate; no contract of its own, `ParseAudio` states that it decides exactly when parsing succeeds |
| PlaylistSchema.ValidVideo | src/Schema/Playlist.schema.ts:30-48 | the Video schema as a predicate; no contract of its own, `ParseVideo` states that it decides exactly when parsing succeeds |
| PlaylistSchema.ValidPlaylist | src/Schema/Playlist.schema.ts:50-55 | the Playlist schema as a predicate; no contract of its own, `ParsePlaylist` states that it decides exactly when parsing succeeds |
| PlaylistSchema.SegmentRoundTrip | src/Schema/Playlist.schema.ts:3-8 | every Segment parses back from its JSON encoding unchanged |
| PlaylistSchema.ParsedSegmentRoundTrip | src/Schema/Playlist.schema.ts:3-8 | a valid Segment object is exactly the encoding of what it parses to: parsing loses nothing |
| PlaylistSchema.SegmentsRoundTrip | src/Schema/Playlist.schema.ts:27 | every segment list parses back from its encoding unchanged, order included |
| PlaylistSchema.ParsedSegmentsRoundTrip | src/Schema/Playlist.schema.ts:27 | a valid segment array is the encoding of its parse, element for element |
| PlaylistSchema.SegmentsToJsonInjective | src/Schema/Playlist.schema.ts:3-8 | different segment lists have different encodings |
| PlaylistSchema.AudioToJsonFields | src/Schema/Playlist.schema.ts:10-28 | proof helper for the Audio round trips: each of the 17 keys of the model's Audio encoding holds the matching field |
| PlaylistSchema.AudioToJsonKeys | src/Schema/Playlist.schema.ts:10-28 | proof helper for the Audio round trips: the model's Audio encoding has exactly the declared keys |
| PlaylistSchema.AudioToJsonInjective | src/Schema/Playlist.schema.ts:10-28 | different Audio tracks have different encodings |
| PlaylistSchema.AudioRoundTrip | src/Schema/Playlist.schema.ts:10-28 | every Audio track parses back from its encoding unchanged |
| PlaylistSchema.ParsedAudioRoundTrip | src/Schema/Playlist.schema.ts:10-28 | a valid Audio object is exactly the encoding of its parse |
| PlaylistSchema.VideoToJsonFields | src/Schema/Playlist.schema.ts:30-48 | proof helper for the Video round trips: each of the 17 keys of the model's Video encoding holds the matching field |
| PlaylistSchema.VideoToJsonKeys | src/Schema/Playlist.schema.ts:30-48 | proof helper for the Video round trips: the model's Video encoding has exactly the declared keys |
| PlaylistSchema.VideoToJsonInjective | src/Schema/Playlist.schema.ts:30-48 | different Video tracks have different encodings |
| PlaylistSchema.VideoRoundTrip | src/Schema/Playlist.schema.ts:30-48 | every Video track parses back from its encoding unchanged |
| PlaylistSchema.ParsedVideoRoundTrip | src/Schema/Playlist.schema.ts:30-48 | a valid Video object is exactly the encoding of its parse |
| PlaylistSchema.ParsedTracksRoundTrip | src/Schema/Playlist.schema.ts:51-54 | the track lists of a parsed manifest re-encode to the manifest's own arrays, element for element |
| PlaylistSchema.AudiosRoundTrip | src/Schema/Playlist.schema.ts:51 | every list of Audio tracks parses back from its encoding unchanged, order included |
| PlaylistSchema.VideosRoundTrip | src/Schema/Playlist.schema.ts:54 | every list of Video tracks parses back from its encoding unchanged, order included |
| PlaylistSchema.ParsedPlaylistRoundTrip | src/Schema/Playlist.schema.ts:50-55 | a valid manifest is exactly the encoding of its parse: all field values and all array orders survive |
| PlaylistSchema.PlaylistRoundTrip | src/Schema/Playlist.schema.ts:50-55 | every Playlist parses back from its encoding unchanged |
| PlaylistSchema.VideoRejectsAudioKeys | src/Schema/Playlist.schema.ts:30-48 | an object carrying `channels`, `sample_rate` or `audio_primary` is never a Video |
| PlaylistSchema.VideoRejectsForeignKey | src/Schema/Playlist.schema.ts:30 | any key outside the declared ones rejects a Video |
| PlaylistSchema.SegmentKeysExact | src/Schema/Playlist.schema.ts:3-8 | any extra or missing key rejects a Segment |
| PlaylistSchema.InvalidAudioSegmentRejectsPlaylist | src/Schema/Playlist.schema.ts:27 | one invalid segment in one audio track rejects the whole manifest |
| PlaylistSchema.InvalidVideoSegmentRejectsPlaylist | src/Schema/Playlist.schema.ts:46 | one invalid segment in one video track rejects the whole manifest |
| PlaylistSchema.ParsePreservesAudioOrder | src/Schema/Playlist.schema.ts:27 | segment k of audio track t of the parse is the parse of the k-th segment of the t-th audio element |
| PlaylistSchema.ParsePreservesVideoOrder | src/Schema/Playlist.schema.ts:46 | segment k of video track t of the parse is the parse of the k-th segment of the t-th video element |
| PlaylistSchema.EmptyTrackListsAccepted | src/Schema/Playlist.schema.ts:50-55 | a manifest with empty audio and video arrays is accepted |
| PositionalFile.Resize | src/Downloader.ts:72 | `ftruncateSync` gives the file exactly the requested length |
| PositionalFile.ResizeBytes | src/Downloader.ts:72 | resizing keeps the bytes below the new length and zero-fills past the old end |
| PositionalFile.WriteAt | src/Downloader.ts:74-75 | a zero-length write changes nothing; otherwise the file grows to the end of the write if shorter |
| PositionalFile.WriteAtBytes | src/Downloader.ts:88 | a write puts data at pos + i and leaves every other byte as it was, or zero in a gap past the old end |
| PositionalFile.OutputFile.Open | src/Downloader.ts:63 | `openSync(filename, 'w')`: an open, empty file |
| PositionalFile.OutputFile.Truncate | src/Downloader.ts:72 | on an open file, the contents become the old contents resized and the file stays open |
| PositionalFile.OutputFile.Write | src/Downloader.ts:88 | on an open file, the contents become the old contents with the data written at pos; the file stays open |
| PositionalFile.OutputFile.Close | src/Downloader.ts:93 | on an open file, the file is closed and its contents are unchanged |
| PositionalFile.ApplyWrites | src/Downloader.ts:87-89 | the file after the segment writes, applied one at a time in completion order; no contract of its own, `ApplyWritesKeepsPrefix`, `ApplyWritesDescribed` and `WriteOrderIrrelevant` state what it produces |
| PositionalFile.ApplyWritesKeepsPrefix | src/Downloader.ts:74-75 | writes that all start at or after h leave the first h bytes unchanged and never shorten the file |
| PositionalFile.ApplyWritesDescribed | src/Downloader.ts:77-91 | replaying disjoint writes in any order yields a file described by them: each region holds its body, every other byte is the header's or zero |
| PositionalFile.DescribedUnique | src/Downloader.ts:77-91 | two files described by the same set of writes over the same start are equal |
| PositionalFile.WriteOrderIrrelevant | src/Downloader.ts:77-91 | disjoint writes give the same file in any two orders that list the same writes |
| SegmentLayout.SumSizes | src/Downloader.ts:105 | the sum of the declared sizes is at least each single declared size |
| SegmentLayout.SizeUpToIndex | src/Downloader.ts:104-106 | `getTotalSizeOfSegmentsUpToIndex` never exceeds the sum of all declared sizes, whatever the index; `SizeUpToIndexIsPrefixSum` states its values |
| SegmentLayout.TotalSize | src/Downloader.ts:71 | `totalSize` is the header length plus `getTotalSizeOfSegmentsUpToIndex` taken at the list's length |
| SegmentLayout.SegmentOffset | src/Downloader.ts:85 | the offset of segment `index` lies at least `index` bytes past the header and at most `index` bytes past `totalSize` |
| SegmentLayout.SegmentOffsets | src/Downloader.ts:77-85 | one offset per segment, each the line-85 offset of its index; `FirstOffset`, `OffsetStep` and `OffsetsSpaced` state their spacing |
| SegmentLayout.SizeUpToIndexIsPrefixSum | src/Downloader.ts:104-106 | `getTotalSizeOfSegmentsUpToIndex(s, 0) == 0`; index i + 1 adds `s[i].size`; from the list's length on it is the sum of all sizes used for `totalSize` (line 71) |
| SegmentLayout.FirstOffset | src/Downloader.ts:85 | offset 0 is right after the header |
| SegmentLayout.OffsetStep | src/Downloader.ts:85 | offset k + 1 is offset k + size k + 1 |
| SegmentLayout.OffsetsSpaced | src/Downloader.ts:85 | for j < k, offset k is at least offset j + size j + (k - j): offsets strictly increase, with a gap byte after every segment |
| SegmentLayout.LastSegmentOvershoot | src/Downloader.ts:71 | with N ≥ 1 segments the last one ends at `totalSize + N - 1`, past the preallocated size of line 71 |
| SegmentLayout.SegmentRegionsDisjoint | src/Downloader.ts:85 | with each body no longer than its declared size, segment regions are pairwise disjoint and all start at or after the header |
| SegmentLayout.PaddingUntouched | src/Downloader.ts:85 | when no body is longer than its declared size, the byte after each segment lies past the header and in no segment's region |
| SegmentLayout.ThreeSegmentExample | src/Downloader.ts:71 | sizes 100, 200, 150: `totalSize` is h + 450, offsets h, h + 101, h + 302, and the last segment ends at `totalSize + 2` |
| RenditionSelection.InsertByBitrate | src/Downloader.ts:20 | one step of the stable descending sort: the list grows by exactly the inserted track; `InsertIsPermutation`, `InsertKeepsSorted` and `InsertIsStable` state its meaning |
| RenditionSelection.SortByBitrateDesc | src/Downloader.ts:20 | `sort((a, b) => b.bitrate - a.bitrate)` keeps the number of tracks; `SortIsPermutation`, `SortIsSorted` and `SortIsStable` state its meaning |
| RenditionSelection.InsertIsPermutation | src/Downloader.ts:20 | one insertion step only adds the inserted track |
| RenditionSelection.SortIsPermutation | src/Downloader.ts:20 | the sort only reorders the audio tracks |
| RenditionSelection.InsertKeepsSorted | src/Downloader.ts:20 | inserting into a list sorted by descending bitrate keeps it sorted |
| RenditionSelection.SortIsSorted | src/Downloader.ts:20 | the sorted tracks are in descending bitrate order |
| RenditionSelection.InsertIsStable | src/Downloader.ts:20 | inserting a track keeps the order of the tracks sharing its bitrate, the inserted one first |
| RenditionSelection.SortIsStable | src/Downloader.ts:20 | tracks of equal bitrate keep their manifest order (the sort is stable) |
| RenditionSelection.SelectAudio | src/Downloader.ts:20 | `sort(...).at(0)` is undefined exactly when there are no audio tracks |
| RenditionSelection.SortHeadIsFirstMax | src/Downloader.ts:20 | the head of the sorted list is a track of maximal bitrate, and no earlier track has that bitrate |
| RenditionSelection.SelectAudioIsFirstMax | src/Downloader.ts:20 | the chosen audio track has the highest bitrate and is the earliest among those tied at the highest |
| RenditionSelection.TiedBitratesPickEarliest | src/Downloader.ts:20 | bitrates [5, 9, 9, 3] choose the first 9 |
| RenditionSelection.SelectVideo | src/Downloader.ts:21 | `find` fails exactly when no track has height 1080, and a found track has height 1080 |
| RenditionSelection.SelectVideoIsFirst | src/Downloader.ts:21 | the found video track is the first with height 1080: every earlier one has another height |
| RenditionSelection.Renditions | src/Downloader.ts:22-24 | selection fails exactly when there is no audio track or no 1080 video track; on success the pair is the selected audio and the selected video |
| Downloader.FirstFailure | src/Downloader.ts:77-91 | every completion step before it has an ok response, and the step at it (if any) does not |
| Downloader.HeaderFile | src/Downloader.ts:71-75 | the file after `ftruncateSync` and the two header writes has exactly `totalSize` bytes; `HeaderFileLayout` states its contents |
| Downloader.Assemble | src/Downloader.ts:57-94 | the specification of `downloadSegments`; no contract of its own, `AssembleOutcome`, `AssembleAllOk`, `AssembledRegions`, `AssembledPadding`, `AssembledLength` and `CompletionOrderIrrelevant` state what it produces |
| Downloader.HeaderFileLayout | src/Downloader.ts:71-75 | after sizing and the header writes the file is init, then index, then zeros up to `totalSize` |
| Downloader.AssembleOutcome | src/Downloader.ts:63-94 | for a completion order that names each segment once, the assembly succeeds exactly when the index and every segment response are ok, and only then is the file closed; an index failure leaves the file empty; a failure names a segment whose response was not ok |
| Downloader.DownloadSegments | src/Downloader.ts:57-94 | for a completion order that names each segment once, the file and outcome the method produces are those of `Assemble`: header written, segment bodies written in completion order until the first failure |
| Downloader.AssembledHeaderIntact | src/Downloader.ts:74-75 | after a successful index response the file starts with init and then the index body, whatever the segment responses were |
| Downloader.AssembleAllOk | src/Downloader.ts:77-93 | with every response ok, every segment is written in completion order and the file is closed with success |
| Downloader.CompletionOrderIrrelevant | src/Downloader.ts:77-91 | with every response ok and no body longer than declared, the file is the same for any two completion orders |
| Downloader.AssembledRegions | src/Downloader.ts:85-88 | when the index and every segment response are ok and every body has exactly its declared size, each non-empty segment's bytes sit at its offset |
| Downloader.AssembledPadding | src/Downloader.ts:85 | when the index and every segment response are ok and every body has exactly its declared size, the byte after each segment but the last is zero wherever the file reaches it |
| Downloader.AssembledLength | src/Downloader.ts:71-72 | when the index and every segment response are ok and every body has exactly its declared size, the file is never shorter than `totalSize`; with no segments it is exactly that; with a non-empty last segment it is `totalSize + N - 1` |
| Downloader.WrittenSegmentsInPlace | src/Downloader.ts:81-83 | when the index response is ok and no body is longer than its declared size, then on any segment outcome each segment written before the first failed response keeps its bytes at its offset |
| Downloader.Download | src/Downloader.ts:14-28 | when each track's completion order names each segment of the selected rendition once: a schema failure and a missing rendition create no file; otherwise the audio file is assembled, and the video file only if the audio succeeded, with the overall outcome the first failure |

## Left out

- PositionalFile.OutputFile: every file-system call is taken to succeed. `openSync` and `ftruncateSync` never throw, `writeSync` always writes every byte, and there is no ENOSPC, EBADF or other I/O error path.
- Fetching the manifest, index and segments (`fetch`) is not modelled. Each response is given as an `ok` flag and a body.
- The manifest response's `ok` flag is never checked in the source. JSON syntax errors in it are not modelled either: the model starts from a JSON value.
- The download queue (two at a time) and the write queue (one at a time) are not modelled. Their only effect on the file is the order in which segment writes happen, which is a parameter: the completion order.
- URL and path resolution (`path.resolve`, `new URL`) is left out. So are the `audio.tmp`/`video.tmp` file names: each track gets a fresh `OutputFile`.
- Base64 decoding of `init_segment` (`Buffer.from(init, 'base64')`) is a parameter of `Download`, not a definition.
- `mergeAudioAndVideo` is not modelled. It runs ffmpeg and deletes the temporary files, so `Download` ends after the second track.
- `console.log` (line 86) is left out.
- `index.ts` is not part of this model. It only parses command-line flags.
- JavaScript numbers are modelled as natural numbers. Negative and fractional sizes, bitrates and heights, which `z.number()` accepts, are not modelled, and neither is floating-point rounding of large sums.
- RenditionSelection.SortByBitrateDesc: `playlist.audio` is sorted in place, but the model sorts a copy. Nothing reads `playlist.audio` afterwards.
- Downloader.DownloadSegments, Downloader.Assemble and Downloader.AssembledPrefixDescribed: on a failed segment response the model stops writing at that completion step. In the source, `segments.map` queues every segment's download at once (lines 77-79), and a rejected task does not cancel the others. So every later queued download still runs, and its write still lands at its offset whenever its response is ok (lines 80-89). The descriptor also stays open, because line 93 is skipped. A caller that catches the error is left with every ok segment in the file, whatever the completion order. The model captures only the writes that complete before the first failure.

