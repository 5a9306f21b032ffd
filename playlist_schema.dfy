/**
 * The manifest shapes of src/Schema/Playlist.schema.ts and the strict
 * validation that `z.strictObject` performs on a decoded JSON value.
 *
 * A strict object is accepted only if it is an object whose key set is
 * exactly the declared one and each value has the declared primitive type;
 * `z.array(S)` accepts an array whose every element S accepts.  Each schema
 * is given twice: as a declarative predicate (`ValidSegment`, ...) and as a
 * parser that builds the typed record (`ParseSegment`, ...); the parsers'
 * contracts and the lemmas below tie the two together.
 */
module PlaylistSchema {
  import opened Wrappers

  /** A decoded JSON value.  Numbers are naturals in this model. */
  datatype Json =
    | JNull
    | JBool(b: bool)
    | JNumber(n: nat)
    | JString(s: string)
    | JArray(elems: seq<Json>)
    | JObject(fields: map<string, Json>)

  datatype Segment = Segment(start: nat, end: nat, size: nat, url: string)

  datatype Audio = Audio(
    audioPrimary: bool,
    avgBitrate: nat,
    avgId: string,
    baseUrl: string,
    bitrate: nat,
    channels: nat,
    codecs: string,
    duration: nat,
    format: string,
    id: string,
    indexSegment: string,
    initSegment: string,
    initSegmentUrl: string,
    maxSegmentDuration: nat,
    mimeType: string,
    sampleRate: nat,
    segments: seq<Segment>)

  datatype Video = Video(
    avgBitrate: nat,
    avgId: string,
    baseUrl: string,
    bitrate: nat,
    codecs: string,
    duration: nat,
    format: string,
    framerate: nat,
    height: nat,
    id: string,
    indexSegment: string,
    initSegment: string,
    initSegmentUrl: string,
    maxSegmentDuration: nat,
    mimeType: string,
    segments: seq<Segment>,
    width: nat)

  datatype Playlist = Playlist(audio: seq<Audio>, baseUrl: string, clipId: string, video: seq<Video>)

  const SegmentKeys: set<string> := {"start", "end", "size", "url"}

  const AudioKeys: set<string> := {
    "audio_primary", "avg_bitrate", "avg_id", "base_url", "bitrate", "channels",
    "codecs", "duration", "format", "id", "index_segment", "init_segment",
    "init_segment_url", "max_segment_duration", "mime_type", "sample_rate", "segments"}

  const VideoKeys: set<string> := {
    "avg_bitrate", "avg_id", "base_url", "bitrate", "codecs", "duration", "format",
    "framerate", "height", "id", "index_segment", "init_segment", "init_segment_url",
    "max_segment_duration", "mime_type", "segments", "width"}

  const PlaylistKeys: set<string> := {"audio", "base_url", "clip_id", "video"}

  // ---------------------------------------------------------------------
  // Declarative validity

  /** The strict-object check: an object with exactly the given keys. */
  predicate HasExactly(j: Json, keys: set<string>) {
    j.JObject? && j.fields.Keys == keys
  }

  predicate ValidSegment(j: Json) {
    && HasExactly(j, SegmentKeys)
    && j.fields["start"].JNumber?
    && j.fields["end"].JNumber?
    && j.fields["size"].JNumber?
    && j.fields["url"].JString?
  }

  /** `z.array(SegmentSchema)` */
  predicate ValidSegmentArray(j: Json) {
    j.JArray? && forall i :: 0 <= i < |j.elems| ==> ValidSegment(j.elems[i])
  }

  predicate ValidAudio(j: Json) {
    && HasExactly(j, AudioKeys)
    && j.fields["audio_primary"].JBool?
    && j.fields["avg_bitrate"].JNumber?
    && j.fields["avg_id"].JString?
    && j.fields["base_url"].JString?
    && j.fields["bitrate"].JNumber?
    && j.fields["channels"].JNumber?
    && j.fields["codecs"].JString?
    && j.fields["duration"].JNumber?
    && j.fields["format"].JString?
    && j.fields["id"].JString?
    && j.fields["index_segment"].JString?
    && j.fields["init_segment"].JString?
    && j.fields["init_segment_url"].JString?
    && j.fields["max_segment_duration"].JNumber?
    && j.fields["mime_type"].JString?
    && j.fields["sample_rate"].JNumber?
    && ValidSegmentArray(j.fields["segments"])
  }

  predicate ValidVideo(j: Json) {
    && HasExactly(j, VideoKeys)
    && j.fields["avg_bitrate"].JNumber?
    && j.fields["avg_id"].JString?
    && j.fields["base_url"].JString?
    && j.fields["bitrate"].JNumber?
    && j.fields["codecs"].JString?
    && j.fields["duration"].JNumber?
    && j.fields["format"].JString?
    && j.fields["framerate"].JNumber?
    && j.fields["height"].JNumber?
    && j.fields["id"].JString?
    && j.fields["index_segment"].JString?
    && j.fields["init_segment"].JString?
    && j.fields["init_segment_url"].JString?
    && j.fields["max_segment_duration"].JNumber?
    && j.fields["mime_type"].JString?
    && ValidSegmentArray(j.fields["segments"])
    && j.fields["width"].JNumber?
  }

  predicate ValidPlaylist(j: Json) {
    && HasExactly(j, PlaylistKeys)
    && j.fields["audio"].JArray?
    && (forall i :: 0 <= i < |j.fields["audio"].elems| ==> ValidAudio(j.fields["audio"].elems[i]))
    && j.fields["base_url"].JString?
    && j.fields["clip_id"].JString?
    && j.fields["video"].JArray?
    && (forall i :: 0 <= i < |j.fields["video"].elems| ==> ValidVideo(j.fields["video"].elems[i]))
  }

  // ---------------------------------------------------------------------
  // Parsers

  function NumberField(fields: map<string, Json>, key: string): Option<nat> {
    if key in fields && fields[key].JNumber? then Some(fields[key].n) else None
  }

  function StringField(fields: map<string, Json>, key: string): Option<string> {
    if key in fields && fields[key].JString? then Some(fields[key].s) else None
  }

  function BoolField(fields: map<string, Json>, key: string): Option<bool> {
    if key in fields && fields[key].JBool? then Some(fields[key].b) else None
  }

  function ArrayField(fields: map<string, Json>, key: string): Option<seq<Json>> {
    if key in fields && fields[key].JArray? then Some(fields[key].elems) else None
  }

  /**
   * `z.array(schema)`: every element is parsed, in order; one failure fails
   * the whole array.
   */
  function ParseArray<T>(elems: seq<Json>, parse: Json -> Option<T>): (r: Option<seq<T>>)
    ensures r.Some? <==> forall i :: 0 <= i < |elems| ==> parse(elems[i]).Some?
    ensures r.Some? ==> |r.value| == |elems| && forall i :: 0 <= i < |elems| ==> Some(r.value[i]) == parse(elems[i])
  {
    if |elems| == 0 then Some([])
    else
      var head :- parse(elems[0]);
      var tail :- ParseArray(elems[1..], parse);
      Some([head] + tail)
  }

  function ParseSegment(j: Json): (r: Option<Segment>)
    ensures r.Some? <==> ValidSegment(j)
  {
    if !HasExactly(j, SegmentKeys) then None
    else
      var start :- NumberField(j.fields, "start");
      var end :- NumberField(j.fields, "end");
      var size :- NumberField(j.fields, "size");
      var url :- StringField(j.fields, "url");
      Some(Segment(start, end, size, url))
  }

  function ParseSegments(j: Json): (r: Option<seq<Segment>>)
    ensures r.Some? <==> ValidSegmentArray(j)
  {
    if !j.JArray? then None else ParseArray(j.elems, ParseSegment)
  }

  function ParseAudio(j: Json): (r: Option<Audio>)
    ensures r.Some? <==> ValidAudio(j)
  {
    if !HasExactly(j, AudioKeys) then None
    else
      var f := j.fields;
      var audioPrimary :- BoolField(f, "audio_primary");
      var avgBitrate :- NumberField(f, "avg_bitrate");
      var avgId :- StringField(f, "avg_id");
      var baseUrl :- StringField(f, "base_url");
      var bitrate :- NumberField(f, "bitrate");
      var channels :- NumberField(f, "channels");
      var codecs :- StringField(f, "codecs");
      var duration :- NumberField(f, "duration");
      var format :- StringField(f, "format");
      var id :- StringField(f, "id");
      var indexSegment :- StringField(f, "index_segment");
      var initSegment :- StringField(f, "init_segment");
      var initSegmentUrl :- StringField(f, "init_segment_url");
      var maxSegmentDuration :- NumberField(f, "max_segment_duration");
      var mimeType :- StringField(f, "mime_type");
      var sampleRate :- NumberField(f, "sample_rate");
      var segments :- ParseSegments(f["segments"]);
      Some(Audio(audioPrimary, avgBitrate, avgId, baseUrl, bitrate, channels, codecs,
                 duration, format, id, indexSegment, initSegment, initSegmentUrl,
                 maxSegmentDuration, mimeType, sampleRate, segments))
  }

  function ParseVideo(j: Json): (r: Option<Video>)
    ensures r.Some? <==> ValidVideo(j)
  {
    if !HasExactly(j, VideoKeys) then None
    else
      var f := j.fields;
      var avgBitrate :- NumberField(f, "avg_bitrate");
      var avgId :- StringField(f, "avg_id");
      var baseUrl :- StringField(f, "base_url");
      var bitrate :- NumberField(f, "bitrate");
      var codecs :- StringField(f, "codecs");
      var duration :- NumberField(f, "duration");
      var format :- StringField(f, "format");
      var framerate :- NumberField(f, "framerate");
      var height :- NumberField(f, "height");
      var id :- StringField(f, "id");
      var indexSegment :- StringField(f, "index_segment");
      var initSegment :- StringField(f, "init_segment");
      var initSegmentUrl :- StringField(f, "init_segment_url");
      var maxSegmentDuration :- NumberField(f, "max_segment_duration");
      var mimeType :- StringField(f, "mime_type");
      var segments :- ParseSegments(f["segments"]);
      var width :- NumberField(f, "width");
      Some(Video(avgBitrate, avgId, baseUrl, bitrate, codecs, duration, format, framerate,
                 height, id, indexSegment, initSegment, initSegmentUrl, maxSegmentDuration,
                 mimeType, segments, width))
  }

  /** `PlaylistSchema.parse`, with a thrown ZodError as `None`. */
  function ParsePlaylist(j: Json): (r: Option<Playlist>)
    ensures r.Some? <==> ValidPlaylist(j)
  {
    if !HasExactly(j, PlaylistKeys) then None
    else
      var f := j.fields;
      var audioElems :- ArrayField(f, "audio");
      var audio :- ParseArray(audioElems, ParseAudio);
      var baseUrl :- StringField(f, "base_url");
      var clipId :- StringField(f, "clip_id");
      var videoElems :- ArrayField(f, "video");
      var video :- ParseArray(videoElems, ParseVideo);
      Some(Playlist(audio, baseUrl, clipId, video))
  }

  // ---------------------------------------------------------------------
  // Encoders: the JSON value a typed record was parsed from

  function SegmentToJson(s: Segment): Json {
    JObject(map["start" := JNumber(s.start), "end" := JNumber(s.end),
                "size" := JNumber(s.size), "url" := JString(s.url)])
  }

  function SegmentsToJson(ss: seq<Segment>): (r: seq<Json>)
    ensures |r| == |ss|
    ensures forall i :: 0 <= i < |ss| ==> r[i] == SegmentToJson(ss[i])
  {
    seq(|ss|, i requires 0 <= i < |ss| => SegmentToJson(ss[i]))
  }

  function AudioToJson(a: Audio): Json {
    JObject(map[
      "audio_primary" := JBool(a.audioPrimary),
      "avg_bitrate" := JNumber(a.avgBitrate),
      "avg_id" := JString(a.avgId),
      "base_url" := JString(a.baseUrl),
      "bitrate" := JNumber(a.bitrate),
      "channels" := JNumber(a.channels),
      "codecs" := JString(a.codecs),
      "duration" := JNumber(a.duration),
      "format" := JString(a.format),
      "id" := JString(a.id),
      "index_segment" := JString(a.indexSegment),
      "init_segment" := JString(a.initSegment),
      "init_segment_url" := JString(a.initSegmentUrl),
      "max_segment_duration" := JNumber(a.maxSegmentDuration),
      "mime_type" := JString(a.mimeType),
      "sample_rate" := JNumber(a.sampleRate),
      "segments" := JArray(SegmentsToJson(a.segments))])
  }

  function VideoToJson(v: Video): Json {
    JObject(map[
      "avg_bitrate" := JNumber(v.avgBitrate),
      "avg_id" := JString(v.avgId),
      "base_url" := JString(v.baseUrl),
      "bitrate" := JNumber(v.bitrate),
      "codecs" := JString(v.codecs),
      "duration" := JNumber(v.duration),
      "format" := JString(v.format),
      "framerate" := JNumber(v.framerate),
      "height" := JNumber(v.height),
      "id" := JString(v.id),
      "index_segment" := JString(v.indexSegment),
      "init_segment" := JString(v.initSegment),
      "init_segment_url" := JString(v.initSegmentUrl),
      "max_segment_duration" := JNumber(v.maxSegmentDuration),
      "mime_type" := JString(v.mimeType),
      "segments" := JArray(SegmentsToJson(v.segments)),
      "width" := JNumber(v.width)])
  }

  function AudiosToJson(tracks: seq<Audio>): (r: seq<Json>)
    ensures |r| == |tracks|
    ensures forall i :: 0 <= i < |tracks| ==> r[i] == AudioToJson(tracks[i])
  {
    seq(|tracks|, i requires 0 <= i < |tracks| => AudioToJson(tracks[i]))
  }

  function VideosToJson(tracks: seq<Video>): (r: seq<Json>)
    ensures |r| == |tracks|
    ensures forall i :: 0 <= i < |tracks| ==> r[i] == VideoToJson(tracks[i])
  {
    seq(|tracks|, i requires 0 <= i < |tracks| => VideoToJson(tracks[i]))
  }

  function PlaylistToJson(p: Playlist): Json {
    JObject(map[
      "audio" := JArray(AudiosToJson(p.audio)),
      "base_url" := JString(p.baseUrl),
      "clip_id" := JString(p.clipId),
      "video" := JArray(VideosToJson(p.video))])
  }

  // ---------------------------------------------------------------------
  // Round trips: parsing loses nothing and keeps array order

  lemma SegmentRoundTrip(s: Segment)
    ensures ParseSegment(SegmentToJson(s)) == Some(s)
  {
    assert SegmentToJson(s).fields.Keys == SegmentKeys;
  }

  lemma ParsedSegmentRoundTrip(j: Json)
    requires ValidSegment(j)
    ensures SegmentToJson(ParseSegment(j).value) == j
  {
    assert SegmentToJson(ParseSegment(j).value).fields == j.fields;
  }

  lemma {:induction false} SegmentsRoundTrip(ss: seq<Segment>)
    ensures ParseArray(SegmentsToJson(ss), ParseSegment) == Some(ss)
  {
    var r := ParseArray(SegmentsToJson(ss), ParseSegment);
    forall i | 0 <= i < |ss| ensures ParseSegment(SegmentsToJson(ss)[i]) == Some(ss[i]) {
      SegmentRoundTrip(ss[i]);
    }
    assert r.value == ss;
  }

  lemma {:induction false} ParsedSegmentsRoundTrip(j: Json)
    requires ValidSegmentArray(j)
    ensures JArray(SegmentsToJson(ParseSegments(j).value)) == j
  {
    var ss := ParseSegments(j).value;
    forall i | 0 <= i < |j.elems| ensures SegmentsToJson(ss)[i] == j.elems[i] {
      ParsedSegmentRoundTrip(j.elems[i]);
    }
  }

  lemma SegmentsToJsonInjective(xs: seq<Segment>, ys: seq<Segment>)
    requires SegmentsToJson(xs) == SegmentsToJson(ys)
    ensures xs == ys
  {
    forall i | 0 <= i < |xs| ensures xs[i] == ys[i] {
      var fx, fy := SegmentToJson(xs[i]).fields, SegmentToJson(ys[i]).fields;
      assert fx["start"] == fy["start"] && fx["end"] == fy["end"];
      assert fx["size"] == fy["size"] && fx["url"] == fy["url"];
    }
  }

  /** The numeric fields of the encoding. */
  lemma AudioToJsonFieldsNumbers(a: Audio)
    ensures var f := AudioToJson(a).fields;
      && f["avg_bitrate"] == JNumber(a.avgBitrate)
      && f["bitrate"] == JNumber(a.bitrate)
      && f["channels"] == JNumber(a.channels)
      && f["duration"] == JNumber(a.duration)
      && f["max_segment_duration"] == JNumber(a.maxSegmentDuration)
      && f["sample_rate"] == JNumber(a.sampleRate)
  {
  }

  /** The descriptive string fields of the encoding. */
  lemma AudioToJsonFieldsStrings(a: Audio)
    ensures var f := AudioToJson(a).fields;
      && f["avg_id"] == JString(a.avgId)
      && f["codecs"] == JString(a.codecs)
      && f["format"] == JString(a.format)
      && f["id"] == JString(a.id)
      && f["mime_type"] == JString(a.mimeType)
  {
  }

  /** The location fields of the encoding. */
  lemma AudioToJsonFieldsLocations(a: Audio)
    ensures var f := AudioToJson(a).fields;
      && f["base_url"] == JString(a.baseUrl)
      && f["index_segment"] == JString(a.indexSegment)
      && f["init_segment"] == JString(a.initSegment)
      && f["init_segment_url"] == JString(a.initSegmentUrl)
  {
  }

  /** The remaining fields of the encoding. */
  lemma AudioToJsonFieldsOthers(a: Audio)
    ensures var f := AudioToJson(a).fields;
      && f["audio_primary"] == JBool(a.audioPrimary)
      && f["segments"] == JArray(SegmentsToJson(a.segments))
  {
  }

  lemma AudioToJsonFields(a: Audio)
    ensures var f := AudioToJson(a).fields;
      && f["audio_primary"] == JBool(a.audioPrimary)
      && f["avg_bitrate"] == JNumber(a.avgBitrate)
      && f["avg_id"] == JString(a.avgId)
      && f["base_url"] == JString(a.baseUrl)
      && f["bitrate"] == JNumber(a.bitrate)
      && f["channels"] == JNumber(a.channels)
      && f["codecs"] == JString(a.codecs)
      && f["duration"] == JNumber(a.duration)
      && f["format"] == JString(a.format)
      && f["id"] == JString(a.id)
      && f["index_segment"] == JString(a.indexSegment)
      && f["init_segment"] == JString(a.initSegment)
      && f["init_segment_url"] == JString(a.initSegmentUrl)
      && f["max_segment_duration"] == JNumber(a.maxSegmentDuration)
      && f["mime_type"] == JString(a.mimeType)
      && f["sample_rate"] == JNumber(a.sampleRate)
      && f["segments"] == JArray(SegmentsToJson(a.segments))
  {
    AudioToJsonFieldsNumbers(a);
    AudioToJsonFieldsStrings(a);
    AudioToJsonFieldsLocations(a);
    AudioToJsonFieldsOthers(a);
  }

  lemma AudioToJsonInjective(a: Audio, b: Audio)
    requires AudioToJson(a) == AudioToJson(b)
    ensures a == b
  {
    AudioToJsonFields(a);
    AudioToJsonFields(b);
    SegmentsToJsonInjective(a.segments, b.segments);
  }

  /** The numeric fields of the encoding. */
  lemma VideoToJsonFieldsNumbers(v: Video)
    ensures var f := VideoToJson(v).fields;
      && f["avg_bitrate"] == JNumber(v.avgBitrate)
      && f["bitrate"] == JNumber(v.bitrate)
      && f["duration"] == JNumber(v.duration)
      && f["framerate"] == JNumber(v.framerate)
      && f["height"] == JNumber(v.height)
      && f["max_segment_duration"] == JNumber(v.maxSegmentDuration)
      && f["width"] == JNumber(v.width)
  {
  }

  /** The descriptive string fields of the encoding. */
  lemma VideoToJsonFieldsStrings(v: Video)
    ensures var f := VideoToJson(v).fields;
      && f["avg_id"] == JString(v.avgId)
      && f["codecs"] == JString(v.codecs)
      && f["format"] == JString(v.format)
      && f["id"] == JString(v.id)
      && f["mime_type"] == JString(v.mimeType)
  {
  }

  /** The location fields of the encoding. */
  lemma VideoToJsonFieldsLocations(v: Video)
    ensures var f := VideoToJson(v).fields;
      && f["base_url"] == JString(v.baseUrl)
      && f["index_segment"] == JString(v.indexSegment)
      && f["init_segment"] == JString(v.initSegment)
      && f["init_segment_url"] == JString(v.initSegmentUrl)
  {
  }

  /** The remaining fields of the encoding. */
  lemma VideoToJsonFieldsOthers(v: Video)
    ensures var f := VideoToJson(v).fields;
      && f["segments"] == JArray(SegmentsToJson(v.segments))
  {
  }

  lemma VideoToJsonFields(v: Video)
    ensures var f := VideoToJson(v).fields;
      && f["avg_bitrate"] == JNumber(v.avgBitrate)
      && f["avg_id"] == JString(v.avgId)
      && f["base_url"] == JString(v.baseUrl)
      && f["bitrate"] == JNumber(v.bitrate)
      && f["codecs"] == JString(v.codecs)
      && f["duration"] == JNumber(v.duration)
      && f["format"] == JString(v.format)
      && f["framerate"] == JNumber(v.framerate)
      && f["height"] == JNumber(v.height)
      && f["id"] == JString(v.id)
      && f["index_segment"] == JString(v.indexSegment)
      && f["init_segment"] == JString(v.initSegment)
      && f["init_segment_url"] == JString(v.initSegmentUrl)
      && f["max_segment_duration"] == JNumber(v.maxSegmentDuration)
      && f["mime_type"] == JString(v.mimeType)
      && f["segments"] == JArray(SegmentsToJson(v.segments))
      && f["width"] == JNumber(v.width)
  {
    VideoToJsonFieldsNumbers(v);
    VideoToJsonFieldsStrings(v);
    VideoToJsonFieldsLocations(v);
    VideoToJsonFieldsOthers(v);
  }

  lemma VideoToJsonInjective(a: Video, b: Video)
    requires VideoToJson(a) == VideoToJson(b)
    ensures a == b
  {
    VideoToJsonFields(a);
    VideoToJsonFields(b);
    SegmentsToJsonInjective(a.segments, b.segments);
  }

  lemma AudioToJsonKeys(a: Audio)
    ensures AudioToJson(a).fields.Keys == AudioKeys
  {
  }

  lemma AudioRoundTrip(a: Audio)
    ensures ParseAudio(AudioToJson(a)) == Some(a)
  {
    var j := AudioToJson(a);
    AudioToJsonKeys(a);
    AudioToJsonFields(a);
    assert ValidSegmentArray(j.fields["segments"]) by { SegmentsRoundTrip(a.segments); }
    assert ValidAudio(j);
    EncodedAudioParses(j, a);
  }

  lemma EncodedAudioParses(j: Json, a: Audio)
    requires ValidAudio(j) && j == AudioToJson(a)
    ensures ParseAudio(j) == Some(a)
  {
    ParsedAudioRoundTrip(j);
    AudioToJsonInjective(ParseAudio(j).value, a);
  }

  lemma EncodedVideoParses(j: Json, v: Video)
    requires ValidVideo(j) && j == VideoToJson(v)
    ensures ParseVideo(j) == Some(v)
  {
    ParsedVideoRoundTrip(j);
    VideoToJsonInjective(ParseVideo(j).value, v);
  }

  lemma ParsedAudioRoundTrip(j: Json)
    requires ValidAudio(j)
    ensures AudioToJson(ParseAudio(j).value) == j
  {
    ParsedSegmentsRoundTrip(j.fields["segments"]);
    assert AudioToJson(ParseAudio(j).value).fields == j.fields;
  }

  lemma VideoToJsonKeys(v: Video)
    ensures VideoToJson(v).fields.Keys == VideoKeys
  {
  }

  lemma VideoRoundTrip(v: Video)
    ensures ParseVideo(VideoToJson(v)) == Some(v)
  {
    var j := VideoToJson(v);
    VideoToJsonKeys(v);
    VideoToJsonFields(v);
    assert ValidSegmentArray(j.fields["segments"]) by { SegmentsRoundTrip(v.segments); }
    assert ValidVideo(j);
    EncodedVideoParses(j, v);
  }

  lemma ParsedVideoRoundTrip(j: Json)
    requires ValidVideo(j)
    ensures VideoToJson(ParseVideo(j).value) == j
  {
    ParsedSegmentsRoundTrip(j.fields["segments"]);
    assert VideoToJson(ParseVideo(j).value).fields == j.fields;
  }

  lemma ParsedPlaylistParts(j: Json)
    requires ValidPlaylist(j)
    ensures var p := ParsePlaylist(j).value;
      && ParseArray(j.fields["audio"].elems, ParseAudio) == Some(p.audio)
      && ParseArray(j.fields["video"].elems, ParseVideo) == Some(p.video)
      && j.fields["base_url"] == JString(p.baseUrl)
      && j.fields["clip_id"] == JString(p.clipId)
  {
  }

  lemma ParsedTracksRoundTrip(j: Json)
    requires ValidPlaylist(j)
    ensures AudiosToJson(ParsePlaylist(j).value.audio) == j.fields["audio"].elems
    ensures VideosToJson(ParsePlaylist(j).value.video) == j.fields["video"].elems
  {
    ParsedPlaylistParts(j);
    ParsedAudiosRoundTrip(j.fields["audio"].elems, ParsePlaylist(j).value.audio);
    ParsedVideosRoundTrip(j.fields["video"].elems, ParsePlaylist(j).value.video);
  }

  lemma ParsedAudiosRoundTrip(elems: seq<Json>, tracks: seq<Audio>)
    requires ParseArray(elems, ParseAudio) == Some(tracks)
    ensures AudiosToJson(tracks) == elems
  {
    forall i | 0 <= i < |elems| ensures AudiosToJson(tracks)[i] == elems[i] {
      ParsedAudioRoundTrip(elems[i]);
    }
  }

  lemma ParsedVideosRoundTrip(elems: seq<Json>, tracks: seq<Video>)
    requires ParseArray(elems, ParseVideo) == Some(tracks)
    ensures VideosToJson(tracks) == elems
  {
    forall i | 0 <= i < |elems| ensures VideosToJson(tracks)[i] == elems[i] {
      ParsedVideoRoundTrip(elems[i]);
    }
  }

  lemma PlaylistToJsonFromFields(j: Json, p: Playlist)
    requires HasExactly(j, PlaylistKeys)
    requires j.fields["audio"] == JArray(AudiosToJson(p.audio))
    requires j.fields["base_url"] == JString(p.baseUrl)
    requires j.fields["clip_id"] == JString(p.clipId)
    requires j.fields["video"] == JArray(VideosToJson(p.video))
    ensures PlaylistToJson(p) == j
  {
    assert PlaylistToJson(p).fields == j.fields;
  }

  lemma ParsedPlaylistRoundTrip(j: Json)
    requires ValidPlaylist(j)
    ensures PlaylistToJson(ParsePlaylist(j).value) == j
  {
    ParsedPlaylistParts(j);
    ParsedTracksRoundTrip(j);
    PlaylistToJsonFromFields(j, ParsePlaylist(j).value);
  }

  lemma {:induction false} AudiosRoundTrip(tracks: seq<Audio>)
    ensures ParseArray(AudiosToJson(tracks), ParseAudio) == Some(tracks)
  {
    forall i | 0 <= i < |tracks| ensures ParseAudio(AudiosToJson(tracks)[i]) == Some(tracks[i]) {
      AudioRoundTrip(tracks[i]);
    }
    assert ParseArray(AudiosToJson(tracks), ParseAudio).value == tracks;
  }

  lemma {:induction false} VideosRoundTrip(tracks: seq<Video>)
    ensures ParseArray(VideosToJson(tracks), ParseVideo) == Some(tracks)
  {
    forall i | 0 <= i < |tracks| ensures ParseVideo(VideosToJson(tracks)[i]) == Some(tracks[i]) {
      VideoRoundTrip(tracks[i]);
    }
    assert ParseArray(VideosToJson(tracks), ParseVideo).value == tracks;
  }

  lemma PlaylistToJsonFields(p: Playlist)
    ensures var f := PlaylistToJson(p).fields;
      && f.Keys == PlaylistKeys
      && f["audio"] == JArray(AudiosToJson(p.audio))
      && f["base_url"] == JString(p.baseUrl)
      && f["clip_id"] == JString(p.clipId)
      && f["video"] == JArray(VideosToJson(p.video))
  {
  }

  /** Every playlist survives encoding and parsing back unchanged, track order included. */
  lemma PlaylistRoundTrip(p: Playlist)
    ensures ParsePlaylist(PlaylistToJson(p)) == Some(p)
  {
    var j := PlaylistToJson(p);
    PlaylistToJsonFields(p);
    AudiosRoundTrip(p.audio);
    VideosRoundTrip(p.video);
    assert ValidPlaylist(j);
    ParsedPlaylistParts(j);
  }

  // ---------------------------------------------------------------------
  // Strictness and composition

  /** An object carrying an audio-only key is never a Video. */
  lemma VideoRejectsAudioKeys(j: Json)
    requires j.JObject? && ("channels" in j.fields || "sample_rate" in j.fields || "audio_primary" in j.fields)
    ensures ParseVideo(j) == None
  {
    if "channels" in j.fields {
      VideoRejectsForeignKey(j, "channels");
    } else if "sample_rate" in j.fields {
      VideoRejectsForeignKey(j, "sample_rate");
    } else {
      VideoRejectsForeignKey(j, "audio_primary");
    }
  }

  /** Any key outside the declared ones rejects a Video. */
  lemma VideoRejectsForeignKey(j: Json, key: string)
    requires j.JObject? && key in j.fields && key !in VideoKeys
    ensures ParseVideo(j) == None
  {
  }

  /** Any key outside the declared ones, or any missing key, rejects a Segment. */
  lemma SegmentKeysExact(j: Json)
    requires j.JObject? && j.fields.Keys != SegmentKeys
    ensures ParseSegment(j) == None
  {
  }

  /** One invalid segment inside one audio track rejects the whole manifest. */
  lemma InvalidAudioSegmentRejectsPlaylist(j: Json, t: nat, k: nat)
    requires j.JObject? && "audio" in j.fields && j.fields["audio"].JArray?
    requires t < |j.fields["audio"].elems|
    requires var track := j.fields["audio"].elems[t];
      track.JObject? && "segments" in track.fields && track.fields["segments"].JArray?
      && k < |track.fields["segments"].elems| && !ValidSegment(track.fields["segments"].elems[k])
    ensures ParsePlaylist(j) == None
  {
    assert !ValidAudio(j.fields["audio"].elems[t]);
  }

  /** One invalid segment inside one video track rejects the whole manifest. */
  lemma InvalidVideoSegmentRejectsPlaylist(j: Json, t: nat, k: nat)
    requires j.JObject? && "video" in j.fields && j.fields["video"].JArray?
    requires t < |j.fields["video"].elems|
    requires var track := j.fields["video"].elems[t];
      track.JObject? && "segments" in track.fields && track.fields["segments"].JArray?
      && k < |track.fields["segments"].elems| && !ValidSegment(track.fields["segments"].elems[k])
    ensures ParsePlaylist(j) == None
  {
    assert !ValidVideo(j.fields["video"].elems[t]);
  }

  /** The parsed manifest lists the tracks, and each track its segments, in manifest order. */
  lemma {:induction false} ParsePreservesAudioOrder(j: Json, t: nat, k: nat)
    requires ValidPlaylist(j)
    requires t < |j.fields["audio"].elems|
    requires k < |j.fields["audio"].elems[t].fields["segments"].elems|
    ensures var p := ParsePlaylist(j).value;
      && t < |p.audio| && k < |p.audio[t].segments|
      && Some(p.audio[t].segments[k]) == ParseSegment(j.fields["audio"].elems[t].fields["segments"].elems[k])
  {
    var track := j.fields["audio"].elems[t];
    assert ValidAudio(track);
    assert Some(ParsePlaylist(j).value.audio[t]) == ParseAudio(track);
  }

  /** The same for video tracks and their segments. */
  lemma ParsePreservesVideoOrder(j: Json, t: nat, k: nat)
    requires ValidPlaylist(j)
    requires t < |j.fields["video"].elems|
    requires k < |j.fields["video"].elems[t].fields["segments"].elems|
    ensures var p := ParsePlaylist(j).value;
      && t < |p.video| && k < |p.video[t].segments|
      && Some(p.video[t].segments[k]) == ParseSegment(j.fields["video"].elems[t].fields["segments"].elems[k])
  {
    var track := j.fields["video"].elems[t];
    assert ValidVideo(track);
    assert Some(ParsePlaylist(j).value.video[t]) == ParseVideo(track);
  }

  /** An empty manifest (no tracks at all) is accepted. */
  lemma EmptyTrackListsAccepted(baseUrl: string, clipId: string)
    ensures ParsePlaylist(JObject(map["audio" := JArray([]), "base_url" := JString(baseUrl),
                                     "clip_id" := JString(clipId), "video" := JArray([])]))
            == Some(Playlist([], baseUrl, clipId, []))
  {
    var j := JObject(map["audio" := JArray([]), "base_url" := JString(baseUrl),
                         "clip_id" := JString(clipId), "video" := JArray([])]);
    assert j.fields.Keys == PlaylistKeys;
  }
}
