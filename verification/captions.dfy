/** The content script's transcript acquisition: caption-track discovery in
    the page's player response, track selection, the segment builder and the
    transcript join. */
module Captions {
  import opened Wrappers
  import opened Strings
  import Usage

  /** One `<text>` element of the timed-text payload, with its attributes
      already read: `start` seconds, the `dur` attribute when present and
      non-empty, and the element's text content. */
  datatype Entry = Entry(start: real, dur: Option<real>, text: string)

  /** A timestamped span of transcript text. */
  datatype Segment = Segment(start: real, end: real, text: string)

  /** What the segment builder promises of every segment it produces. */
  predicate WellFormed(seg: Segment) {
    seg.text != [] && Trimmed(seg.text)
  }

  /** The segment an entry with usable text becomes: trimmed text, and an
      end of `start + dur` where an absent `dur` reads as 0. */
  function ToSegment(e: Entry): Segment {
    Segment(e.start, e.start + e.dur.GetOr(0.0), Trim(e.text))
  }

  /** Whether the builder keeps an entry: its trimmed text is non-empty. */
  predicate Keeps(e: Entry) {
    Trim(e.text) != []
  }

  /** `parseCaptionContent`, over the payload's `<text>` elements in document
      order: each element with non-blank text becomes one segment. */
  function ParseCaptionContent(entries: seq<Entry>): (segs: seq<Segment>)
    ensures |segs| <= |entries|
    ensures forall k :: 0 <= k < |segs| ==> WellFormed(segs[k])
    decreases |entries|
  {
    if entries == [] then []
    else
      var rest := ParseCaptionContent(entries[..|entries| - 1]);
      var e := entries[|entries| - 1];
      if Keeps(e) then rest + [ToSegment(e)] else rest
  }

  /** The positions holding `true`, in increasing order. */
  function TrueIndices(flags: seq<bool>): (ks: seq<nat>)
    ensures forall j :: 0 <= j < |ks| ==> ks[j] < |flags| && flags[ks[j]]
    ensures forall i, j :: 0 <= i < j < |ks| ==> ks[i] < ks[j]
    ensures forall k :: 0 <= k < |flags| && flags[k] ==> k in ks
    decreases |flags|
  {
    if flags == [] then []
    else
      var n := |flags| - 1;
      var rest := TrueIndices(flags[..n]);
      if flags[n] then rest + [n] else rest
  }

  /** The positions of the entries the builder keeps, in increasing order. */
  function KeptIndices(entries: seq<Entry>): (ks: seq<nat>)
    ensures forall j :: 0 <= j < |ks| ==> ks[j] < |entries| && Keeps(entries[ks[j]])
    ensures forall i, j :: 0 <= i < j < |ks| ==> ks[i] < ks[j]
    ensures forall k :: 0 <= k < |entries| && Keeps(entries[k]) ==> k in ks
  {
    TrueIndices(seq(|entries|, k requires 0 <= k < |entries| => Keeps(entries[k])))
  }

  lemma KeptIndicesSnoc(entries: seq<Entry>)
    requires entries != []
    ensures KeptIndices(entries)
         == KeptIndices(entries[..|entries| - 1]) + (if Keeps(entries[|entries| - 1]) then [|entries| - 1] else [])
  {
    var n := |entries| - 1;
    var flags := seq(|entries|, k requires 0 <= k < |entries| => Keeps(entries[k]));
    assert flags[..n] == seq(n, k requires 0 <= k < n => Keeps(entries[..n][k]));
  }

  /** The `j`-th segment is built from the `j`-th kept entry. */
  lemma {:induction false} BuiltFromKept(entries: seq<Entry>)
    ensures |ParseCaptionContent(entries)| == |KeptIndices(entries)|
    ensures forall j :: 0 <= j < |ParseCaptionContent(entries)| ==>
              ParseCaptionContent(entries)[j] == ToSegment(entries[KeptIndices(entries)[j]])
    decreases |entries|
  {
    if entries != [] {
      var n := |entries| - 1;
      var front := entries[..n];
      BuiltFromKept(front);
      KeptIndicesSnoc(entries);
      var segs := ParseCaptionContent(entries);
      var ks := KeptIndices(entries);
      var ks0 := KeptIndices(front);
      var segs0 := ParseCaptionContent(front);
      forall j | 0 <= j < |segs|
        ensures segs[j] == ToSegment(entries[ks[j]])
      {
        if j < |segs0| {
          assert segs[j] == segs0[j] && ks[j] == ks0[j];
          assert front[ks0[j]] == entries[ks[j]];
        }
      }
    }
  }

  /** The builder keeps exactly the entries with non-blank text, in source
      order, and turns the `k`-th kept entry into the `k`-th segment: same
      start, `end == start + dur` (0 when `dur` is absent), trimmed text. */
  lemma ParseCaptionContentKeepsOrder(entries: seq<Entry>, j: nat)
    requires j < |ParseCaptionContent(entries)|
    ensures |ParseCaptionContent(entries)| == |KeptIndices(entries)|
    ensures ParseCaptionContent(entries)[j].start == entries[KeptIndices(entries)[j]].start
    ensures ParseCaptionContent(entries)[j].end
         == entries[KeptIndices(entries)[j]].start + entries[KeptIndices(entries)[j]].dur.GetOr(0.0)
    ensures ParseCaptionContent(entries)[j].text == Trim(entries[KeptIndices(entries)[j]].text)
  {
    BuiltFromKept(entries);
  }

  /** A segment written back as the entry it could have come from. */
  function AsEntry(seg: Segment): Entry {
    Entry(seg.start, Some(seg.end - seg.start), seg.text)
  }

  /** Rebuilding from the segments the builder produced gives the same
      segments: building is idempotent. */
  lemma {:induction false} ParseCaptionContentIdempotent(segs: seq<Segment>)
    requires forall k :: 0 <= k < |segs| ==> WellFormed(segs[k])
    ensures ParseCaptionContent(seq(|segs|, k requires 0 <= k < |segs| => AsEntry(segs[k]))) == segs
    decreases |segs|
  {
    var entries := seq(|segs|, k requires 0 <= k < |segs| => AsEntry(segs[k]));
    if segs != [] {
      var n := |segs| - 1;
      var front := segs[..n];
      ParseCaptionContentIdempotent(front);
      assert entries[..n] == seq(n, k requires 0 <= k < n => AsEntry(front[k]));
      var e := entries[n];
      assert e == AsEntry(segs[n]);
      TrimTrimmed(segs[n].text);
      assert Keeps(e);
      assert ToSegment(e) == segs[n];
      assert ParseCaptionContent(entries) == ParseCaptionContent(entries[..n]) + [ToSegment(e)];
      assert front + [segs[n]] == segs;
    }
  }

  /** Total text length of the first `k` segments, separators not counted. */
  function PrefixLen(segs: seq<Segment>, k: nat): nat
    requires k <= |segs|
  {
    if k == 0 then 0 else PrefixLen(segs, k - 1) + |segs[k - 1].text|
  }

  lemma {:induction false} PrefixLenMonotone(segs: seq<Segment>, j: nat, k: nat)
    requires j <= k <= |segs|
    ensures PrefixLen(segs, j) <= PrefixLen(segs, k)
    decreases k - j
  {
    if j < k {
      PrefixLenMonotone(segs, j, k - 1);
    }
  }

  lemma {:induction false} PrefixLenOfPrefix(segs: seq<Segment>, n: nat, k: nat)
    requires k <= n <= |segs|
    ensures PrefixLen(segs[..n], k) == PrefixLen(segs, k)
    decreases k
  {
    if k > 0 {
      PrefixLenOfPrefix(segs, n, k - 1);
    }
  }

  /** Where segment `k`'s text begins in the joined transcript: the text of
      the earlier segments plus one separator after each. */
  function JoinedStart(segs: seq<Segment>, k: nat): nat
    requires k <= |segs|
  {
    PrefixLen(segs, k) + k
  }

  /** `segments.map(s => s.text).join(' ')`. Its length is the sum of the text
      lengths plus one separator between each pair of segments. */
  function JoinTexts(segs: seq<Segment>): (r: string)
    ensures |segs| == 0 ==> r == []
    ensures |segs| > 0 ==> |r| == PrefixLen(segs, |segs|) + |segs| - 1
    decreases |segs|
  {
    if |segs| == 0 then []
    else if |segs| == 1 then segs[0].text
    else
      var n := |segs| - 1;
      PrefixLenOfPrefix(segs, n, n);
      JoinTexts(segs[..n]) + " " + segs[n].text
  }

  /** Each segment's text sits in the joined transcript at its `JoinedStart`,
      and a single space follows every segment but the last. */
  lemma {:induction false} JoinTextsLayout(segs: seq<Segment>, k: nat)
    requires k < |segs|
    ensures JoinedStart(segs, k) + |segs[k].text| <= |JoinTexts(segs)|
    ensures k + 1 < |segs| ==> JoinedStart(segs, k) + |segs[k].text| < |JoinTexts(segs)|
    ensures JoinTexts(segs)[JoinedStart(segs, k)..JoinedStart(segs, k) + |segs[k].text|] == segs[k].text
    ensures k + 1 < |segs| ==> JoinTexts(segs)[JoinedStart(segs, k) + |segs[k].text|] == ' '
    decreases |segs|
  {
    var r := JoinTexts(segs);
    var n := |segs| - 1;
    PrefixLenMonotone(segs, k + 1, |segs|);
    if n > 0 {
      var front := JoinTexts(segs[..n]);
      assert r == front + " " + segs[n].text;
      PrefixLenOfPrefix(segs, n, n);
      if k < n {
        PrefixLenOfPrefix(segs, n, k);
        PrefixLenOfPrefix(segs, n, k + 1);
        JoinTextsLayout(segs[..n], k);
        assert segs[..n][k] == segs[k];
        if k + 1 == n {
          assert JoinedStart(segs, k) + |segs[k].text| == |front|;
          assert r[..|front|] == front;
          assert r[|front|] == ' ';
        }
      }
    }
  }

  /** One entry of `captionTracks`, with the two properties the script reads:
      `language_code`, compared against `'en'`, and `baseUrl`. */
  datatype CaptionTrack = CaptionTrack(language_code: Option<string>, baseUrl: string)

  /** The parts of `ytInitialPlayerResponse` the script navigates, each one
      possibly absent. */
  datatype PlayerResponse = PlayerResponse(captions: Option<CaptionsInfo>)
  datatype CaptionsInfo = CaptionsInfo(playerCaptionsTracklistRenderer: Option<TracklistRenderer>)
  datatype TracklistRenderer = TracklistRenderer(captionTracks: Option<seq<CaptionTrack>>)

  /** Whether the whole path `captions.playerCaptionsTracklistRenderer.captionTracks`
      is present and holds `tracks`. */
  predicate TracksAt(response: PlayerResponse, tracks: seq<CaptionTrack>) {
    && response.captions.Some?
    && response.captions.value.playerCaptionsTracklistRenderer.Some?
    && response.captions.value.playerCaptionsTracklistRenderer.value.captionTracks == Some(tracks)
  }

  /** `getCaptionTracks`, after the page fetch, the `ytInitialPlayerResponse`
      match and `JSON.parse`; `None` stands for any of those failing, which
      the script catches. A missing step anywhere yields no tracks. */
  function GetCaptionTracks(page: Option<PlayerResponse>): (tracks: seq<CaptionTrack>)
    ensures (page.Some? && TracksAt(page.value, tracks)) || tracks == []
    ensures forall ts :: page.Some? && TracksAt(page.value, ts) ==> tracks == ts
  {
    match page
    case None => []
    case Some(response) =>
      match response.captions
      case None => []
      case Some(info) =>
        match info.playerCaptionsTracklistRenderer
        case None => []
        case Some(renderer) => renderer.captionTracks.GetOr([])
  }

  predicate IsEnglish(track: CaptionTrack) {
    track.language_code == Some("en")
  }

  /** The position of the first English track at or after `from`, if any. */
  function FirstEnglishFrom(tracks: seq<CaptionTrack>, from: nat): (r: Option<nat>)
    requires from <= |tracks|
    ensures r.None? <==> forall j :: from <= j < |tracks| ==> !IsEnglish(tracks[j])
    ensures r.Some? ==> from <= r.value < |tracks| && IsEnglish(tracks[r.value])
    ensures r.Some? ==> forall j :: from <= j < r.value ==> !IsEnglish(tracks[j])
    decreases |tracks| - from
  {
    if from == |tracks| then None
    else if IsEnglish(tracks[from]) then Some(from)
    else FirstEnglishFrom(tracks, from + 1)
  }

  /** The errors `getVideoTranscript` throws. */
  datatype TranscribeError = MissingVideoId | NoCaptionTracks | ContentUnavailable

  /** Position `k` holds the track the script prefers: the first English
      one, or the first of all when none is English. */
  predicate PreferredAt(tracks: seq<CaptionTrack>, k: int) {
    && 0 <= k < |tracks|
    && (forall j :: 0 <= j < k ==> !IsEnglish(tracks[j]))
    && (IsEnglish(tracks[k]) || (k == 0 && forall j :: 0 <= j < |tracks| ==> !IsEnglish(tracks[j])))
  }

  /** Track selection: the first English track, otherwise the first track;
      an empty list is an error. */
  function SelectTrack(tracks: seq<CaptionTrack>): (r: Result<CaptionTrack, TranscribeError>)
    ensures r.Failure? <==> tracks == []
    ensures r.Failure? ==> r.error == NoCaptionTracks
    ensures r.Success? ==> exists k :: PreferredAt(tracks, k) && r.value == tracks[k]
  {
    if tracks == [] then Failure(NoCaptionTracks)
    else
      match FirstEnglishFrom(tracks, 0)
      case Some(k) => Success(tracks[k])
      case None => Success(tracks[0])
  }

  /** The transcript document handed to the popup. */
  datatype Transcript = Transcript(fullText: string, segments: seq<Segment>)

  /** A successful fetch: the transcript, and the `transcriptFetch` usage
      event sent to the background script just before it is returned. */
  datatype Fetched = Fetched(transcript: Transcript, tracked: Usage.Event)

  function FetchEvent(videoId: string): Usage.Event {
    Usage.Event("transcriptFetch", Some(Usage.EventData(Some(videoId), None)))
  }

  /** `getVideoTranscript`. The video id (null or empty when the URL has no
      usable `v` parameter), the parsed player response and the caption
      fetch, which maps a track URL to the payload's entries or `None` when
      the fetch throws, are its inputs. */
  function GetVideoTranscript(videoId: Option<string>, page: Option<PlayerResponse>,
                              fetchEntries: string -> Option<seq<Entry>>): (r: Result<Fetched, TranscribeError>)
    ensures (videoId.None? || videoId == Some([])) <==> r == Failure(MissingVideoId)
    ensures r == Failure(NoCaptionTracks) <==> videoId.Some? && videoId.value != [] && GetCaptionTracks(page) == []
    ensures r == Failure(ContentUnavailable) <==>
              && videoId.Some? && videoId.value != [] && GetCaptionTracks(page) != []
              && fetchEntries(SelectTrack(GetCaptionTracks(page)).value.baseUrl).None?
    ensures r.Success? ==>
      var tracks := GetCaptionTracks(page);
      && SelectTrack(tracks).Success?
      && fetchEntries(SelectTrack(tracks).value.baseUrl).Some?
      && r.value.transcript.segments == ParseCaptionContent(fetchEntries(SelectTrack(tracks).value.baseUrl).value)
      && r.value.transcript.fullText == JoinTexts(r.value.transcript.segments)
      && r.value.tracked == FetchEvent(videoId.value)
  {
    if videoId.None? || videoId.value == [] then Failure(MissingVideoId)
    else
      match SelectTrack(GetCaptionTracks(page))
      case Failure(e) => Failure(e)
      case Success(track) =>
        match fetchEntries(track.baseUrl)
        case None => Failure(ContentUnavailable)
        case Some(entries) =>
          var segments := ParseCaptionContent(entries);
          Success(Fetched(Transcript(JoinTexts(segments), segments), FetchEvent(videoId.value)))
  }

  /** Once a fetch succeeds, tracking its event lists the video among those
      accessed, whatever the stored record held before. */
  lemma FetchRecordsVideo(videoId: Option<string>, page: Option<PlayerResponse>,
                          fetchEntries: string -> Option<seq<Entry>>, stored: Option<Usage.Stats>)
    requires GetVideoTranscript(videoId, page, fetchEntries).Success?
    ensures Usage.TrackLocalEvent(stored, GetVideoTranscript(videoId, page, fetchEntries).value.tracked).Some?
    ensures videoId.Some? && videoId.value
         in Usage.TrackLocalEvent(stored, GetVideoTranscript(videoId, page, fetchEntries).value.tracked).value.videosAccessed
  {
  }
}
