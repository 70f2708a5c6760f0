/** The background script's local usage counters: event-name mapping, the
    per-event update of the stored stats record, and the dashboard summary. */
module Usage {
  import opened Wrappers

  /** The `eventData` a tracked event carries; only `videoId` affects the
      local counters. */
  datatype EventData = EventData(videoId: Option<string>, term: Option<string>)

  /** A `trackEvent` message; `data` is `None` when `eventData` is undefined. */
  datatype Event = Event(eventType: string, data: Option<EventData>)

  /** The `usageStats` record. `translations` may be missing from records
      written before the field existed. */
  datatype Stats = Stats(transcriptFetches: nat, searches: nat, timestampClicks: nat,
                         translations: Option<nat>, videosAccessed: seq<string>)

  /** The record used when storage holds none. */
  const DefaultStats := Stats(0, 0, 0, Some(0), [])

  /** `mapEventName`: the analytics name of an event type. */
  function MapEventName(eventType: string): (name: string)
    ensures eventType == "transcriptFetch" ==> name == "transcript_fetch"
    ensures eventType == "timestampClick" ==> name == "timestamp_click"
    ensures eventType == "translation" ==> name == "transcript_translation"
    ensures eventType !in {"transcriptFetch", "timestampClick", "translation"} ==> name == eventType
  {
    match eventType
    case "transcriptFetch" => "transcript_fetch"
    case "search" => "search"
    case "timestampClick" => "timestamp_click"
    case "translation" => "transcript_translation"
    case _ => eventType
  }

  /** Mapping is idempotent: every analytics name maps to itself, and a name
      changes exactly for the three renamed types `transcriptFetch`,
      `timestampClick` and `translation`. */
  lemma MapEventNameIdempotent(eventType: string)
    ensures MapEventName(MapEventName(eventType)) == MapEventName(eventType)
    ensures MapEventName(eventType) != eventType <==> eventType in {"transcriptFetch", "timestampClick", "translation"}
  {
  }

  predicate NoDuplicates(xs: seq<string>) {
    forall i, j :: 0 <= i < j < |xs| ==> xs[i] != xs[j]
  }

  /** The video id a transcript fetch records: present and non-empty. */
  function RecordedVideo(data: EventData): Option<string> {
    if data.videoId.Some? && data.videoId.value != [] then data.videoId else None
  }

  /** Whether the update reaches storage: a transcript fetch without
      `eventData` throws inside the storage callback before the write. */
  predicate Saves(e: Event) {
    !(e.eventType == "transcriptFetch" && e.data.None?)
  }

  /** `trackLocalEvent`: the stored stats record after one event. */
  function TrackLocalEvent(stored: Option<Stats>, e: Event): (r: Option<Stats>)
    ensures !Saves(e) ==> r == stored
    ensures Saves(e) ==> r.Some?
    ensures Saves(e) && e.eventType !in {"transcriptFetch", "search", "timestampClick", "translation"}
      ==> r == Some(stored.GetOr(DefaultStats))
  {
    var stats := stored.GetOr(DefaultStats);
    match e.eventType
    case "transcriptFetch" =>
      if e.data.None? then stored
      else
        var videos := match RecordedVideo(e.data.value)
          case Some(v) => if v in stats.videosAccessed then stats.videosAccessed else stats.videosAccessed + [v]
          case None => stats.videosAccessed;
        Some(stats.(transcriptFetches := stats.transcriptFetches + 1, videosAccessed := videos))
    case "search" => Some(stats.(searches := stats.searches + 1))
    case "timestampClick" => Some(stats.(timestampClicks := stats.timestampClicks + 1))
    case "translation" => Some(stats.(translations := Some(stats.translations.GetOr(0) + 1)))
    case _ => Some(stats)
  }

  /** One event changes one counter by exactly one, touches nothing else, and
      keeps `videosAccessed` free of duplicates, adding only the fetched
      video and only when it is not yet listed. */
  lemma TrackLocalEventStep(stored: Option<Stats>, e: Event)
    requires Saves(e)
    requires NoDuplicates(stored.GetOr(DefaultStats).videosAccessed)
    ensures var s := stored.GetOr(DefaultStats);
      var u := TrackLocalEvent(stored, e).value;
      && u.transcriptFetches == s.transcriptFetches + (if e.eventType == "transcriptFetch" then 1 else 0)
      && u.searches == s.searches + (if e.eventType == "search" then 1 else 0)
      && u.timestampClicks == s.timestampClicks + (if e.eventType == "timestampClick" then 1 else 0)
      && u.translations == (if e.eventType == "translation" then Some(s.translations.GetOr(0) + 1) else s.translations)
      && NoDuplicates(u.videosAccessed)
      && (e.eventType == "transcriptFetch" && RecordedVideo(e.data.value).Some?
            && RecordedVideo(e.data.value).value !in s.videosAccessed
          ==> u.videosAccessed == s.videosAccessed + [RecordedVideo(e.data.value).value])
      && (!(e.eventType == "transcriptFetch" && RecordedVideo(e.data.value).Some?
            && RecordedVideo(e.data.value).value !in s.videosAccessed)
          ==> u.videosAccessed == s.videosAccessed)
  {
  }

  /** The stored record after a sequence of events, oldest first. */
  function Replay(stored: Option<Stats>, events: seq<Event>): Option<Stats>
    decreases |events|
  {
    if events == [] then stored
    else TrackLocalEvent(Replay(stored, events[..|events| - 1]), events[|events| - 1])
  }

  /** How many saved events of type `eventType` the sequence holds. */
  function CountSaved(events: seq<Event>, eventType: string): nat
    decreases |events|
  {
    if events == [] then 0
    else
      var e := events[|events| - 1];
      CountSaved(events[..|events| - 1], eventType) + (if Saves(e) && e.eventType == eventType then 1 else 0)
  }

  /** Whether `e` is a saved transcript fetch that records video `v`. */
  predicate Records(e: Event, v: string) {
    e.eventType == "transcriptFetch" && e.data.Some? && RecordedVideo(e.data.value) == Some(v)
  }

  /** Whether some event in `events` recorded video `v`. */
  predicate Fetched(events: seq<Event>, v: string) {
    exists k :: 0 <= k < |events| && Records(events[k], v)
  }

  /** The dashboard data `getLocalAnalytics` returns, without the user id and
      install dates. */
  datatype Analytics = Analytics(usageStats: Stats, uniqueVideos: nat)

  /** `getLocalAnalytics`: the stored record or the default, and the number
      of videos it lists (0 when nothing is stored). */
  function GetLocalAnalytics(stored: Option<Stats>): (a: Analytics)
    ensures a.uniqueVideos == |a.usageStats.videosAccessed|
    ensures stored.None? ==> a.usageStats == DefaultStats
    ensures stored.Some? ==> a.usageStats == stored.value
  {
    match stored
    case Some(s) => Analytics(s, |s.videosAccessed|)
    case None => Analytics(DefaultStats, 0)
  }

  /** Starting from empty storage, the dashboard counts every saved event of
      each kind exactly once, and lists each recorded video exactly once. */
  lemma {:induction false} ReplayCounts(events: seq<Event>)
    ensures var s := GetLocalAnalytics(Replay(None, events)).usageStats;
      && s.transcriptFetches == CountSaved(events, "transcriptFetch")
      && s.searches == CountSaved(events, "search")
      && s.timestampClicks == CountSaved(events, "timestampClick")
      && s.translations == Some(CountSaved(events, "translation"))
      && NoDuplicates(s.videosAccessed)
      && forall v :: v in s.videosAccessed <==> Fetched(events, v)
    decreases |events|
  {
    if events != [] {
      var n := |events| - 1;
      var front := events[..n];
      ReplayCounts(front);
      var e := events[n];
      var prev := Replay(None, front);
      var s := prev.GetOr(DefaultStats);
      assert GetLocalAnalytics(prev).usageStats == s;
      if Saves(e) {
        TrackLocalEventStep(prev, e);
      }
      forall v
        ensures Fetched(events, v) <==> (Fetched(front, v) || Records(e, v))
      {
        if Fetched(events, v) {
          var k :| 0 <= k < |events| && Records(events[k], v);
          if k < n {
            assert front[k] == events[k];
          }
        }
        if Fetched(front, v) {
          var k :| 0 <= k < |front| && Records(front[k], v);
          assert events[k] == front[k];
        }
      }
    }
  }
}
