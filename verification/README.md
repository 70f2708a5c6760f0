# YouTube transcript search, modelled in Dafny

This project models the core of a browser extension that fetches the captions of a YouTube video, joins them into one transcript, and lets the user search that transcript. It also models the small usage statistics the extension keeps. The three scripts of the extension map onto modules:

- `content.js`: the content script. It finds the caption tracks in the page's player response, prefers the English track, turns the timed-text entries into segments, and joins their texts with single spaces. Modelled in `Captions` (`captions.dfy`).
- `popup.js`: the popup. It scans the lower-cased transcript for the term without overlaps, attributes each match to a segment, cuts a context window of up to 50 characters on either side, and formats the segment start as `M:SS`. It also handles the search button. Modelled in `Search` (`search.dfy`) and `Clock` (`clock.dfy`).
- `background.js`: the background script. It maps event names, updates the stored usage record per event, and builds the dashboard summary. Modelled in `Usage` (`usage.dfy`).

Two helper modules support them:

- `Strings` (`strings.dfy`) models the JavaScript string built-ins the scripts use: `trim`, `toLowerCase`, `toString` and `padStart`.
- `Wrappers` (`wrappers.dfy`) holds `Option` and `Result`.

Every operation is a pure function, except the search loop and the search handler. Those two are methods written as the source writes them, with loop invariants. Their results are tied to declarative definitions:

- `Occurrences` is the sequence of offsets the scan visits.
- `Locate` is the segment attribution.
- `ResultsFor` is the result list.

Offset attribution is one definition, `Locate`, parameterized by a `Mapping`:

- `CharsOnly` counts only segment text, exactly as `findSegmentForPosition` does. With `CharsOnly`, the search method is the code as written.
- `WithSeparators` also counts the space the join inserts after each segment. This is the corrected attribution; see Findings.

Where the written description of the system and the code disagree, the model follows the code:

- **Malformed caption XML.** `DOMParser` does not throw on such a payload. The `text/xml` parser keeps the tree it built before the first error and adds a `<parsererror>` element. So a malformed payload gives the segments of the `<text>` elements read before the error, possibly none, and never a distinct error. The builder therefore takes the list of entries that were read.
- **Caption-track failures.** `getCaptionTracks` catches every failure (page fetch, pattern match, `JSON.parse`) and returns an empty list. So "source unavailable" surfaces as the `NoCaptionTracks` error thrown by `getVideoTranscript`, as it does in the code.
- **Empty search term.** `searchInTranscript` itself does not handle one: `indexOf("", k)` returns `k`, and the loop would never advance. Only the button handler's guard keeps an empty term out. `SearchInTranscript` therefore requires a non-empty term, and `HandleSearch` models the guard.
- **Empty stored transcript.** The popup treats an empty transcript string like a missing one (`!data.currentTranscript`) and shows the notice instead of searching. An empty segment array is not treated that way, since an array is truthy.
- **Caption track language.** The script compares the track property `language_code` with `'en'` (content.js:48). The description of the player response names the attribute `languageCode`. `CaptionTrack` keeps the property the code reads, `language_code`.
- **Search result shape.** `SearchResult.FormattedTime()` is a member computed from `timestamp`, not a stored field. The source stores `formattedTime: formatTime(segment.start)` alongside `timestamp`, so the two are always equal.

## Model

| member | source | states |
|---|---|---|
| `Strings.Trim` | content.js:138 | the trimmed text neither starts nor ends with ECMAScript whitespace |
| `Strings.TrimDropsOnlyBlanks` | content.js:138 | trimming removes only whitespace, and only from the two ends: the result is an infix of the input with whitespace on both sides |
| `Strings.TrimIdempotent` | content.js:138 | trimming twice equals trimming once |
| `Strings.TrimEmptyIffBlank` | popup.js:69-70 | the trimmed term is empty exactly when the input is all whitespace, which is when the handler and the segment builder drop it |
| `Strings.NatToStringValue` | popup.js:202 | the decimal string of a number reads back as that number |
| `Strings.PadStart` | popup.js:202 | padding leaves a long enough string alone, otherwise yields exactly `width` characters: fill characters followed by the original |
| `Clock.MinutesAndSeconds` | popup.js:199-203 | for a non-negative time, the minutes are the whole seconds divided by 60, and the seconds field is the remainder, between 0 and 59 |
| `Clock.FormatTimeDecodes` | popup.js:199-203 | the text `formatTime` produces is digits, a colon and two digits, which read back as minutes and seconds that recompose the whole seconds |
| `Captions.ParseCaptionContent` | content.js:127-150 | at most one segment per entry, and every segment has non-empty trimmed text |
| `Captions.ParseCaptionContentKeepsOrder` | content.js:134-147 | the j-th segment comes from the j-th entry with non-blank text: same start, end = start + dur (dur 0 when absent), trimmed text |
| `Captions.ParseCaptionContentIdempotent` | content.js:134-147 | feeding the built segments back through the builder returns them unchanged |
| `Captions.JoinTexts` | content.js:57 | the joined transcript's length is the total text length plus one separator between each pair of segments, and empty for no segments |
| `Captions.JoinTextsLayout` | content.js:57 | segment k's text sits in the transcript at its joined start, and a single space follows every segment except the last |
| `Captions.GetCaptionTracks` | content.js:84-112 | the result is the track list found at the full `captions.playerCaptionsTracklistRenderer.captionTracks` path, and empty whenever any step is missing or the page could not be read |
| `Captions.FirstEnglishFrom` | content.js:48 | finds the first track with language code `en` at or after a position, or reports that there is none |
| `Captions.SelectTrack` | content.js:43-48 | an empty track list is the `NoCaptionTracks` error; otherwise the chosen track is the first English one, or the first of all when none is English |
| `Captions.GetVideoTranscript` | content.js:32-74 | a missing or empty video id fails with `MissingVideoId`; no tracks fails with `NoCaptionTracks`; a failed caption fetch fails with `ContentUnavailable`, and only then; on success the segments are built from the selected track's payload, the full text is their join, and a `transcriptFetch` event for the video is sent |
| `Captions.FetchRecordsVideo` | content.js:59-64 | tracking the event of a successful fetch lists the video as accessed |
| `Usage.MapEventName` | background.js:118-131 | the three renamed types `transcriptFetch`, `timestampClick` and `translation` get their analytics names `transcript_fetch`, `timestamp_click` and `transcript_translation`; every other type passes through unchanged |
| `Usage.MapEventNameIdempotent` | background.js:118-131 | mapping a mapped name changes nothing, and a name changes exactly for the three renamed types |
| `Usage.TrackLocalEvent` | background.js:134-168 | a `transcriptFetch` without event data leaves storage untouched; any other event saves a record; events of unknown type save the current or default record unchanged |
| `Usage.TrackLocalEventStep` | background.js:145-163 | one event raises exactly its own counter by one and changes nothing else; the accessed-video list gains the fetched video only if it is new, and stays free of duplicates |
| `Usage.GetLocalAnalytics` | background.js:171-190 | the dashboard shows the stored record or the default one, and `uniqueVideos` is the length of its video list |
| `Usage.ReplayCounts` | background.js:134-190 | from empty storage, each counter equals the number of saved events of its kind, and the video list holds exactly the videos some fetch recorded, each once |
| `Search.FindFromSpec` | popup.js:97 | the scan from offset k returns the least match at or after k, and -1 exactly when there is none |
| `Search.IndexOfSpec` | popup.js:97 | `indexOf(term, from)` returns the least match at or after `from`, and -1 exactly when none exists |
| `Search.OccurrencesSound` | popup.js:97-121 | every offset the loop visits is a match at or after the starting offset, and each begins at or after the end of the previous one |
| `Search.OccurrencesCoverEveryMatch` | popup.js:97-121 | the scan is greedy: every match of the term lies within some visited occurrence |
| `Search.OccurrencesDoNotOverlap` | popup.js:120 | searching "aaaa" for "aa" visits offsets 0 and 2 only |
| `Search.Locate` | popup.js:127-136 | the returned segment is the one whose running range holds the position, and -1 exactly when the position is past the last segment's running total |
| `Search.LocateIsLeast` | popup.js:127-136 | every segment before the located one ends at or before the position |
| `Search.ResultAtSpec` | popup.js:101-117 | a result carries the owning segment's start, a context of up to 50 characters of the original transcript on each side of the match, and highlight offsets that select exactly the matched text |
| `Search.HitsSpec` | popup.js:97-121 | the reported offsets are exactly the visited occurrences that some segment owns, in increasing non-overlapping order, and each is a match in the lower-cased transcript |
| `Search.ResultsForSpec` | popup.js:91-124 | there is one result per reported offset; the k-th carries its segment's start, and its highlighted text is the original transcript at that offset, which lower-cases to the term; the k-th result is the one built for that offset and its segment, so the window facts of `ResultAtSpec` carry over |
| `Search.ScanReports` | popup.js:97-121 | the loop's recursion, one located occurrence after another, builds exactly the declarative result list |
| `Search.SearchInTranscript` | popup.js:91-124 | the search loop returns exactly the declarative result list, for either mapping |
| `Search.HandleSearch` | popup.js:68-88 | an all-whitespace input does nothing; otherwise the search event carries the trimmed, lower-cased term; a missing or empty transcript or missing segments gives the notice; otherwise the results for that term are shown |
| `Search.CharsOnlyLosesTail` | popup.js:127-136 | under the code's attribution, positions from the total text length on belong to no segment |
| `Search.TrailingMatchDropped` | popup.js:127-136 | for the segments "a" and "b" (transcript "a b"), searching "b" finds a match at offset 2, but the code as written reports nothing, while the separator-aware mapping reports it |
| `Search.SeparatorAwareLocatesAll` | content.js:57 | every offset of the joined transcript belongs to some segment under the separator-aware mapping |
| `Search.SeparatorAwareIsExact` | content.js:57 | the separator-aware mapping attributes each character of a segment's text, and the space after it, to that segment |
| `Search.CharsOnlyDriftsForward` | popup.js:127-136 | the code's attribution never picks an earlier segment than the separator-aware one; when it locates a position at all, the separator-aware mapping does too |
| `Search.SeparatorAwareReportsAll` | popup.js:91-124 | with the separator-aware mapping, searching a joined transcript reports every visited occurrence of the term |

## Left out

- Browser plumbing is left out: `chrome.runtime` messaging, `chrome.storage`, `fetch`, `DOMParser`, the DOM rendering of results and transcript, seeking, and the popup's ping/inject sequence. Stored values and fetched payloads become parameters (`Option` for "absent"). The caption fetch is a function parameter that returns the entries or `None` when it throws.
- `extractVideoId` is left out because it needs URL parsing. Its result, a video id that may be missing or empty, is a parameter.
- `parseFloat` is left out: entry starts and durations are reals that were read already, and NaN is not modelled.
- `getCaptionContent` is left out; only its failure (`ContentUnavailable`) is modelled.
- The regular expression and `JSON.parse` in `getCaptionTracks` are left out. Their failure is the `None` page.
- `Strings.ToLower`: only ASCII letters are folded, because Unicode case mapping is not modelled. In JavaScript, `toLowerCase` can change the length of some non-ASCII strings; the model's length-preserving map does not capture that.
- The remote analytics sender, the user id, the install date and `daysSinceInstall` in `background.js` are left out: they need network access, random ids and clocks.
- `Captions.FetchRecordsVideo` is stated for the single event of one fetch. The history of many events is covered by `Usage.ReplayCounts`.
- `Search.Locate`: string lengths and offsets count Unicode code points (Dafny `char`). The source's `length`, `indexOf` and `substring` count UTF-16 code units, so a character outside the Basic Multilingual Plane counts 1 here and 2 there. This affects `Search.IndexOf`, `Search.ResultAt` and the 50-unit window as well. Example: segments "a" and "b😀" give the transcript "a b😀". In the source, searching for "😀" finds it at unit 3; the running totals are 1 and 4, so segment 1 is chosen and one result is shown. In the model the offset is 3 and the totals are 1 and 3, so no segment is found and no result is shown. Both agree whenever every character is in the Basic Multilingual Plane.
- `Usage.ReplayCounts`: it assumes that each update reads the record the previous update wrote. In the source, `trackLocalEvent` reads storage, changes the record and writes it back asynchronously and not atomically (background.js:135-166). Two events handled before the first write lands both read the same record, and one increment is lost. Interleaved updates are not modelled.
- `Clock.FormatTimeDecodes` is stated for non-negative times only. Caption starts are never negative; for negative input the code's `Math.floor` and truncating `%` are modelled (`FormatTime`, `JsRemainder`) but not characterised.

## Findings

| source | as written | input that shows it | evidently intended | confidence | as-written member | corrected member |
|---|---|---|---|---|---|---|
| popup.js:127-136 | `findSegmentForPosition` counts only segment text, while the transcript it searches joins the texts with a space after each segment. Offsets drift by one per earlier segment, and a match in the last characters of the transcript belongs to no segment and is silently dropped. | segments "a" and "b", transcript "a b", term "b": the match at offset 2 is past the running total 2, so no result is shown | attribute each offset to the segment whose text, or the separator after it, contains it, so every match in the transcript is reported in its own segment | not executed | `Search.TrailingMatchDropped` | `Search.SeparatorAwareReportsAll` |
