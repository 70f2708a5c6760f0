/** The popup's transcript search: non-overlapping occurrence scanning,
    offset-to-segment mapping, context windows and the search handler. */
module Search {
  import opened Wrappers
  import opened Strings
  import opened Clock
  import opened Captions
  import Usage

  /** `term` occurs in `s` at offset `i`. */
  predicate MatchAt(s: string, term: string, i: int) {
    0 <= i && i + |term| <= |s| && s[i..i + |term|] == term
  }

  /** The first offset at or after `k` where `term` occurs in `s`, or -1. */
  function FindFrom(s: string, term: string, k: nat): (r: int)
    requires k <= |s|
    ensures r == -1 || (k <= r && r + |term| <= |s|)
    decreases |s| - k
  {
    if k + |term| > |s| then -1
    else if s[k..k + |term|] == term then k
    else
      assert |term| > 0;
      FindFrom(s, term, k + 1)
  }

  /** The scan finds the least match at or after `k`, and -1 only when there
      is none. */
  lemma {:induction false} FindFromSpec(s: string, term: string, k: nat)
    requires k <= |s|
    ensures FindFrom(s, term, k) == -1 <==> forall i :: k <= i ==> !MatchAt(s, term, i)
    ensures FindFrom(s, term, k) != -1 ==> MatchAt(s, term, FindFrom(s, term, k))
    ensures forall i :: k <= i < FindFrom(s, term, k) ==> !MatchAt(s, term, i)
    decreases |s| - k
  {
    var r := FindFrom(s, term, k);
    if k + |term| > |s| {
      assert forall i :: k <= i ==> !MatchAt(s, term, i);
    } else if s[k..k + |term|] != term {
      assert |term| > 0 && !MatchAt(s, term, k);
      FindFromSpec(s, term, k + 1);
    } else {
      assert MatchAt(s, term, k);
    }
  }

  /** `String.prototype.indexOf(term, from)`, with `from` clamped to the
      string's length. */
  function IndexOf(s: string, term: string, from: nat): (r: int)
    ensures r == -1 || (Min(from, |s|) <= r && r + |term| <= |s|)
  {
    FindFrom(s, term, Min(from, |s|))
  }

  /** `indexOf` returns the least match offset at or after `from`, or -1
      when there is none. */
  lemma IndexOfSpec(s: string, term: string, from: nat)
    ensures IndexOf(s, term, from) == -1 <==> forall i :: Min(from, |s|) <= i ==> !MatchAt(s, term, i)
    ensures IndexOf(s, term, from) != -1 ==> MatchAt(s, term, IndexOf(s, term, from))
    ensures forall i :: Min(from, |s|) <= i < IndexOf(s, term, from) ==> !MatchAt(s, term, i)
  {
    FindFromSpec(s, term, Min(from, |s|));
  }

  function Min(a: int, b: int): int {
    if a <= b then a else b
  }

  function Max(a: int, b: int): int {
    if a <= b then b else a
  }

  /** The offsets the search loop visits: the first match at or after `from`,
      then the first one at or after its end, and so on. */
  function Occurrences(s: string, term: string, from: nat): seq<nat>
    requires |term| > 0
    decreases if from <= |s| then |s| - from else 0
  {
    var i := IndexOf(s, term, from);
    if i == -1 then [] else [i] + Occurrences(s, term, i + |term|)
  }

  /** A scan that finds a match reports it, then resumes after it. */
  lemma OccurrencesUnfold(s: string, term: string, from: nat)
    requires |term| > 0 && IndexOf(s, term, from) != -1
    ensures Occurrences(s, term, from)
         == [IndexOf(s, term, from) as nat] + Occurrences(s, term, IndexOf(s, term, from) + |term|)
  {
  }

  /** Every reported offset is a match at or after `from`, and each one
      starts at or after the end of the one before: no two overlap. */
  lemma {:induction false} OccurrencesSound(s: string, term: string, from: nat)
    requires |term| > 0
    ensures forall k :: 0 <= k < |Occurrences(s, term, from)| ==>
              from <= Occurrences(s, term, from)[k] && MatchAt(s, term, Occurrences(s, term, from)[k])
    ensures Spaced(Occurrences(s, term, from), |term|)
    decreases if from <= |s| then |s| - from else 0
  {
    var i := IndexOf(s, term, from);
    IndexOfSpec(s, term, from);
    if i != -1 {
      var rest := Occurrences(s, term, i + |term|);
      OccurrencesSound(s, term, i + |term|);
      var occ := Occurrences(s, term, from);
      assert occ == [i] + rest;
      assert forall k :: 0 < k < |occ| ==> occ[k] == rest[k - 1];
    }
  }

  /** Every reported match lies within the string. */
  lemma OccurrencesFit(s: string, term: string, from: nat)
    requires |term| > 0
    ensures AllBelow(Occurrences(s, term, from), |term|, |s|)
  {
    OccurrencesSound(s, term, from);
  }

  /** A match at `p` at or after `from` means `indexOf` finds one no later. */
  lemma IndexOfReachesMatch(s: string, term: string, from: nat, p: nat)
    requires from <= p && MatchAt(s, term, p)
    ensures IndexOf(s, term, from) != -1 && IndexOf(s, term, from) <= p
  {
    IndexOfSpec(s, term, from);
    assert Min(from, |s|) == from;
  }

  /** The `k`-th reported offset's match spans position `p`. */
  predicate Covers(occ: seq<nat>, k: int, p: nat, width: nat) {
    0 <= k < |occ| && occ[k] <= p < occ[k] + width
  }

  /** The scan is greedy: every match at or after `from` that is not
      reported lies inside a reported one. */
  lemma {:induction false} OccurrencesCoverEveryMatch(s: string, term: string, from: nat, p: nat)
    requires |term| > 0
    requires from <= p && MatchAt(s, term, p)
    ensures exists k :: Covers(Occurrences(s, term, from), k, p, |term|)
    decreases if from <= |s| then |s| - from else 0
  {
    var occ := Occurrences(s, term, from);
    var i := IndexOf(s, term, from);
    IndexOfReachesMatch(s, term, from, p);
    IndexOfSpec(s, term, from);
    var rest := Occurrences(s, term, i + |term|);
    assert occ == [i] + rest;
    if p < i + |term| {
      assert Covers(occ, 0, p, |term|);
    } else {
      OccurrencesCoverEveryMatch(s, term, i + |term|, p);
      var k :| Covers(rest, k, p, |term|);
      assert Covers(occ, k + 1, p, |term|);
    }
  }

  /** Overlapping matches are not reported: "aaaa" searched for "aa" gives
      offsets 0 and 2 only. */
  lemma OccurrencesDoNotOverlap()
    ensures Occurrences("aaaa", "aa", 0) == [0, 2]
  {
    IndexOfSpec("aaaa", "aa", 0);
    IndexOfSpec("aaaa", "aa", 2);
    IndexOfSpec("aaaa", "aa", 4);
    assert MatchAt("aaaa", "aa", 0);
    assert IndexOf("aaaa", "aa", 0) == 0;
    assert MatchAt("aaaa", "aa", 2);
    assert !MatchAt("aaaa", "aa", 3);
    assert IndexOf("aaaa", "aa", 2) == 2;
    assert IndexOf("aaaa", "aa", 4) == -1;
  }

  /** How an offset of the joined transcript is attributed to a segment:
      `CharsOnly` counts segment text only, as `findSegmentForPosition` does;
      `WithSeparators` also counts the space after each segment. */
  datatype Mapping = CharsOnly | WithSeparators

  /** Where segment `k` begins under the mapping. */
  function Boundary(m: Mapping, segs: seq<Segment>, k: nat): nat
    requires k <= |segs|
  {
    match m
    case CharsOnly => PrefixLen(segs, k)
    case WithSeparators => JoinedStart(segs, k)
  }

  lemma BoundaryMonotone(m: Mapping, segs: seq<Segment>, j: nat, k: nat)
    requires j <= k <= |segs|
    ensures Boundary(m, segs, j) <= Boundary(m, segs, k)
  {
    PrefixLenMonotone(segs, j, k);
  }

  /** The loop of `findSegmentForPosition` from segment `i` on. */
  function LocateFrom(m: Mapping, segs: seq<Segment>, p: nat, i: nat): (r: int)
    requires i <= |segs| && Boundary(m, segs, i) <= p
    ensures r == -1 <==> Boundary(m, segs, |segs|) <= p
    ensures r != -1 ==> i <= r < |segs| && Boundary(m, segs, r) <= p < Boundary(m, segs, r + 1)
    decreases |segs| - i
  {
    if i == |segs| then -1
    else if p < Boundary(m, segs, i + 1) then
      BoundaryMonotone(m, segs, i + 1, |segs|);
      i
    else LocateFrom(m, segs, p, i + 1)
  }

  /** `findSegmentForPosition(position, segments)`: the segment whose range
      under the mapping holds `p`, or -1 when `p` is past the last one. */
  function Locate(m: Mapping, segs: seq<Segment>, p: nat): (r: int)
    ensures r == -1 <==> Boundary(m, segs, |segs|) <= p
    ensures r != -1 ==> 0 <= r < |segs| && Boundary(m, segs, r) <= p < Boundary(m, segs, r + 1)
  {
    LocateFrom(m, segs, p, 0)
  }

  /** The located segment is the least one whose running total exceeds `p`:
      every earlier segment ends at or before `p`. */
  lemma LocateIsLeast(m: Mapping, segs: seq<Segment>, p: nat)
    ensures var r := Locate(m, segs, p);
      r != -1 ==> forall j :: 0 < j <= r ==> Boundary(m, segs, j) <= p
  {
    var r := Locate(m, segs, p);
    if r != -1 {
      forall j | 0 < j <= r
        ensures Boundary(m, segs, j) <= p
      {
        BoundaryMonotone(m, segs, j, r);
      }
    }
  }

  /** Half width of the context window around a match. */
  const ContextRadius := 50

  /** One entry of the result list. */
  datatype SearchResult = SearchResult(timestamp: real, context: string, termStart: nat, termEnd: nat)
  {
    /** The `formattedTime` field: the timestamp as `m:ss`. */
    function FormattedTime(): string {
      FormatTime(timestamp)
    }

    /** The span of the context the popup highlights as the match. */
    function Highlighted(): string
      requires termStart <= termEnd <= |context|
    {
      context[termStart..termEnd]
    }
  }

  /** The result for a match of `term` at `index`, owned by segment `seg`:
      up to 50 characters of the original transcript on each side of the
      match, with the match's offsets inside that window. */
  function ResultAt(transcript: string, term: string, seg: Segment, index: nat): SearchResult
    requires index + |term| <= |transcript|
  {
    var contextStart := Max(0, index - ContextRadius);
    var contextEnd := Min(|transcript|, index + |term| + ContextRadius);
    var termStart := index - contextStart;
    SearchResult(seg.start, transcript[contextStart..contextEnd], termStart, termStart + |term|)
  }

  /** The result carries the segment's start, and its context is the slice of
      the transcript reaching up to 50 characters on each side of the match,
      with the highlighted offsets picking out exactly the matched text. */
  lemma ResultAtSpec(transcript: string, term: string, seg: Segment, index: nat, r: SearchResult)
    requires index + |term| <= |transcript| && r == ResultAt(transcript, term, seg, index)
    ensures && r.timestamp == seg.start
      && r.termStart == Min(index, ContextRadius)
      && r.termEnd - r.termStart == |term| && r.termEnd <= |r.context|
      && |r.context| - r.termEnd == Min(|transcript| - index - |term|, ContextRadius)
      && r.context == transcript[index - r.termStart..index - r.termStart + |r.context|]
      && r.context[r.termStart..r.termEnd] == transcript[index..index + |term|]
  {
    var contextStart := Max(0, index - ContextRadius);
    var contextEnd := Min(|transcript|, index + |term| + ContextRadius);
    SliceOfSlice(transcript, contextStart, contextEnd, index - contextStart, index - contextStart + |term|);
  }

  lemma ConcatAssociates<T>(a: seq<T>, b: seq<T>, c: seq<T>)
    ensures a + (b + c) == a + b + c
  {
  }

  lemma SliceOfSlice<T>(s: seq<T>, a: nat, b: nat, i: nat, j: nat)
    requires a <= b <= |s| && i <= j <= b - a
    ensures s[a..b][i..j] == s[a + i..a + j]
  {
    forall k | 0 <= k < j - i
      ensures s[a..b][i..j][k] == s[a + i..a + j][k]
    {
      assert s[a..b][i..j][k] == s[a..b][i + k] == s[a + i + k];
    }
  }

  /** The elements of `xs` satisfying `keep`, in their original order. */
  function Filter(xs: seq<nat>, keep: nat -> bool): (ys: seq<nat>)
    ensures |ys| <= |xs|
    ensures forall k :: 0 <= k < |ys| ==> keep(ys[k])
  {
    if xs == [] then []
    else (if keep(xs[0]) then [xs[0]] else []) + Filter(xs[1..], keep)
  }

  /** An element survives filtering exactly when it is present and passes. */
  lemma {:induction false} FilterMembers(xs: seq<nat>, keep: nat -> bool, x: nat)
    ensures x in Filter(xs, keep) <==> x in xs && keep(x)
  {
    if xs != [] {
      FilterMembers(xs[1..], keep, x);
      assert xs == [xs[0]] + xs[1..];
    }
  }

  /** Every offset leaves `gap` characters of room before `bound`. */
  predicate AllBelow(offsets: seq<nat>, gap: nat, bound: nat) {
    forall k :: 0 <= k < |offsets| ==> offsets[k] + gap <= bound
  }

  lemma {:induction false} FilterBelow(xs: seq<nat>, keep: nat -> bool, gap: nat, bound: nat)
    requires AllBelow(xs, gap, bound)
    ensures AllBelow(Filter(xs, keep), gap, bound)
  {
    if xs != [] {
      FilterBelow(xs[1..], keep, gap, bound);
    }
  }

  /** Successive elements lie at least `gap` apart. */
  predicate Spaced(offsets: seq<nat>, gap: nat) {
    forall j, k :: 0 <= j < k < |offsets| ==> offsets[j] + gap <= offsets[k]
  }

  /** Every element lies at least `gap` after `first`. */
  predicate AllAfter(offsets: seq<nat>, gap: nat, first: nat) {
    forall k :: 0 <= k < |offsets| ==> first + gap <= offsets[k]
  }

  lemma {:induction false} FilterAfter(xs: seq<nat>, keep: nat -> bool, gap: nat, first: nat)
    requires AllAfter(xs, gap, first)
    ensures AllAfter(Filter(xs, keep), gap, first)
  {
    if xs != [] {
      FilterAfter(xs[1..], keep, gap, first);
    }
  }

  /** Filtering keeps the spacing between elements. */
  lemma {:induction false} FilterKeepsSpacing(xs: seq<nat>, keep: nat -> bool, gap: nat)
    requires Spaced(xs, gap)
    ensures Spaced(Filter(xs, keep), gap)
  {
    if xs != [] {
      FilterKeepsSpacing(xs[1..], keep, gap);
      assert AllAfter(xs[1..], gap, xs[0]);
      FilterAfter(xs[1..], keep, gap, xs[0]);
    }
  }

  /** Filtering with a test every element passes changes nothing. */
  lemma {:induction false} FilterKeepsAll(xs: seq<nat>, keep: nat -> bool)
    requires forall k :: 0 <= k < |xs| ==> keep(xs[k])
    ensures Filter(xs, keep) == xs
  {
    if xs != [] {
      FilterKeepsAll(xs[1..], keep);
      assert [xs[0]] + xs[1..] == xs;
    }
  }

  /** The test the search applies to an occurrence: the mapping attributes
      it to some segment. */
  function Located(m: Mapping, segs: seq<Segment>): nat -> bool {
    (o: nat) => Locate(m, segs, o) != -1
  }

  /** The result list for a list of located offsets, one result each. */
  function Render(transcript: string, term: string, m: Mapping, segs: seq<Segment>, hs: seq<nat>): (rs: seq<SearchResult>)
    requires AllBelow(hs, |term|, |transcript|)
    requires forall k :: 0 <= k < |hs| ==> Locate(m, segs, hs[k]) != -1
    ensures |rs| == |hs|
  {
    if hs == [] then []
    else
      assert hs[0] == hs[..1][0];
      [ResultAt(transcript, term, segs[Locate(m, segs, hs[0])], hs[0])]
        + Render(transcript, term, m, segs, hs[1..])
  }

  lemma RenderCons(transcript: string, term: string, m: Mapping, segs: seq<Segment>, hs: seq<nat>)
    requires AllBelow(hs, |term|, |transcript|)
    requires forall k :: 0 <= k < |hs| ==> Locate(m, segs, hs[k]) != -1
    requires hs != []
    ensures Render(transcript, term, m, segs, hs)
         == [ResultAt(transcript, term, segs[Locate(m, segs, hs[0])], hs[0])] + Render(transcript, term, m, segs, hs[1..])
  {
  }

  /** What one match at `i` contributes: its result when the mapping locates
      it, nothing otherwise. */
  function Piece(m: Mapping, transcript: string, term: string, segs: seq<Segment>, i: nat): seq<SearchResult>
    requires i + |term| <= |transcript|
  {
    var owner := Locate(m, segs, i);
    if owner == -1 then [] else [ResultAt(transcript, term, segs[owner], i)]
  }

  /** The located occurrences in `lower` from offset `from` on. */
  function HitsFrom(m: Mapping, lower: string, term: string, segs: seq<Segment>, from: nat): seq<nat>
    requires |term| > 0
  {
    Filter(Occurrences(lower, term, from), Located(m, segs))
  }

  /** The offsets of the reported matches. */
  function Hits(m: Mapping, transcript: string, term: string, segs: seq<Segment>): seq<nat>
    requires |term| > 0
  {
    HitsFrom(m, ToLower(transcript), term, segs, 0)
  }

  /** The results for the located occurrences from offset `from` on. */
  function Reported(m: Mapping, transcript: string, lower: string, term: string, segs: seq<Segment>, from: nat)
    : seq<SearchResult>
    requires |term| > 0 && |lower| == |transcript|
  {
    OccurrencesFit(lower, term, from);
    FilterBelow(Occurrences(lower, term, from), Located(m, segs), |term|, |transcript|);
    Render(transcript, term, m, segs, HitsFrom(m, lower, term, segs, from))
  }

  /** What `searchInTranscript(term, transcript, segments)` returns under the
      mapping: one result per located occurrence, in scan order. */
  function ResultsFor(m: Mapping, transcript: string, term: string, segs: seq<Segment>): seq<SearchResult>
    requires |term| > 0
  {
    Reported(m, transcript, ToLower(transcript), term, segs, 0)
  }

  /** Reported results advance with the scan: the match found at or after
      `from` contributes its result when located, and the rest follow. */
  lemma ReportedStep(m: Mapping, transcript: string, lower: string, term: string, segs: seq<Segment>,
                     from: nat, i: nat)
    requires |term| > 0 && |lower| == |transcript|
    requires IndexOf(lower, term, from) == i
    ensures i + |term| <= |transcript|
    ensures Reported(m, transcript, lower, term, segs, from)
         == Piece(m, transcript, term, segs, i) + Reported(m, transcript, lower, term, segs, i + |term|)
  {
    var keep := Located(m, segs);
    var occs := Occurrences(lower, term, from);
    var rest := Occurrences(lower, term, i + |term|);
    OccurrencesUnfold(lower, term, from);
    assert occs[1..] == rest;
    var hs := HitsFrom(m, lower, term, segs, from);
    var tail := HitsFrom(m, lower, term, segs, i + |term|);
    OccurrencesFit(lower, term, from);
    FilterBelow(occs, keep, |term|, |transcript|);
    if Locate(m, segs, i) != -1 {
      assert hs == [i] + tail;
      assert hs[1..] == tail;
      RenderCons(transcript, term, m, segs, hs);
    } else {
      assert hs == tail;
      assert Piece(m, transcript, term, segs, i) == [];
    }
  }

  /** Nothing is reported once the scan finds no further match. */
  lemma ReportedEnd(m: Mapping, transcript: string, lower: string, term: string, segs: seq<Segment>, from: nat)
    requires |term| > 0 && |lower| == |transcript|
    requires IndexOf(lower, term, from) == -1
    ensures Reported(m, transcript, lower, term, segs, from) == []
  {
    assert Occurrences(lower, term, from) == [];
  }

  /** The reported offsets are exactly the located non-overlapping
      occurrences of the term in the lower-cased transcript, in increasing
      order. */
  lemma {:induction false} HitsSpec(m: Mapping, transcript: string, term: string, segs: seq<Segment>)
    requires |term| > 0
    ensures var hs := Hits(m, transcript, term, segs);
      && (forall j, k :: 0 <= j < k < |hs| ==> hs[j] + |term| <= hs[k])
      && (forall o :: o in hs <==> o in Occurrences(ToLower(transcript), term, 0) && Locate(m, segs, o) != -1)
      && (forall k :: 0 <= k < |hs| ==> MatchAt(ToLower(transcript), term, hs[k]))
  {
    var occs := Occurrences(ToLower(transcript), term, 0);
    var hs := Hits(m, transcript, term, segs);
    OccurrencesSound(ToLower(transcript), term, 0);
    FilterKeepsSpacing(occs, Located(m, segs), |term|);
    forall o
      ensures o in hs <==> o in occs && Locate(m, segs, o) != -1
    {
      FilterMembers(occs, Located(m, segs), o);
    }
    forall k | 0 <= k < |hs|
      ensures MatchAt(ToLower(transcript), term, hs[k])
    {
      FilterMembers(occs, Located(m, segs), hs[k]);
      var a :| 0 <= a < |occs| && occs[a] == hs[k];
    }
  }

  /** The `k`-th rendered result belongs to the `k`-th offset: it carries
      its segment's start as timestamp and highlights the text at that
      offset. */
  lemma {:induction false} RenderSpec(transcript: string, term: string, m: Mapping, segs: seq<Segment>, hs: seq<nat>, k: nat,
                                      r: SearchResult)
    requires AllBelow(hs, |term|, |transcript|)
    requires forall k :: 0 <= k < |hs| ==> Locate(m, segs, hs[k]) != -1
    requires k < |hs| && r == Render(transcript, term, m, segs, hs)[k]
    ensures r.timestamp == segs[Locate(m, segs, hs[k])].start
    ensures r.termEnd - r.termStart == |term| && r.termEnd <= |r.context|
    ensures r.context[r.termStart..r.termEnd] == transcript[hs[k]..hs[k] + |term|]
    ensures r == ResultAt(transcript, term, segs[Locate(m, segs, hs[k])], hs[k])
    decreases k
  {
    if k == 0 {
      ResultAtSpec(transcript, term, segs[Locate(m, segs, hs[0])], hs[0], r);
    } else {
      RenderSpec(transcript, term, m, segs, hs[1..], k - 1, r);
    }
  }

  /** The reported offsets fit the transcript and each lies in a segment,
      so rendering them is defined result by result. */
  lemma HitsRenderable(m: Mapping, transcript: string, term: string, segs: seq<Segment>)
    requires |term| > 0
    ensures AllBelow(Hits(m, transcript, term, segs), |term|, |transcript|)
    ensures forall k :: 0 <= k < |Hits(m, transcript, term, segs)| ==>
              Locate(m, segs, Hits(m, transcript, term, segs)[k]) != -1
    ensures ResultsFor(m, transcript, term, segs)
         == Render(transcript, term, m, segs, Hits(m, transcript, term, segs))
  {
    var occs := Occurrences(ToLower(transcript), term, 0);
    OccurrencesFit(ToLower(transcript), term, 0);
    FilterBelow(occs, Located(m, segs), |term|, |transcript|);
  }

  /** The `k`-th result belongs to the `k`-th reported offset: it carries its
      segment's start as timestamp, and its highlighted slice is the matched
      text of the original transcript, which lower-cases to the term. It is
      the result `ResultAt` builds for that offset, so the window facts of
      `ResultAtSpec` hold of it too. */
  lemma ResultsForSpec(m: Mapping, transcript: string, term: string, segs: seq<Segment>, k: nat)
    requires |term| > 0
    requires k < |Hits(m, transcript, term, segs)|
    ensures |ResultsFor(m, transcript, term, segs)| == |Hits(m, transcript, term, segs)|
    ensures Hits(m, transcript, term, segs)[k] + |term| <= |transcript|
    ensures ResultsFor(m, transcript, term, segs)[k].timestamp
         == segs[Locate(m, segs, Hits(m, transcript, term, segs)[k])].start
    ensures ResultsFor(m, transcript, term, segs)[k].termEnd - ResultsFor(m, transcript, term, segs)[k].termStart
         == |term|
    ensures ResultsFor(m, transcript, term, segs)[k].termEnd <= |ResultsFor(m, transcript, term, segs)[k].context|
    ensures ResultsFor(m, transcript, term, segs)[k].Highlighted()
         == transcript[Hits(m, transcript, term, segs)[k]..Hits(m, transcript, term, segs)[k] + |term|]
    ensures ToLower(ResultsFor(m, transcript, term, segs)[k].Highlighted()) == term
    ensures ResultsFor(m, transcript, term, segs)[k]
         == ResultAt(transcript, term, segs[Locate(m, segs, Hits(m, transcript, term, segs)[k])],
                     Hits(m, transcript, term, segs)[k])
  {
    var hs := Hits(m, transcript, term, segs);
    HitsRenderable(m, transcript, term, segs);
    var r := ResultsFor(m, transcript, term, segs)[k];
    RenderSpec(transcript, term, m, segs, hs, k, r);
    HitMatches(m, transcript, term, segs, k, hs[k]);
    ToLowerSlice(transcript, hs[k], hs[k] + |term|);
  }

  /** A reported offset is a match of the term in the lower-cased transcript. */
  lemma HitMatches(m: Mapping, transcript: string, term: string, segs: seq<Segment>, k: nat, hit: nat)
    requires |term| > 0
    requires k < |Hits(m, transcript, term, segs)| && Hits(m, transcript, term, segs)[k] == hit
    ensures MatchAt(ToLower(transcript), term, hit)
  {
    HitsSpec(m, transcript, term, segs);
  }

  /** The loop of `searchInTranscript` from offset `from` on, as a
      recursion: each occurrence the scan meets contributes a result when the
      mapping locates it, and the scan resumes after the match. */
  function Scan(m: Mapping, transcript: string, lower: string, term: string, segs: seq<Segment>, from: nat): seq<SearchResult>
    requires |term| > 0 && |lower| == |transcript|
    decreases if from <= |transcript| then |transcript| - from else 0
  {
    var i := IndexOf(lower, term, from);
    if i == -1 then []
    else Piece(m, transcript, term, segs, i) + Scan(m, transcript, lower, term, segs, i + |term|)
  }

  /** One step of the scan: the match found at or after `from`
      contributes at most one result, and the scan resumes after it. */
  lemma ScanUnfold(m: Mapping, transcript: string, lower: string, term: string, segs: seq<Segment>,
                   from: nat, i: nat)
    requires |term| > 0 && |lower| == |transcript|
    requires IndexOf(lower, term, from) == i
    ensures i + |term| <= |transcript|
    ensures Scan(m, transcript, lower, term, segs, from)
         == Piece(m, transcript, term, segs, i) + Scan(m, transcript, lower, term, segs, i + |term|)
  {
  }

  /** The scan reports, in order, one result per located occurrence: it
      agrees with the declarative result list. */
  lemma {:induction false} ScanReports(m: Mapping, transcript: string, lower: string, term: string,
                                       segs: seq<Segment>, from: nat)
    requires |term| > 0 && |lower| == |transcript|
    ensures Scan(m, transcript, lower, term, segs, from) == Reported(m, transcript, lower, term, segs, from)
    decreases if from <= |transcript| then |transcript| - from else 0
  {
    var i := IndexOf(lower, term, from);
    if i != -1 {
      calc {
        Scan(m, transcript, lower, term, segs, from);
        == { ScanUnfold(m, transcript, lower, term, segs, from, i); }
        Piece(m, transcript, term, segs, i) + Scan(m, transcript, lower, term, segs, i + |term|);
        == { ScanReports(m, transcript, lower, term, segs, i + |term|); }
        Piece(m, transcript, term, segs, i) + Reported(m, transcript, lower, term, segs, i + |term|);
        == { ReportedStep(m, transcript, lower, term, segs, from, i); }
        Reported(m, transcript, lower, term, segs, from);
      }
    } else {
      ReportedEnd(m, transcript, lower, term, segs, from);
    }
  }

  /** One turn of the search loop: the results so far, extended by the
      result for this match when a segment owns it, together with what the
      rest of the scan finds make up the whole scan. */
  lemma SearchStep(m: Mapping, transcript: string, lower: string, term: string, segs: seq<Segment>, startIndex: nat,
                   index: nat, nextIndex: nat, segmentIndex: int, results: seq<SearchResult>,
                   extended: seq<SearchResult>)
    requires |term| > 0 && |lower| == |transcript|
    requires IndexOf(lower, term, startIndex) == index && nextIndex == index + |term|
    requires results + Scan(m, transcript, lower, term, segs, startIndex)
          == Scan(m, transcript, lower, term, segs, 0)
    requires segmentIndex == Locate(m, segs, index)
    requires extended == if segmentIndex == -1 then results
                         else results + [ResultAt(transcript, term, segs[segmentIndex], index)]
    ensures startIndex < nextIndex <= |lower|
    ensures extended + Scan(m, transcript, lower, term, segs, nextIndex)
         == Scan(m, transcript, lower, term, segs, 0)
  {
    ScanUnfold(m, transcript, lower, term, segs, startIndex, index);
    var piece := Piece(m, transcript, term, segs, index);
    PieceAppends(m, transcript, term, segs, index, segmentIndex, results, extended);
    ConcatAssociates(results, piece, Scan(m, transcript, lower, term, segs, nextIndex));
  }

  lemma PieceAppends(m: Mapping, transcript: string, term: string, segs: seq<Segment>, index: nat, segmentIndex: int,
                     results: seq<SearchResult>, extended: seq<SearchResult>)
    requires index + |term| <= |transcript|
    requires segmentIndex == Locate(m, segs, index)
    requires extended == if segmentIndex == -1 then results
                         else results + [ResultAt(transcript, term, segs[segmentIndex], index)]
    ensures extended == results + Piece(m, transcript, term, segs, index)
  {
  }

  /** `searchInTranscript`: scans the lower-cased transcript for the term,
      resuming after each match, and reports the located ones. With
      `CharsOnly` this is the code as written; `WithSeparators` is the
      corrected attribution. */
  method SearchInTranscript(m: Mapping, term: string, transcript: string, segments: seq<Segment>)
    returns (results: seq<SearchResult>)
    requires |term| > 0
    ensures results == ResultsFor(m, transcript, term, segments)
  {
    var lower := ToLower(transcript);
    results := [];
    var startIndex: nat := 0;
    var index := IndexOf(lower, term, startIndex);
    ghost var whole := Scan(m, transcript, lower, term, segments, 0);
    while index != -1
      invariant startIndex <= |lower|
      invariant index == IndexOf(lower, term, startIndex)
      invariant results + Scan(m, transcript, lower, term, segments, startIndex) == whole
      decreases |lower| - startIndex
    {
      ghost var before, previousStart := results, startIndex;
      var segmentIndex := Locate(m, segments, index);
      if segmentIndex != -1 {
        var segment := segments[segmentIndex];
        results := results + [ResultAt(transcript, term, segment, index)];
      }
      startIndex := index + |term|;
      SearchStep(m, transcript, lower, term, segments, previousStart, index, startIndex, segmentIndex, before, results);
      index := IndexOf(lower, term, startIndex);
    }
    ScanReports(m, transcript, lower, term, segments, 0);
  }

  /** What the popup shows after a click on the search button. */
  datatype Display = Unchanged | Notice(text: string) | Results(results: seq<SearchResult>)

  const NoTranscriptNotice := "No transcript available. Please transcribe the video first."

  /** The usage event a search sends to the background script. */
  function SearchEvent(term: string): Usage.Event {
    Usage.Event("search", Some(Usage.EventData(None, Some(term))))
  }

  /** The search button handler. The input is trimmed and lower-cased; an
      empty term does nothing. Otherwise the search event is sent before
      storage is read, and a missing or empty transcript, or missing
      segments, gives the notice instead of results. */
  method HandleSearch(m: Mapping, input: string, storedTranscript: Option<string>,
                      storedSegments: Option<seq<Segment>>)
    returns (tracked: Option<Usage.Event>, display: Display)
    ensures tracked.None? <==> Trim(input) == []
    ensures tracked.None? ==> display == Unchanged
    ensures tracked.Some? ==> tracked.value == SearchEvent(ToLower(Trim(input)))
    ensures display.Notice? <==> tracked.Some? && (storedTranscript.None? || storedTranscript.value == []
                                                   || storedSegments.None?)
    ensures display.Notice? ==> display.text == NoTranscriptNotice
    ensures tracked.Some? && storedTranscript.Some? && storedTranscript.value != [] && storedSegments.Some?
            ==> display.Results?
    ensures display.Results? ==>
              && storedTranscript.Some? && storedSegments.Some? && Trim(input) != []
              && display.results == ResultsFor(m, storedTranscript.value, ToLower(Trim(input)), storedSegments.value)
  {
    var term := ToLower(Trim(input));
    if term == [] {
      return None, Unchanged;
    }
    tracked := Some(SearchEvent(term));
    if storedTranscript.None? || storedTranscript.value == [] || storedSegments.None? {
      display := Notice(NoTranscriptNotice);
      return;
    }
    var results := SearchInTranscript(m, term, storedTranscript.value, storedSegments.value);
    display := Results(results);
  }

  /** Under `CharsOnly` the offsets from the last segment's running total on
      belong to no segment, although the joined transcript is longer by one
      separator per segment boundary. */
  lemma CharsOnlyLosesTail(segs: seq<Segment>, p: nat)
    requires segs != [] && |JoinTexts(segs)| - (|segs| - 1) <= p
    ensures Locate(CharsOnly, segs, p) == -1
  {
  }

  /** Two one-letter caption segments, "a" then "b". */
  const TwoLetters := [Segment(0.0, 1.0, "a"), Segment(1.0, 2.0, "b")]

  /** Their joined transcript is "a b", which is already lower case, and the
      search for "b" finds one match, at offset 2. */
  lemma TwoLettersTranscript()
    ensures JoinTexts(TwoLetters) == "a b"
    ensures ToLower("a b") == "a b"
    ensures Occurrences("a b", "b", 0) == [2]
  {
    assert TwoLetters[..1] == [Segment(0.0, 1.0, "a")];
    assert JoinTexts(TwoLetters[..1]) == "a";
    assert JoinTexts(TwoLetters) == "a" + " " + "b" == "a b";
    assert "a b"[0..1] == "a" && "a b"[1..2] == " ";
    IndexOfSpec("a b", "b", 0);
    assert !MatchAt("a b", "b", 0) && !MatchAt("a b", "b", 1);
    IndexOfSpec("a b", "b", 3);
  }

  /** Offset 2 is the "b": the code as written attributes it to no segment,
      the separator-aware mapping to the second one. */
  lemma TwoLettersLocate()
    ensures Locate(CharsOnly, TwoLetters, 2) == -1
    ensures Locate(WithSeparators, TwoLetters, 2) == 1
  {
    SeparatorAwareIsExact(TwoLetters, 1, 2);
  }

  /** The transcript "a b" of the segments "a" and "b": searching for "b"
      finds a match at offset 2, yet the code as written reports nothing,
      while the separator-aware mapping reports it in the second segment. */
  lemma TrailingMatchDropped()
    ensures Occurrences(ToLower(JoinTexts(TwoLetters)), "b", 0) == [2]
    ensures ResultsFor(CharsOnly, JoinTexts(TwoLetters), "b", TwoLetters) == []
    ensures Hits(WithSeparators, JoinTexts(TwoLetters), "b", TwoLetters) == [2]
    ensures |ResultsFor(WithSeparators, JoinTexts(TwoLetters), "b", TwoLetters)| == 1
  {
    TwoLettersTranscript();
    TwoLettersLocate();
    HitsRenderable(CharsOnly, "a b", "b", TwoLetters);
    HitsRenderable(WithSeparators, "a b", "b", TwoLetters);
    assert Filter([2], Located(CharsOnly, TwoLetters)) == [];
    assert Filter([2], Located(WithSeparators, TwoLetters)) == [2];
  }

  /** Every offset of the joined transcript lies in some segment under the
      separator-aware mapping. */
  lemma SeparatorAwareLocatesAll(segs: seq<Segment>, p: nat)
    requires p < |JoinTexts(segs)|
    ensures Locate(WithSeparators, segs, p) != -1
  {
  }

  /** The separator-aware mapping attributes each character of segment `k`'s
      text, and the separator after it, to segment `k`. */
  lemma SeparatorAwareIsExact(segs: seq<Segment>, k: nat, p: nat)
    requires k < |segs| && JoinedStart(segs, k) <= p <= JoinedStart(segs, k) + |segs[k].text|
    ensures Locate(WithSeparators, segs, p) == k
  {
    BoundaryMonotone(WithSeparators, segs, k + 1, |segs|);
    var r := Locate(WithSeparators, segs, p);
    if r < k {
      BoundaryMonotone(WithSeparators, segs, r + 1, k);
    } else if r > k {
      BoundaryMonotone(WithSeparators, segs, k + 1, r);
    }
  }

  /** `CharsOnly` never attributes an offset to an earlier segment than the
      separator-aware mapping does: its running totals lag behind by one per
      segment, so attributions drift towards later segments. */
  lemma CharsOnlyDriftsForward(segs: seq<Segment>, p: nat)
    ensures Locate(CharsOnly, segs, p) != -1 ==>
              0 <= Locate(WithSeparators, segs, p) <= Locate(CharsOnly, segs, p)
  {
    var c := Locate(CharsOnly, segs, p);
    if c != -1 {
      assert Boundary(CharsOnly, segs, |segs|) <= Boundary(WithSeparators, segs, |segs|);
      var w := Locate(WithSeparators, segs, p);
      if w > c {
        BoundaryMonotone(WithSeparators, segs, c + 1, w);
      }
    }
  }

  /** With the separator-aware mapping, searching the joined transcript
      reports every non-overlapping occurrence of the term: nothing is
      dropped. */
  lemma SeparatorAwareReportsAll(transcript: string, term: string, segs: seq<Segment>)
    requires |term| > 0 && transcript == JoinTexts(segs)
    ensures Hits(WithSeparators, transcript, term, segs) == Occurrences(ToLower(transcript), term, 0)
    ensures |ResultsFor(WithSeparators, transcript, term, segs)| == |Occurrences(ToLower(transcript), term, 0)|
  {
    var occs := Occurrences(ToLower(transcript), term, 0);
    OccurrencesFit(ToLower(transcript), term, 0);
    forall k | 0 <= k < |occs|
      ensures Located(WithSeparators, segs)(occs[k])
    {
      SeparatorAwareLocatesAll(segs, occs[k]);
    }
    FilterKeepsAll(occs, Located(WithSeparators, segs));
    HitsRenderable(WithSeparators, transcript, term, segs);
  }
}
