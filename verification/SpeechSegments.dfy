/** From frame probabilities to speech segments (`whisper_vad_segments_from_probs`): the passes that merge, filter and
pad what the state machine has found, and the whole procedure. */
module SpeechSegments {
  import opened SpeechDetection
  import opened SpeechStretches

  // ---------------------------------------------------------------- Merging and filtering

  /** Joins the second segment to the first. */
  function Join(s: seq<Segment>): seq<Segment>
    requires |s| > 1
  {
    [Segment(s[0].start, s[1].end)] + s[2..]
  }

  function Merged(s: seq<Segment>): seq<Segment>
    decreases |s|
  {
    if |s| < 2 then s
    else if s[1].start - s[0].end < MAX_MERGE_GAP then Merged(Join(s))
    else [s[0]] + Merged(s[1..])
  }

  predicate Contains(x: Segment, y: Segment) {
    x.start <= y.start && y.end <= x.end
  }

  ghost predicate CoveredBy(r: seq<Segment>, x: Segment) {
    exists y :: y in r && Contains(y, x)
  }

  ghost predicate Covers(r: seq<Segment>, s: seq<Segment>) {
    forall x | x in s :: CoveredBy(r, x)
  }

  lemma CoversThrough(r: seq<Segment>, t: seq<Segment>, s: seq<Segment>)
    requires Covers(r, t) && Covers(t, s)
    ensures Covers(r, s)
  {
    forall x | x in s
      ensures CoveredBy(r, x)
    {
      assert CoveredBy(t, x);
      var y :| y in t && Contains(y, x);
      assert CoveredBy(r, y);
      var z :| z in r && Contains(z, y);
      assert Contains(z, x);
    }
  }

  lemma JoinOk(s: seq<Segment>, limit: int)
    requires |s| > 1 && Ordered(s, 0, limit)
    ensures Ordered(Join(s), 0, limit) && Covers(Join(s), s)
  {
    var t := Join(s);
    forall x | x in s
      ensures CoveredBy(t, x)
    {
      var i :| 0 <= i < |s| && s[i] == x;
      assert Contains(t[if i < 2 then 0 else i - 1], x);
    }
  }

  lemma ConsOrdered(x: Segment, r: seq<Segment>, gap: int, limit: int)
    requires Ordered(r, gap, limit) && 0 <= x.start < x.end <= limit && gap >= 0
    requires r != [] ==> x.end + gap <= r[0].start
    ensures Ordered([x] + r, gap, limit)
  {
    var t := [x] + r;
    forall i, j | 0 <= i < j < |t|
      ensures t[i].end + gap <= t[j].start
    {
      if i == 0 && j > 1 {
        assert r[0].end + gap <= r[j - 1].start;
      }
    }
  }

  lemma ConsCovers(x: Segment, r: seq<Segment>, s: seq<Segment>)
    requires Covers(r, s)
    ensures Covers([x] + r, [x] + s)
  {
    forall y | y in [x] + s
      ensures CoveredBy([x] + r, y)
    {
      if y in s {
        assert CoveredBy(r, y);
        var z :| z in r && Contains(z, y);
        assert z in [x] + r;
      } else {
        assert x in [x] + r && Contains(x, y);
      }
    }
  }

  lemma OrderedTail(s: seq<Segment>, gap: int, limit: int)
    requires s != [] && Ordered(s, gap, limit)
    ensures Ordered(s[1..], gap, limit)
  {
  }

  /** Merging leaves gaps of at least 200 ms, and covers what was there. */
  lemma {:induction false} MergedIsSpaced(s: seq<Segment>, limit: int)
    requires Ordered(s, 0, limit)
    ensures Ordered(Merged(s), MAX_MERGE_GAP, limit) && Covers(Merged(s), s)
    ensures |Merged(s)| == 0 <==> |s| == 0
    ensures s != [] ==> Merged(s)[0].start == s[0].start
    decreases |s|
  {
    hide Ordered, Covers;
    if |s| < 2 {
      CoversSelf(s);
      FewAreSpaced(s, limit);
    } else if s[1].start - s[0].end < MAX_MERGE_GAP {
      JoinOk(s, limit);
      MergedIsSpaced(Join(s), limit);
      CoversThrough(Merged(s), Join(s), s);
    } else {
      OrderedTail(s, 0, limit);
      MergedIsSpaced(s[1..], limit);
      FirstInside(s, 0, limit);
      ConsOrdered(s[0], Merged(s[1..]), MAX_MERGE_GAP, limit);
      ConsCovers(s[0], Merged(s[1..]), s[1..]);
      assert [s[0]] + s[1..] == s;
    }
  }

  lemma FewAreSpaced(s: seq<Segment>, limit: int)
    requires Ordered(s, 0, limit) && |s| < 2
    ensures Ordered(s, MAX_MERGE_GAP, limit)
  {
  }

  lemma FirstInside(s: seq<Segment>, gap: nat, limit: int)
    requires s != [] && Ordered(s, gap, limit)
    ensures 0 <= s[0].start < s[0].end <= limit
  {
  }

  lemma CoversSelf(s: seq<Segment>)
    ensures Covers(s, s)
  {
    forall x | x in s
      ensures CoveredBy(s, x)
    {
      assert Contains(x, x);
    }
  }

  /** Two neighbours of the list, one that ends at `e` and one that starts at `b`. */
  ghost predicate IsGap(s: seq<Segment>, e: int, b: int) {
    exists i :: 0 <= i < |s| - 1 && s[i].end == e && s[i + 1].start == b
  }

  lemma GapsOfJoin(s: seq<Segment>, e: int, b: int)
    requires |s| > 1 && s[1].start - s[0].end < MAX_MERGE_GAP <= b - e
    ensures IsGap(Join(s), e, b) <==> IsGap(s, e, b)
  {
    var t := Join(s);
    if IsGap(s, e, b) {
      var i :| 0 <= i < |s| - 1 && s[i].end == e && s[i + 1].start == b;
      assert t[i - 1].end == e && t[i].start == b;
    }
    if i :| 0 <= i < |t| - 1 && t[i].end == e && t[i + 1].start == b {
      assert s[i + 1].end == e && s[i + 1 + 1].start == b;
    }
  }

  lemma GapsOfCons(x: Segment, s: seq<Segment>, e: int, b: int)
    ensures IsGap([x] + s, e, b) <==> (s != [] && x.end == e && s[0].start == b) || IsGap(s, e, b)
  {
    var t := [x] + s;
    if s != [] && x.end == e && s[0].start == b {
      assert t[0].end == e && t[0 + 1].start == b;
    }
    if i :| 0 <= i < |s| - 1 && s[i].end == e && s[i + 1].start == b {
      assert t[i + 1].end == e && t[i + 1 + 1].start == b;
    }
    if i :| 0 <= i < |t| - 1 && t[i].end == e && t[i + 1].start == b {
      assert i > 0 ==> s[i - 1].end == e && s[i - 1 + 1].start == b;
    }
  }

  /** Merging closes exactly the gaps of less than 200 ms: all others stay, at the same places. */
  lemma {:induction false} MergedGaps(s: seq<Segment>, e: int, b: int)
    ensures |Merged(s)| == 0 <==> |s| == 0
    ensures s != [] ==> Merged(s)[0].start == s[0].start && Merged(s)[|Merged(s)| - 1].end == s[|s| - 1].end
    ensures IsGap(Merged(s), e, b) <==> IsGap(s, e, b) && b - e >= MAX_MERGE_GAP
    decreases |s|
  {
    hide IsGap;
    if |s| < 2 {
      NoGaps(s, e, b);
    } else if s[1].start - s[0].end < MAX_MERGE_GAP {
      MergedGaps(Join(s), e, b);
      if b - e >= MAX_MERGE_GAP {
        GapsOfJoin(s, e, b);
      }
    } else {
      MergedGaps(s[1..], e, b);
      GapsOfCons(s[0], s[1..], e, b);
      GapsOfCons(s[0], Merged(s[1..]), e, b);
      assert [s[0]] + s[1..] == s;
    }
  }

  lemma NoGaps(s: seq<Segment>, e: int, b: int)
    requires |s| < 2
    ensures !IsGap(s, e, b)
  {
  }

  /** A merged segment starts where one segment starts, and ends where one ends. */
  ghost predicate IsSpan(s: seq<Segment>, y: Segment) {
    exists u, v :: u in s && v in s && y.start == u.start && y.end == v.end
  }

  lemma {:induction false} MergedSpans(s: seq<Segment>, y: Segment)
    requires y in Merged(s)
    ensures IsSpan(s, y)
    decreases |s|
  {
    if |s| < 2 {
      assert y.start == y.start && y.end == y.end;
    } else if s[1].start - s[0].end < MAX_MERGE_GAP {
      var t := Join(s);
      MergedSpans(t, y);
      var u, v :| u in t && v in t && y.start == u.start && y.end == v.end;
      var u' := if u == t[0] then s[0] else u;
      var v' := if v == t[0] then s[1] else v;
      assert u' in s && v' in s && y.start == u'.start && y.end == v'.end;
    } else if y == s[0] {
      assert y in s && y.start == y.start && y.end == y.end;
    } else {
      MergedSpans(s[1..], y);
    }
  }

  method Merge(s: seq<Segment>) returns (r: seq<Segment>)
    ensures r == Merged(s)
  {
    r := s;
    var i := 0;
    while i < |r| - 1
      invariant i <= |r| && r[..i] + Merged(r[i..]) == Merged(s)
      decreases |r| - i
    {
      var before := r;
      if r[i + 1].start - r[i].end < MAX_MERGE_GAP {
        r := r[..i] + [Segment(r[i].start, r[i + 1].end)] + r[i + 2..];
        assert r[i..] == Join(before[i..]);
      } else {
        assert r[i..][1..] == r[i + 1..] && r[..i + 1] == r[..i] + [r[i]];
        i := i + 1;
      }
    }
    assert r[..i] + r[i..] == r;
  }

  /** Drops the segments that are too short. */
  function Filtered(s: seq<Segment>, minSpeech: nat): seq<Segment> {
    if s == [] then []
    else if s[0].end - s[0].start < minSpeech then Filtered(s[1..], minSpeech)
    else [s[0]] + Filtered(s[1..], minSpeech)
  }

  ghost predicate AllLong(s: seq<Segment>, minSpeech: nat) {
    forall i | 0 <= i < |s| :: s[i].end - s[i].start >= minSpeech
  }

  /** Filtering keeps the gaps, drops no long segment, and leaves only those. */
  lemma {:induction false} FilteredIsLong(s: seq<Segment>, minSpeech: nat, gap: nat, limit: int)
    requires Ordered(s, gap, limit)
    ensures Ordered(Filtered(s, minSpeech), gap, limit) && AllLong(Filtered(s, minSpeech), minSpeech)
    ensures forall x :: x in Filtered(s, minSpeech) <==> x in s && x.end - x.start >= minSpeech
  {
    hide Ordered;
    if s != [] {
      OrderedTail(s, gap, limit);
      FilteredIsLong(s[1..], minSpeech, gap, limit);
      assert s == [s[0]] + s[1..];
      if s[0].end - s[0].start >= minSpeech {
        var r := Filtered(s[1..], minSpeech);
        if r != [] {
          assert r[0] in s[1..];
          FirstGap(s, gap, limit, r[0]);
        }
        FirstInside(s, gap, limit);
        ConsOrdered(s[0], r, gap, limit);
      }
    } else {
      NothingOrdered(gap, limit);
    }
  }

  lemma NothingOrdered(gap: int, limit: int)
    ensures Ordered([], gap, limit)
  {
  }

  lemma FirstGap(s: seq<Segment>, gap: nat, limit: int, x: Segment)
    requires Ordered(s, gap, limit) && s != [] && x in s[1..]
    ensures s[0].end + gap <= x.start
  {
  }

  method Filter(s: seq<Segment>, minSpeech: nat) returns (r: seq<Segment>)
    ensures r == Filtered(s, minSpeech)
  {
    r := s;
    var i := 0;
    while i < |r|
      invariant i <= |r| && r[..i] + Filtered(r[i..], minSpeech) == Filtered(s, minSpeech)
      decreases |r| - i
    {
      var before := r;
      assert before[i..][1..] == before[i + 1..];
      if r[i].end - r[i].start < minSpeech {
        r := r[..i] + r[i + 1..];
        assert r[i..] == before[i + 1..];
      } else {
        assert r[..i + 1] == r[..i] + [r[i]];
        i := i + 1;
      }
    }
    assert r[..i] + r[i..] == r;
  }

  // ---------------------------------------------------------------- Padding and rounding

  function Earlier(sample: int, amount: int): int {
    if sample > amount then sample - amount else 0
  }

  function Later(sample: int, amount: int, audio: int): int {
    if sample + amount < audio then sample + amount else audio
  }

  /** Where the gap between two segments begins and ends after padding. */
  function GapStart(a: Segment, b: Segment, pad: nat, audio: int): int {
    if b.start - a.end < 2 * pad then a.end + (b.start - a.end) / 2 else Later(a.end, pad, audio)
  }

  function GapEnd(a: Segment, b: Segment, pad: nat): int {
    Earlier(b.start, if b.start - a.end < 2 * pad then (b.start - a.end) / 2 else pad)
  }

  function PaddedStart(s: seq<Segment>, i: nat, pad: nat): int
    requires i < |s|
  {
    if i == 0 then Earlier(s[0].start, pad) else GapEnd(s[i - 1], s[i], pad)
  }

  function Padded(s: seq<Segment>, i: nat, pad: nat, audio: int): Segment
    requires i < |s|
  {
    Segment(PaddedStart(s, i, pad),
      if i < |s| - 1 then GapStart(s[i], s[i + 1], pad, audio) else Later(s[i].end, pad, audio))
  }

  /** Rounds to hundredths of a second. */
  function SamplesToCs(samples: int): int {
    (samples as real / SAMPLE_RATE as real * 100.0 + 0.5).Floor
  }

  function Rounded(x: Segment): Segment {
    Segment(SamplesToCs(x.start), SamplesToCs(x.end))
  }

  lemma RoundingIsMonotone(x: int, y: int)
    requires x <= y
    ensures SamplesToCs(x) <= SamplesToCs(y)
    ensures x >= 0 ==> SamplesToCs(x) >= 0
  {
  }

  /** Padding widens the segments, keeps them apart, and stays within the audio. */
  lemma PaddingWidens(s: seq<Segment>, i: nat, pad: nat, audio: int)
    requires Ordered(s, 0, audio) && i < |s|
    ensures Contains(Padded(s, i, pad, audio), s[i])
    ensures 0 <= Padded(s, i, pad, audio).start && Padded(s, i, pad, audio).end <= audio
    ensures i + 1 < |s| ==> Padded(s, i, pad, audio).end <= Padded(s, i + 1, pad, audio).start
  {
    assert 0 <= s[i].start < s[i].end <= audio;
    assert i > 0 ==> 0 <= s[i - 1].start < s[i - 1].end <= s[i].start;
    assert i + 1 < |s| ==> s[i].end <= s[i + 1].start < s[i + 1].end <= audio;
  }

  /** A gap gets shorter by the same on both sides: by the padding, or, where that does not fit, so that it is closed
      but for one sample if its length is odd. Before the first segment and after the last the whole padding is added,
      as far as the audio goes. */
  lemma PaddingIsExact(s: seq<Segment>, i: nat, pad: nat, audio: int)
    requires Ordered(s, 0, audio) && i < |s|
    ensures i == 0 ==> Padded(s, i, pad, audio).start == if s[i].start >= pad then s[i].start - pad else 0
    ensures i == |s| - 1 ==>
      Padded(s, i, pad, audio).end == if s[i].end + pad <= audio then s[i].end + pad else audio
    ensures i < |s| - 1 ==>
      var x, y, gap := Padded(s, i, pad, audio), Padded(s, i + 1, pad, audio), s[i + 1].start - s[i].end;
      && x.end - s[i].end == s[i + 1].start - y.start
      && y.start - x.end == if gap < 2 * pad then gap % 2 else gap - 2 * pad
  {
    assert 0 <= s[i].start < s[i].end <= audio;
    assert i + 1 < |s| ==> s[i].end <= s[i + 1].start < s[i + 1].end <= audio;
  }

  /** The segments of the result, in hundredths of a second: in order, not overlapping, within the audio, each around
      the segment that it was made from. */
  lemma ResultIsOrdered(s: seq<Segment>, r: seq<Segment>, pad: nat, audio: int)
    requires Ordered(s, 0, audio) && |r| == |s| && forall i | 0 <= i < |s| :: r[i] == Rounded(Padded(s, i, pad, audio))
    ensures forall i | 0 <= i < |r| ::
      0 <= r[i].start <= r[i].end <= SamplesToCs(audio) && Contains(r[i], Rounded(s[i]))
    ensures forall i | 0 <= i < |r| - 1 :: r[i].end <= r[i + 1].start
  {
    hide Ordered, SamplesToCs, Padded;
    forall i | 0 <= i < |r|
      ensures 0 <= r[i].start <= r[i].end <= SamplesToCs(audio) && Contains(r[i], Rounded(s[i]))
      ensures i < |r| - 1 ==> r[i].end <= r[i + 1].start
    {
      PaddingWidens(s, i, pad, audio);
      SegmentsAreNotEmpty(s, i, audio);
      var x := Padded(s, i, pad, audio);
      RoundingIsMonotone(0, x.start);
      RoundingIsMonotone(x.start, s[i].start);
      RoundingIsMonotone(s[i].start, s[i].end);
      RoundingIsMonotone(s[i].end, x.end);
      RoundingIsMonotone(x.end, audio);
      if i < |r| - 1 {
        RoundingIsMonotone(x.end, Padded(s, i + 1, pad, audio).start);
      }
    }
  }

  lemma SegmentsAreNotEmpty(s: seq<Segment>, i: nat, audio: int)
    requires Ordered(s, 0, audio) && i < |s|
    ensures s[i].start < s[i].end
  {
  }

  method PadAndRound(s: seq<Segment>, pad: nat, audio: int) returns (segments: seq<Segment>)
    requires Ordered(s, 0, audio)
    ensures |segments| == |s| && forall i | 0 <= i < |s| :: segments[i] == Rounded(Padded(s, i, pad, audio))
  {
    hide Ordered, Rounded, SamplesToCs;
    var speeches := s;
    segments := [];
    for i := 0 to |s|
      invariant |speeches| == |s| && |segments| == i
      invariant forall k | i <= k < |s| :: speeches[k].end == s[k].end
      invariant forall k | i < k < |s| :: speeches[k].start == s[k].start
      invariant 0 < i < |s| ==> speeches[i].start == PaddedStart(s, i, pad)
      invariant i == 0 ==> speeches == s
      invariant forall k | 0 <= k < i :: segments[k] == Rounded(Padded(s, k, pad, audio))
    {
      var current := speeches[i];
      if i == 0 {
        current := current.(start := Earlier(current.start, pad));
      }
      if i < |s| - 1 {
        var next := speeches[i + 1];
        var silenceDuration := next.start - current.end;
        if silenceDuration < 2 * pad {
          current := current.(end := current.end + silenceDuration / 2);
          next := next.(start := Earlier(next.start, silenceDuration / 2));
        } else {
          current := current.(end := Later(current.end, pad, audio));
          next := next.(start := Earlier(next.start, pad));
        }
        speeches := speeches[i + 1 := next];
      } else {
        current := current.(end := Later(current.end, pad, audio));
      }
      speeches := speeches[i := current];
      segments := segments + [Rounded(current)];
    }
  }

  // ---------------------------------------------------------------- The whole procedure

  /** The frame lies in a stretch of at most `minSpeech`. */
  ghost predicate InShort(frames: seq<Frame>, p: Params, k: nat) {
    exists x :: IsStretch(frames, p, x) && x.first <= k < Stop(x, |frames|) && Length(p, x, |frames|) <= p.minSpeech
  }

  ghost predicate IsAccounted(frames: seq<Frame>, p: Params, s: seq<Segment>, k: nat) {
    IsWithin(s, SampleOf(p, k)) || InShort(frames, p, k) || AtCut(frames, p, k)
  }

  /** A segment starts where a stretch starts, and ends where one ends. */
  ghost predicate SpansStretches(frames: seq<Frame>, p: Params, y: Segment) {
    exists u, v :: IsStretch(frames, p, u) && IsStretch(frames, p, v) && y.start == SampleOf(p, u.first) &&
      y.end == SampleOf(p, Stop(v, |frames|))
  }

  lemma KeptSpansStretches(frames: seq<Frame>, p: Params, y: Segment)
    requires FramesOk(frames) && p.window > 0 && y in Merged(Detected(frames, p))
    ensures SpansStretches(frames, p, y)
  {
    hide SampleOf, Detected, Merged, IsStretch;
    var s := Detected(frames, p);
    MergedSpans(s, y);
    var u, v :| u in s && v in s && y.start == u.start && y.end == v.end;
    var x := DetectedIsStretch(frames, p, u);
    var z := DetectedIsStretch(frames, p, v);
  }

  /** A segment that filtering drops was made of short stretches only. */
  lemma SpeechIsKept(frames: seq<Frame>, p: Params, kept: seq<Segment>, k: nat)
    requires FramesOk(frames) && p.window > 0 && k < |frames| && frames[k].speech
    requires Covers(Merged(Detected(frames, p)), Detected(frames, p))
    requires forall y :: y in kept <==> y in Merged(Detected(frames, p)) && y.end - y.start >= p.minSpeech
    ensures IsAccounted(frames, p, kept, k)
  {
    hide SampleOf, Detected, Merged, IsStretch, Stop, AtCut;
    var s, sample := Detected(frames, p), SampleOf(p, k);
    SpeechIsDetected(frames, p, k);
    if IsWithin(s, sample) {
      var y :| y in s && y.start <= sample < y.end;
      assert CoveredBy(Merged(s), y);
      var z :| z in Merged(s) && Contains(z, y);
      if z !in kept {
        var x := DetectedIsStretch(frames, p, y);
        ShortStretch(frames, p, x, k);
      }
    } else if InLeftOut(frames, p, k) {
      var x :| IsStretch(frames, p, x) && x.first <= k < Stop(x, |frames|) && !IsKept(p, x, |frames|);
    }
  }

  lemma ShortStretch(frames: seq<Frame>, p: Params, x: Stretch, k: nat)
    requires p.window > 0 && IsStretch(frames, p, x)
    requires var y := SegmentOf(p, x, |frames|); y.start <= SampleOf(p, k) < y.end && y.end - y.start <= p.minSpeech
    ensures InShort(frames, p, k)
  {
    hide SampleOf, IsStretch;
    SamplesCompare(p, k, x.first);
    SamplesCompare(p, k, Stop(x, |frames|));
  }

  /** A time in hundredths of a second lies in one of the rounded segments. */
  ghost predicate IsWithinTimes(segments: seq<Segment>, time: int) {
    exists i :: 0 <= i < |segments| && segments[i].start <= time <= segments[i].end
  }

  lemma KeptIsWithinTimes(kept: seq<Segment>, segments: seq<Segment>, sample: int)
    requires |segments| == |kept| && forall i | 0 <= i < |kept| :: Contains(segments[i], Rounded(kept[i]))
    requires IsWithin(kept, sample)
    ensures IsWithinTimes(segments, SamplesToCs(sample))
  {
    hide SamplesToCs;
    var y :| y in kept && y.start <= sample < y.end;
    var i :| 0 <= i < |kept| && kept[i] == y;
    assert Contains(segments[i], Rounded(kept[i]));
    RoundingIsMonotone(y.start, sample);
    RoundingIsMonotone(sample, y.end);
  }

  /** The whole of `whisper_vad_segments_from_probs`; `kept` are the segments before padding. No speech is lost but in
      stretches of at most `minSpeech`, and at frames where a stretch is cut. */
  method SegmentsFromProbs(frames: seq<Frame>, p: Params) returns (segments: seq<Segment>, ghost kept: seq<Segment>)
    requires FramesOk(frames) && p.window > 0
    ensures kept == Filtered(Merged(Detected(frames, p)), p.minSpeech)
    ensures Ordered(kept, MAX_MERGE_GAP, SampleOf(p, |frames|)) && AllLong(kept, p.minSpeech)
    ensures forall y | y in kept :: SpansStretches(frames, p, y)
    ensures |segments| == |kept|
    ensures forall i | 0 <= i < |segments| ::
      0 <= segments[i].start <= segments[i].end <= SamplesToCs(SampleOf(p, |frames|)) &&
        Contains(segments[i], Rounded(kept[i]))
    ensures forall i | 0 <= i < |segments| - 1 :: segments[i].end <= segments[i + 1].start
    ensures forall k: nat | k < |frames| && frames[k].speech ::
      IsWithinTimes(segments, SamplesToCs(SampleOf(p, k))) || InShort(frames, p, k) || AtCut(frames, p, k)
  {
    hide Ordered, SampleOf, Rounded, Padded, Detected, Merged, Filtered, Contains, SamplesToCs, AllLong, Covers;
    hide IsWithin, IsWithinTimes, InShort, AtCut, SpansStretches;
    var audio := SampleOf(p, |frames|);
    var speeches := Detect(frames, p);
    DetectedAreOrdered(frames, p);
    MergedIsSpaced(speeches, audio);
    FilteredIsLong(Merged(speeches), p.minSpeech, MAX_MERGE_GAP, audio);
    speeches := Merge(speeches);
    speeches := Filter(speeches, p.minSpeech);
    kept := speeches;
    WiderIsOrdered(kept, MAX_MERGE_GAP, audio);
    segments := PadAndRound(speeches, p.pad, audio);
    ResultIsOrdered(kept, segments, p.pad, audio);
    forall k: nat | k < |frames| && frames[k].speech
      ensures IsWithinTimes(segments, SamplesToCs(SampleOf(p, k))) || InShort(frames, p, k) || AtCut(frames, p, k)
    {
      SpeechIsKept(frames, p, kept, k);
      if IsWithin(kept, SampleOf(p, k)) {
        KeptIsWithinTimes(kept, segments, SampleOf(p, k));
      }
    }
    forall y | y in kept
      ensures SpansStretches(frames, p, y)
    {
      KeptSpansStretches(frames, p, y);
    }
  }

  lemma WiderIsOrdered(s: seq<Segment>, gap: nat, limit: int)
    requires Ordered(s, gap, limit)
    ensures Ordered(s, 0, limit)
  {
  }
}
