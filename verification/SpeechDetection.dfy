/** The state machine of `whisper_vad_segments_from_probs`, which finds segments of speech in the frame probabilities.
A frame is abstracted to whether its probability is at or above the threshold, and whether it is below the lower
threshold. */
module SpeechDetection {

  datatype Frame = Frame(speech: bool, silent: bool)

  datatype Segment = Segment(start: int, end: int)

  /** Durations in samples. */
  datatype Params = Params(window: nat, minSilence: nat, minSpeech: nat, maxSpeech: nat, pad: nat)

  const SAMPLE_RATE: nat := 16000
  const MIN_SILENCE_AT_MAX: nat := SAMPLE_RATE * 98 / 1000
  const MAX_MERGE_GAP: nat := SAMPLE_RATE * 200 / 1000

  ghost predicate FramesOk(frames: seq<Frame>) {
    forall i | 0 <= i < |frames| :: !(frames[i].speech && frames[i].silent)
  }

  function SampleOf(p: Params, i: nat): nat {
    p.window * i
  }

  lemma {:induction false} SampleGrows(p: Params, i: nat, j: nat)
    requires i <= j
    ensures SampleOf(p, i) <= SampleOf(p, j)
    ensures i < j && p.window > 0 ==> SampleOf(p, i) < SampleOf(p, j)
    decreases j
  {
    hide SampleOf;
    if i < j {
      SampleGrows(p, i, j - 1);
      NextSample(p, j - 1);
    }
  }

  lemma NextSample(p: Params, i: nat)
    ensures SampleOf(p, i + 1) == SampleOf(p, i) + p.window
  {
    Distribute(p.window, i);
  }

  lemma Distribute(w: nat, i: nat)
    ensures w * (i + 1) == w * i + w
  {
  }

  // ---------------------------------------------------------------- Ordered segments

  /** Segments in order, not empty, with gaps of at least `gap`, within `[0, limit]`. */
  ghost predicate Ordered(s: seq<Segment>, gap: int, limit: int) {
    && (forall i | 0 <= i < |s| :: 0 <= s[i].start < s[i].end <= limit)
    && (forall i, j | 0 <= i < j < |s| :: s[i].end + gap <= s[j].start)
  }

  function LastEnd(s: seq<Segment>): int {
    if s == [] then 0 else s[|s| - 1].end
  }

  lemma OrderedPush(s: seq<Segment>, limit: int, x: Segment, more: int)
    requires Ordered(s, 0, limit) && limit <= more && LastEnd(s) <= x.start < x.end <= more && x.start >= 0
    ensures Ordered(s + [x], 0, more)
  {
    var r := s + [x];
    forall i, j | 0 <= i < j < |r|
      ensures r[i].end <= r[j].start
    {
      if j == |s| && i < |s| - 1 {
        assert s[i].end <= s[|s| - 1].start < s[|s| - 1].end;
      }
    }
  }

  /** A segment begins at a frame of speech. */
  ghost predicate BeginsAtSpeech(frames: seq<Frame>, p: Params, start: int) {
    exists k :: 0 <= k < |frames| && start == SampleOf(p, k) && frames[k].speech
  }

  ghost predicate AllBeginAtSpeech(frames: seq<Frame>, p: Params, s: seq<Segment>) {
    forall i | 0 <= i < |s| :: BeginsAtSpeech(frames, p, s[i].start)
  }

  // ---------------------------------------------------------------- The state machine

  /** The variables of the loop; 0 stands for an end or a start that is not set. */
  datatype State = State(speeches: seq<Segment>, inSpeech: bool, tempEnd: int, prevEnd: int, nextStart: int, start: int,
                         hasCurrent: bool)

  /** What holds before the frame at sample `now`. */
  ghost predicate StateOk(frames: seq<Frame>, p: Params, s: State, now: int) {
    && Ordered(s.speeches, 0, now) && AllBeginAtSpeech(frames, p, s.speeches)
    && s.hasCurrent == s.inSpeech
    && (s.inSpeech ==>
          && LastEnd(s.speeches) <= s.start < now && s.start >= 0 && BeginsAtSpeech(frames, p, s.start)
          && (s.tempEnd == 0 || s.start < s.tempEnd < now)
          && (s.prevEnd == 0 || s.start < s.prevEnd < now)
          && (s.nextStart == 0 || (s.start < s.nextStart < now && BeginsAtSpeech(frames, p, s.nextStart))))
    && (!s.inSpeech ==> s.tempEnd == s.prevEnd == s.nextStart == 0)
  }

  /** The state after the clause that resets the end of a pause. */
  function AfterReset(s: State, f: Frame, now: int): State {
    if f.speech && s.tempEnd != 0 then
      s.(tempEnd := 0, nextStart := if s.nextStart < s.prevEnd then now else s.nextStart)
    else s
  }

  function Idle(speeches: seq<Segment>, start: int): State {
    State(speeches, false, 0, 0, 0, start, false)
  }

  /** The state after the clause for speech that has lasted too long, and whether the frame is done. */
  function AfterMaximum(s: State, p: Params, now: int): (State, bool) {
    if s.inSpeech && now - s.start > p.maxSpeech then
      if s.prevEnd != 0 then
        var speeches := s.speeches + [Segment(s.start, s.prevEnd)];
        if s.nextStart < s.prevEnd then (Idle(speeches, s.start), false)
        else (State(speeches, s.inSpeech, 0, 0, 0, s.nextStart, true), false)
      else (Idle(s.speeches + [Segment(s.start, now)], s.start), true)
    else (s, false)
  }

  /** The state after the clause for silence. */
  function AfterSilence(s: State, f: Frame, p: Params, now: int): State {
    if f.silent && s.inSpeech then
      var tempEnd := if s.tempEnd == 0 then now else s.tempEnd;
      var prevEnd := if now - tempEnd > MIN_SILENCE_AT_MAX then tempEnd else s.prevEnd;
      if now - tempEnd < p.minSilence then s.(tempEnd := tempEnd, prevEnd := prevEnd)
      else if tempEnd - s.start > p.minSpeech then Idle(s.speeches + [Segment(s.start, tempEnd)], s.start)
      else Idle(s.speeches, s.start)
    else s
  }

  /** One turn of the loop. */
  function Step(s: State, f: Frame, p: Params, now: int): State {
    var r := AfterReset(s, f, now);
    if f.speech && !r.inSpeech then r.(inSpeech := true, start := now, hasCurrent := true)
    else
      var (m, done) := AfterMaximum(r, p, now);
      if done then m else AfterSilence(m, f, p, now)
  }

  lemma OrderedLater(s: seq<Segment>, limit: int, more: int)
    requires Ordered(s, 0, limit) && limit <= more
    ensures Ordered(s, 0, more)
  {
  }

  lemma SpeechPush(frames: seq<Frame>, p: Params, s: seq<Segment>, x: Segment)
    requires AllBeginAtSpeech(frames, p, s) && BeginsAtSpeech(frames, p, x.start)
    ensures AllBeginAtSpeech(frames, p, s + [x])
  {
    hide BeginsAtSpeech;
  }

  /** During the frame at `now` a pause or a restart may lie at `now` itself. */
  ghost predicate DuringOk(frames: seq<Frame>, p: Params, s: State, now: int, speech: bool) {
    && Ordered(s.speeches, 0, now) && AllBeginAtSpeech(frames, p, s.speeches)
    && s.hasCurrent == s.inSpeech
    && (s.inSpeech ==>
          && LastEnd(s.speeches) <= s.start && s.start >= 0 && BeginsAtSpeech(frames, p, s.start)
          && (s.start < now || (s.start == now && speech))
          && (s.tempEnd == 0 || s.start < s.tempEnd < now)
          && (s.prevEnd == 0 || s.start < s.prevEnd < now)
          && (s.nextStart == 0 || (s.start < s.nextStart && BeginsAtSpeech(frames, p, s.nextStart)
                                   && (s.nextStart < now || (s.nextStart == now && speech)))))
    && (!s.inSpeech ==> s.tempEnd == s.prevEnd == s.nextStart == 0)
  }

  lemma ResetOk(frames: seq<Frame>, p: Params, s: State, i: nat)
    requires i < |frames| && StateOk(frames, p, s, SampleOf(p, i))
    ensures DuringOk(frames, p, AfterReset(s, frames[i], SampleOf(p, i)), SampleOf(p, i), frames[i].speech)
  {
    hide Ordered, AllBeginAtSpeech, SampleOf, LastEnd;
    assert frames[i].speech ==> BeginsAtSpeech(frames, p, SampleOf(p, i));
  }

  lemma MaximumOk(frames: seq<Frame>, p: Params, s: State, now: int, speech: bool)
    requires DuringOk(frames, p, s, now, speech)
    ensures var (m, done) := AfterMaximum(s, p, now); DuringOk(frames, p, m, now, speech)
  {
    hide Ordered, AllBeginAtSpeech, BeginsAtSpeech, SampleOf;
    if s.inSpeech && now - s.start > p.maxSpeech {
      var x := Segment(s.start, if s.prevEnd != 0 then s.prevEnd else now);
      OrderedPush(s.speeches, now, x, now);
      SpeechPush(frames, p, s.speeches, x);
    }
  }

  lemma SilenceOk(frames: seq<Frame>, p: Params, s: State, f: Frame, now: int)
    requires DuringOk(frames, p, s, now, f.speech) && now >= 0 && !(f.speech && f.silent)
    ensures f.silent && s.inSpeech ==> now > 0
    ensures var r := AfterSilence(s, f, p, now);
      forall later | now < later :: StateOk(frames, p, r, later)
  {
    hide Ordered, AllBeginAtSpeech, BeginsAtSpeech, SampleOf;
    var r := AfterSilence(s, f, p, now);
    if f.silent && s.inSpeech {
      var tempEnd := if s.tempEnd == 0 then now else s.tempEnd;
      if now - tempEnd >= p.minSilence && tempEnd - s.start > p.minSpeech {
        OrderedPush(s.speeches, now, Segment(s.start, tempEnd), now);
        SpeechPush(frames, p, s.speeches, Segment(s.start, tempEnd));
      }
    }
    forall later | now < later
      ensures StateOk(frames, p, r, later)
    {
      OrderedLater(r.speeches, now, later);
    }
  }

  lemma StartOk(frames: seq<Frame>, p: Params, s: State, i: nat, later: int)
    requires i < |frames| && DuringOk(frames, p, s, SampleOf(p, i), true) && frames[i].speech && !s.inSpeech
    requires SampleOf(p, i) < later
    ensures StateOk(frames, p, s.(inSpeech := true, start := SampleOf(p, i), hasCurrent := true), later)
  {
    hide Ordered, AllBeginAtSpeech, SampleOf;
    OrderedLater(s.speeches, SampleOf(p, i), later);
    EndsBefore(s.speeches, SampleOf(p, i));
    assert BeginsAtSpeech(frames, p, SampleOf(p, i));
  }

  lemma EndsBefore(s: seq<Segment>, limit: int)
    requires Ordered(s, 0, limit) && limit >= 0
    ensures LastEnd(s) <= limit
  {
  }

  /** Every frame keeps the segments in order. */
  lemma StepOk(frames: seq<Frame>, p: Params, s: State, i: nat)
    requires FramesOk(frames) && p.window > 0 && i < |frames| && StateOk(frames, p, s, SampleOf(p, i))
    ensures StateOk(frames, p, Step(s, frames[i], p, SampleOf(p, i)), SampleOf(p, i + 1))
  {
    hide StateOk, DuringOk, SampleOf, AfterReset, AfterMaximum, AfterSilence;
    var f, now := frames[i], SampleOf(p, i);
    SampleGrows(p, i, i + 1);
    ResetOk(frames, p, s, i);
    var r := AfterReset(s, f, now);
    if f.speech && !r.inSpeech {
      StartOk(frames, p, r, i, SampleOf(p, i + 1));
    } else {
      MaximumOk(frames, p, r, now, f.speech);
      var (m, done) := AfterMaximum(r, p, now);
      if done {
        IdleIsOk(frames, p, r, now, f.speech, SampleOf(p, i + 1));
      } else {
        SilenceOk(frames, p, m, f, now);
      }
    }
  }

  lemma IdleIsOk(frames: seq<Frame>, p: Params, s: State, now: int, speech: bool, later: int)
    requires var (m, done) := AfterMaximum(s, p, now); done && DuringOk(frames, p, m, now, speech)
    requires now < later
    ensures StateOk(frames, p, AfterMaximum(s, p, now).0, later)
  {
    hide Ordered, AllBeginAtSpeech, BeginsAtSpeech;
    OrderedLater(AfterMaximum(s, p, now).0.speeches, now, later);
  }

  /** The state before frame `i`. */
  function Run(frames: seq<Frame>, p: Params, i: nat): State
    requires i <= |frames|
  {
    if i == 0 then Idle([], 0) else Step(Run(frames, p, i - 1), frames[i - 1], p, SampleOf(p, i - 1))
  }

  lemma {:induction false} RunOk(frames: seq<Frame>, p: Params, i: nat)
    requires FramesOk(frames) && p.window > 0 && i <= |frames|
    ensures StateOk(frames, p, Run(frames, p, i), SampleOf(p, i))
  {
    hide StateOk, Step, SampleOf;
    if i > 0 {
      RunOk(frames, p, i - 1);
      StepOk(frames, p, Run(frames, p, i - 1), i - 1);
    } else {
      FirstOk(frames, p);
    }
  }

  lemma FirstOk(frames: seq<Frame>, p: Params)
    ensures StateOk(frames, p, Idle([], 0), SampleOf(p, 0))
  {
  }

  /** The segments that leave the state machine. */
  function Detected(frames: seq<Frame>, p: Params): seq<Segment> {
    var s, audio := Run(frames, p, |frames|), SampleOf(p, |frames|);
    if s.hasCurrent && audio - s.start > p.minSpeech then s.speeches + [Segment(s.start, audio)] else s.speeches
  }

  /** They are in order, not empty, within the audio, and begin at frames of speech. */
  lemma DetectedAreOrdered(frames: seq<Frame>, p: Params)
    requires FramesOk(frames) && p.window > 0
    ensures Ordered(Detected(frames, p), 0, SampleOf(p, |frames|))
    ensures AllBeginAtSpeech(frames, p, Detected(frames, p))
  {
    hide Ordered, AllBeginAtSpeech, BeginsAtSpeech, SampleOf, Run;
    RunOk(frames, p, |frames|);
    var s, audio := Run(frames, p, |frames|), SampleOf(p, |frames|);
    if s.hasCurrent && audio - s.start > p.minSpeech {
      OrderedPush(s.speeches, audio, Segment(s.start, audio), audio);
      SpeechPush(frames, p, s.speeches, Segment(s.start, audio));
    }
  }

  method Detect(frames: seq<Frame>, p: Params) returns (speeches: seq<Segment>)
    ensures speeches == Detected(frames, p)
  {
    hide SampleOf;
    speeches := [];
    var isSpeech, hasCurrSpeech := false, false;
    var tempEnd, prevEnd, nextStart, currSpeechStart := 0, 0, 0, 0;
    for i := 0 to |frames|
      invariant State(speeches, isSpeech, tempEnd, prevEnd, nextStart, currSpeechStart, hasCurrSpeech)
        == Run(frames, p, i)
    {
      var f, currSample := frames[i], SampleOf(p, i);
      if f.speech && tempEnd != 0 {
        tempEnd := 0;
        if nextStart < prevEnd {
          nextStart := currSample;
        }
      }
      if f.speech && !isSpeech {
        isSpeech, currSpeechStart, hasCurrSpeech := true, currSample, true;
        continue;
      }
      if isSpeech && currSample - currSpeechStart > p.maxSpeech {
        if prevEnd != 0 {
          speeches, hasCurrSpeech := speeches + [Segment(currSpeechStart, prevEnd)], true;
          if nextStart < prevEnd {
            isSpeech, hasCurrSpeech := false, false;
          } else {
            currSpeechStart := nextStart;
          }
          prevEnd, nextStart, tempEnd := 0, 0, 0;
        } else {
          speeches := speeches + [Segment(currSpeechStart, currSample)];
          prevEnd, nextStart, tempEnd := 0, 0, 0;
          isSpeech, hasCurrSpeech := false, false;
          continue;
        }
      }
      if f.silent && isSpeech {
        if tempEnd == 0 {
          tempEnd := currSample;
        }
        if currSample - tempEnd > MIN_SILENCE_AT_MAX {
          prevEnd := tempEnd;
        }
        if currSample - tempEnd < p.minSilence {
          continue;
        } else {
          if tempEnd - currSpeechStart > p.minSpeech {
            speeches := speeches + [Segment(currSpeechStart, tempEnd)];
          }
          prevEnd, nextStart, tempEnd := 0, 0, 0;
          isSpeech, hasCurrSpeech := false, false;
          continue;
        }
      }
    }
    if hasCurrSpeech && SampleOf(p, |frames|) - currSpeechStart > p.minSpeech {
      speeches := speeches + [Segment(currSpeechStart, SampleOf(p, |frames|))];
    }
  }
}
