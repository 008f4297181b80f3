/** What the state machine for speech finds, said of the frames alone: a list of stretches of speech, each from a frame
of speech to the first event that ends it. The segments detected are exactly those of this list. */
module SpeechStretches {
  import opened SpeechDetection

  // ---------------------------------------------------------------- Pauses and events

  /** The frames in `[from, to)` hold no speech. */
  ghost predicate NoSpeech(frames: seq<Frame>, from: int, to: int) {
    forall k | 0 <= k < |frames| && from <= k < to :: !frames[k].speech
  }

  /** Just before frame `to` a pause is going on that began at `q`, the first silent frame since the last speech.
      Frames before `base` do not matter. */
  ghost predicate Pausing(frames: seq<Frame>, base: nat, q: nat, to: nat) {
    && base <= q < to <= |frames| && frames[q].silent && NoSpeech(frames, q, to)
    && forall k | base <= k < q && frames[k].silent :: !NoSpeech(frames, k, q)
  }

  /** A silent frame more than a given time after the beginning of its pause marks the pause. */
  ghost predicate MarkedAt(frames: seq<Frame>, p: Params, base: nat, q: nat, i: nat) {
    Pausing(frames, base, q, i + 1) && frames[i].silent && SampleOf(p, i) - SampleOf(p, q) > MIN_SILENCE_AT_MAX
  }

  /** A silent frame at least `minSilence` after the beginning of its pause closes the stretch. */
  ghost predicate ClosedAt(frames: seq<Frame>, p: Params, base: nat, q: nat, i: nat) {
    Pausing(frames, base, q, i + 1) && frames[i].silent && SampleOf(p, i) - SampleOf(p, q) >= p.minSilence
  }

  /** No pause has been marked before frame `i`. */
  ghost predicate Unmarked(frames: seq<Frame>, p: Params, base: nat, i: nat) {
    forall q: nat, k: nat | k < i :: !MarkedAt(frames, p, base, q, k)
  }

  /** The last pause that has been marked before frame `i` began at `q`. */
  ghost predicate LastMarked(frames: seq<Frame>, p: Params, base: nat, q: nat, i: nat) {
    && (exists k: nat | k < i :: MarkedAt(frames, p, base, q, k))
    && forall r: nat, k: nat | k < i && MarkedAt(frames, p, base, r, k) :: r <= q
  }

  predicate TooLong(p: Params, first: nat, i: nat) {
    SampleOf(p, i) - SampleOf(p, first) > p.maxSpeech
  }

  /** Before frame `i` nothing has ended a stretch. */
  ghost predicate Lasts(frames: seq<Frame>, p: Params, first: nat, base: nat, i: nat) {
    && (forall k: nat | base < k < i :: !TooLong(p, first, k))
    && forall q: nat, k: nat | k < i :: !ClosedAt(frames, p, base, q, k)
  }

  // ---------------------------------------------------------------- Stretches

  /** How a stretch ends: at frame `at` by a pause that began at `q`; too long at frame `at`, with a last marked pause
      that began at `q` or with none; or with the audio. */
  datatype Ending = Paused(q: nat, at: nat) | Split(q: nat, at: nat) | Cut(at: nat) | AtEnd

  /** Speech from frame `first` on; pauses count from frame `base` on. */
  datatype Stretch = Stretch(first: nat, base: nat, ending: Ending)

  /** The first frame after the stretch. */
  function Stop(x: Stretch, n: nat): nat {
    match x.ending
    case Paused(q, _) => q
    case Split(q, _) => q
    case Cut(at) => at
    case AtEnd => n
  }

  ghost predicate StretchOk(frames: seq<Frame>, p: Params, x: Stretch) {
    && x.first <= x.base < |frames| && x.first < Stop(x, |frames|) <= |frames| && frames[x.first].speech
    && match x.ending
       case Paused(q, at) =>
         Lasts(frames, p, x.first, x.base, at) && ClosedAt(frames, p, x.base, q, at) &&
         (x.base < at ==> !TooLong(p, x.first, at))
       case Split(q, at) =>
         Lasts(frames, p, x.first, x.base, at) && x.base < at < |frames| && TooLong(p, x.first, at) &&
         LastMarked(frames, p, x.base, q, at)
       case Cut(at) =>
         Lasts(frames, p, x.first, x.base, at) && x.base < at < |frames| && TooLong(p, x.first, at) &&
         Unmarked(frames, p, x.base, at)
       case AtEnd => Lasts(frames, p, x.first, x.base, |frames|)
  }

  /** Where the search for the next stretch begins. A cut leaves out its own frame. */
  function From(chain: seq<Stretch>, n: nat): nat {
    if chain == [] then 0
    else
      match chain[|chain| - 1].ending
      case Paused(q, _) => q
      case Split(q, _) => q
      case Cut(at) => at + 1
      case AtEnd => n
  }

  /** The frame of the last event. */
  function EventOf(chain: seq<Stretch>, n: nat): nat {
    if chain == [] then 0
    else
      match chain[|chain| - 1].ending
      case Paused(_, at) => at
      case Split(_, at) => at
      case Cut(at) => at
      case AtEnd => n
  }

  /** The next stretch begins at the first speech; pauses count from there, or from the last event if that is later. */
  ghost predicate Begins(frames: seq<Frame>, chain: seq<Stretch>, first: nat, base: nat) {
    && From(chain, |frames|) <= first < |frames| && frames[first].speech
    && NoSpeech(frames, From(chain, |frames|), first)
    && base == if first < EventOf(chain, |frames|) then EventOf(chain, |frames|) else first
  }

  ghost predicate ChainOk(frames: seq<Frame>, p: Params, chain: seq<Stretch>) {
    chain == [] ||
    var before, x := chain[..|chain| - 1], chain[|chain| - 1];
    ChainOk(frames, p, before) && Begins(frames, before, x.first, x.base) && StretchOk(frames, p, x)
  }

  /** All stretches of the frames, with no speech after the last. */
  ghost predicate IsReading(frames: seq<Frame>, p: Params, chain: seq<Stretch>) {
    ChainOk(frames, p, chain) && NoSpeech(frames, From(chain, |frames|), |frames|)
  }

  function Length(p: Params, x: Stretch, n: nat): int {
    SampleOf(p, Stop(x, n)) - SampleOf(p, x.first)
  }

  /** A stretch that ends by a pause or with the audio is left out if it is short. */
  predicate IsKept(p: Params, x: Stretch, n: nat) {
    (x.ending.Paused? || x.ending.AtEnd?) ==> Length(p, x, n) > p.minSpeech
  }

  function SegmentOf(p: Params, x: Stretch, n: nat): Segment {
    Segment(SampleOf(p, x.first), SampleOf(p, Stop(x, n)))
  }

  function SegmentsOf(p: Params, chain: seq<Stretch>, n: nat): seq<Segment> {
    if chain == [] then []
    else
      var x := chain[|chain| - 1];
      SegmentsOf(p, chain[..|chain| - 1], n) + if IsKept(p, x, n) then [SegmentOf(p, x, n)] else []
  }

  lemma Pushed(frames: seq<Frame>, p: Params, chain: seq<Stretch>, x: Stretch)
    requires ChainOk(frames, p, chain) && Begins(frames, chain, x.first, x.base) && StretchOk(frames, p, x)
    ensures ChainOk(frames, p, chain + [x])
    ensures SegmentsOf(p, chain + [x], |frames|) ==
      SegmentsOf(p, chain, |frames|) + if IsKept(p, x, |frames|) then [SegmentOf(p, x, |frames|)] else []
  {
    hide Begins, StretchOk;
    assert (chain + [x])[..|chain|] == chain;
  }

  // ---------------------------------------------------------------- The state machine reads stretches

  /** The variable for the pause before frame `i`. */
  ghost predicate PauseIs(frames: seq<Frame>, p: Params, tempEnd: int, base: nat, i: nat) {
    if tempEnd == 0 then forall q: nat :: !Pausing(frames, base, q, i)
    else exists q: nat :: tempEnd == SampleOf(p, q) && Pausing(frames, base, q, i)
  }

  /** The frame of speech to restart from, if there is one before frame `to`. */
  ghost predicate NextIs(frames: seq<Frame>, p: Params, nextStart: int, q: nat, to: nat) {
    if nextStart < SampleOf(p, q) then NoSpeech(frames, q, to)
    else exists n: nat | q < n < to && n < |frames| ::
        nextStart == SampleOf(p, n) && frames[n].speech && NoSpeech(frames, q, n)
  }

  /** The variables for the last marked pause before frame `i`, and for the speech after it before frame `to`. */
  ghost predicate MarkIs(frames: seq<Frame>, p: Params, prevEnd: int, nextStart: int, base: nat, i: nat, to: nat) {
    if prevEnd == 0 then nextStart == 0 && Unmarked(frames, p, base, i)
    else exists q: nat | q < i ::
        prevEnd == SampleOf(p, q) && LastMarked(frames, p, base, q, i) && NextIs(frames, p, nextStart, q, to)
  }

  /** Between stretches before frame `i`. */
  ghost predicate IsIdle(frames: seq<Frame>, chain: seq<Stretch>, s: State, i: nat) {
    && s.tempEnd == s.prevEnd == s.nextStart == 0 && !s.hasCurrent
    && From(chain, |frames|) <= i && EventOf(chain, |frames|) <= i && NoSpeech(frames, From(chain, |frames|), i)
  }

  /** Inside a stretch before frame `i`. */
  ghost predicate IsInside(frames: seq<Frame>, p: Params, chain: seq<Stretch>, s: State, first: nat, base: nat, i: nat)
  {
    && s.hasCurrent && Begins(frames, chain, first, base) && base < i && s.start == SampleOf(p, first)
    && Lasts(frames, p, first, base, i)
    && PauseIs(frames, p, s.tempEnd, base, i) && MarkIs(frames, p, s.prevEnd, s.nextStart, base, i, i)
  }

  /** The state before frame `i`, after the stretches of the chain. */
  ghost predicate HasRead(frames: seq<Frame>, p: Params, chain: seq<Stretch>, s: State, first: nat, base: nat, i: nat)
  {
    && ChainOk(frames, p, chain) && s.speeches == SegmentsOf(p, chain, |frames|)
    && if s.inSpeech then IsInside(frames, p, chain, s, first, base, i) else IsIdle(frames, chain, s, i)
  }

  /** Inside a stretch during frame `i`, before the clause for silence. */
  ghost predicate IsDuring(frames: seq<Frame>, p: Params, chain: seq<Stretch>, s: State, first: nat, base: nat, i: nat)
  {
    && i < |frames| && s.inSpeech && s.hasCurrent
    && Begins(frames, chain, first, base) && base <= i && s.start == SampleOf(p, first)
    && Lasts(frames, p, first, base, i)
    && MarkIs(frames, p, s.prevEnd, s.nextStart, base, i, i + 1)
    && if frames[i].speech then s.tempEnd == 0 else PauseIs(frames, p, s.tempEnd, base, i)
  }

  lemma SamplesCompare(p: Params, i: nat, j: nat)
    requires p.window > 0
    ensures SampleOf(p, i) < SampleOf(p, j) <==> i < j
    ensures SampleOf(p, i) == SampleOf(p, j) <==> i == j
    ensures SampleOf(p, i) == 0 <==> i == 0
  {
    hide SampleOf;
    if i <= j {
      SampleGrows(p, i, j);
    } else {
      SampleGrows(p, j, i);
    }
    FirstSample(p);
    SampleGrows(p, 0, i);
  }

  lemma FirstSample(p: Params)
    ensures SampleOf(p, 0) == 0
  {
  }

  /** A pause has one beginning. */
  lemma OnePause(frames: seq<Frame>, base: nat, q: nat, r: nat, i: nat)
    requires Pausing(frames, base, q, i) && Pausing(frames, base, r, i)
    ensures q == r
  {
    assert q < r ==> NoSpeech(frames, q, r);
    assert r < q ==> NoSpeech(frames, r, q);
  }

  /** A silent frame with no speech after it belongs to a pause. */
  lemma {:induction false} HasPause(frames: seq<Frame>, base: nat, k: nat, i: nat)
    requires FramesOk(frames) && base <= k < i <= |frames| && frames[k].silent && NoSpeech(frames, k, i)
    ensures exists q: nat :: Pausing(frames, base, q, i)
    decreases k
  {
    if j: nat :| base <= j < k && frames[j].silent && NoSpeech(frames, j, k) {
      HasPause(frames, base, j, i);
    } else {
      assert Pausing(frames, base, k, i);
    }
  }

  /** The clause that resets the end of a pause. */
  lemma ResetReads(frames: seq<Frame>, p: Params, chain: seq<Stretch>, s: State, first: nat, base: nat, i: nat)
    requires FramesOk(frames) && p.window > 0 && i < |frames|
    requires s.inSpeech && IsInside(frames, p, chain, s, first, base, i)
    ensures IsDuring(frames, p, chain, AfterReset(s, frames[i], SampleOf(p, i)), first, base, i)
  {
    hide Begins, Lasts, SampleOf, MarkIs;
    ResetKeepsMark(frames, p, s, base, i);
  }

  lemma ResetKeepsMark(frames: seq<Frame>, p: Params, s: State, base: nat, i: nat)
    requires FramesOk(frames) && p.window > 0 && base < i < |frames|
    requires PauseIs(frames, p, s.tempEnd, base, i) && MarkIs(frames, p, s.prevEnd, s.nextStart, base, i, i)
    ensures var r := AfterReset(s, frames[i], SampleOf(p, i));
      MarkIs(frames, p, r.prevEnd, r.nextStart, base, i, i + 1)
  {
    hide SampleOf, Pausing, Unmarked, LastMarked;
    var r := AfterReset(s, frames[i], SampleOf(p, i));
    if s.prevEnd != 0 {
      var q: nat :| q < i && s.prevEnd == SampleOf(p, q) && LastMarked(frames, p, base, q, i) &&
        NextIs(frames, p, s.nextStart, q, i);
      SamplesCompare(p, i, q);
      if frames[i].speech && s.nextStart < s.prevEnd {
        StillPausing(frames, p, base, q, i);
        assert r.nextStart == SampleOf(p, i);
      }
      assert NextIs(frames, p, r.nextStart, q, i + 1);
    }
  }

  /** A marked pause with no speech since is still going on. */
  lemma StillPausing(frames: seq<Frame>, p: Params, base: nat, q: nat, i: nat)
    requires i <= |frames| && q < i && LastMarked(frames, p, base, q, i) && NoSpeech(frames, q, i)
    ensures Pausing(frames, base, q, i)
  {
    hide SampleOf;
    var k: nat :| k < i && MarkedAt(frames, p, base, q, k);
  }

  /** Too long, and not speech since a marked pause: the stretch ends at that pause. */
  lemma SplitToIdle(frames: seq<Frame>, p: Params, chain: seq<Stretch>, s: State, first: nat, base: nat, i: nat)
    returns (x: Stretch)
    requires FramesOk(frames) && p.window > 0 && ChainOk(frames, p, chain) &&
      s.speeches == SegmentsOf(p, chain, |frames|)
    requires IsDuring(frames, p, chain, s, first, base, i) && TooLong(p, first, i)
    requires s.prevEnd != 0 && s.nextStart < s.prevEnd && base < i
    ensures ChainOk(frames, p, chain + [x]) && SegmentsOf(p, chain + [x], |frames|) ==
      s.speeches + [Segment(s.start, s.prevEnd)]
    ensures From(chain + [x], |frames|) <= i + 1 && EventOf(chain + [x], |frames|) == i
    ensures NoSpeech(frames, From(chain + [x], |frames|), i + 1)
  {
    hide SampleOf, Lasts, Begins;
    var q: nat :| q < i && s.prevEnd == SampleOf(p, q) && LastMarked(frames, p, base, q, i) &&
      NextIs(frames, p, s.nextStart, q, i + 1);
    x := Stretch(first, base, Split(q, i));
    SplitIsOk(frames, p, chain, x);
    Pushed(frames, p, chain, x);
  }

  lemma SplitIsOk(frames: seq<Frame>, p: Params, chain: seq<Stretch>, x: Stretch)
    requires x.ending.Split? && LastMarked(frames, p, x.base, x.ending.q, x.ending.at)
    requires Begins(frames, chain, x.first, x.base)
    requires Lasts(frames, p, x.first, x.base, x.ending.at) && x.base < x.ending.at < |frames|
    requires TooLong(p, x.first, x.ending.at)
    requires FramesOk(frames)
    ensures StretchOk(frames, p, x)
  {
    hide SampleOf, Lasts, TooLong;
    var k: nat :| k < x.ending.at && MarkedAt(frames, p, x.base, x.ending.q, k);
    assert frames[x.ending.q].silent;
  }

  /** Too long, and speech since a marked pause: the next stretch begins at the first such frame. */
  lemma SplitToRestart(frames: seq<Frame>, p: Params, chain: seq<Stretch>, s: State, first: nat, base: nat, i: nat)
    returns (x: Stretch, n: nat)
    requires FramesOk(frames) && p.window > 0 && ChainOk(frames, p, chain) &&
      s.speeches == SegmentsOf(p, chain, |frames|)
    requires IsDuring(frames, p, chain, s, first, base, i) && TooLong(p, first, i)
    requires s.prevEnd != 0 && s.nextStart >= s.prevEnd && base < i
    ensures ChainOk(frames, p, chain + [x]) && SegmentsOf(p, chain + [x], |frames|) ==
      s.speeches + [Segment(s.start, s.prevEnd)]
    ensures Begins(frames, chain + [x], n, i) && s.nextStart == SampleOf(p, n)
  {
    hide SampleOf, Lasts;
    var q: nat :| q < i && s.prevEnd == SampleOf(p, q) && LastMarked(frames, p, base, q, i) &&
      NextIs(frames, p, s.nextStart, q, i + 1);
    var m: nat :| q < m < i + 1 && s.nextStart == SampleOf(p, m) && frames[m].speech && NoSpeech(frames, q, m);
    x, n := Stretch(first, base, Split(q, i)), m;
    SplitIsOk(frames, p, chain, x);
    Pushed(frames, p, chain, x);
  }

  /** Too long, and no marked pause: the stretch is cut. */
  lemma CutToIdle(frames: seq<Frame>, p: Params, chain: seq<Stretch>, s: State, first: nat, base: nat, i: nat)
    returns (x: Stretch)
    requires ChainOk(frames, p, chain) && s.speeches == SegmentsOf(p, chain, |frames|)
    requires IsDuring(frames, p, chain, s, first, base, i) && TooLong(p, first, i) && s.prevEnd == 0 && base < i
    ensures ChainOk(frames, p, chain + [x]) && SegmentsOf(p, chain + [x], |frames|) ==
      s.speeches + [Segment(s.start, SampleOf(p, i))]
    ensures From(chain + [x], |frames|) == i + 1 && EventOf(chain + [x], |frames|) == i
  {
    hide SampleOf, Lasts;
    x := Stretch(first, base, Cut(i));
    Pushed(frames, p, chain, x);
  }

  /** Nothing is going on yet when a stretch begins, or is begun again. */
  lemma NothingYet(frames: seq<Frame>, p: Params, first: nat, base: nat)
    ensures Lasts(frames, p, first, base, base) && MarkIs(frames, p, 0, 0, base, base, base + 1)
    ensures PauseIs(frames, p, 0, base, base)
  {
    hide SampleOf;
  }

  /** A state before or after a clause of frame `i`: during the frame, or done with it. */
  ghost predicate MaximumRead(frames: seq<Frame>, p: Params, chain: seq<Stretch>, s: State, first: nat, base: nat,
                              i: nat, done: bool)
  {
    && ChainOk(frames, p, chain) && s.speeches == SegmentsOf(p, chain, |frames|)
    && if s.inSpeech then
         !done && IsDuring(frames, p, chain, s, first, base, i) && (base < i ==> !TooLong(p, first, i))
       else IsIdle(frames, chain, s, i + 1)
  }

  /** The clause for speech that has lasted too long. */
  lemma MaximumReads(frames: seq<Frame>, p: Params, chain: seq<Stretch>, s: State, first: nat, base: nat, i: nat)
    returns (r: seq<Stretch>, first': nat, base': nat)
    requires FramesOk(frames) && p.window > 0 && ChainOk(frames, p, chain) &&
      s.speeches == SegmentsOf(p, chain, |frames|)
    requires IsDuring(frames, p, chain, s, first, base, i) && base < i
    ensures var (m, done) := AfterMaximum(s, p, SampleOf(p, i));
      MaximumRead(frames, p, r, m, first', base', i, done)
  {
    hide SampleOf, Lasts, MarkIs, PauseIs, Begins, ChainOk, From, EventOf, SegmentsOf;
    r, first', base' := chain, first, base;
    if TooLong(p, first, i) {
      if s.prevEnd == 0 {
        var x := CutToIdle(frames, p, chain, s, first, base, i);
        r := chain + [x];
      } else if s.nextStart < s.prevEnd {
        var x := SplitToIdle(frames, p, chain, s, first, base, i);
        r := chain + [x];
      } else {
        var x, n := SplitToRestart(frames, p, chain, s, first, base, i);
        r, first', base' := chain + [x], n, i;
        NothingYet(frames, p, n, i);
      }
    }
  }

  /** A frame that is not silent ends no stretch and marks no pause. */
  lemma QuietFrame(frames: seq<Frame>, p: Params, chain: seq<Stretch>, s: State, first: nat, base: nat, i: nat)
    requires FramesOk(frames) && p.window > 0 && IsDuring(frames, p, chain, s, first, base, i) && !frames[i].silent
    requires base < i ==> !TooLong(p, first, i)
    ensures IsInside(frames, p, chain, s, first, base, i + 1)
  {
    hide SampleOf, Begins, TooLong, NextIs, Pausing, LastMarked, Unmarked;
    var to := i + 1;
    forall q: nat
      ensures Pausing(frames, base, q, to) <==> !frames[i].speech && Pausing(frames, base, q, i)
    {
      PauseGoesOn(frames, base, q, i);
    }
    if !frames[i].speech && s.tempEnd != 0 {
      var q: nat :| s.tempEnd == SampleOf(p, q) && Pausing(frames, base, q, i);
      assert Pausing(frames, base, q, to);
    }
    assert PauseIs(frames, p, s.tempEnd, base, to);
    NoNewMark(frames, p, base, i);
    assert MarkIs(frames, p, s.prevEnd, s.nextStart, base, i + 1, i + 1);
  }

  lemma PauseGoesOn(frames: seq<Frame>, base: nat, q: nat, i: nat)
    requires i < |frames| && !frames[i].silent
    ensures Pausing(frames, base, q, i + 1) <==> !frames[i].speech && Pausing(frames, base, q, i)
  {
    assert q <= i ==> (NoSpeech(frames, q, i + 1) <==> NoSpeech(frames, q, i) && !frames[i].speech);
  }

  lemma NoNewMark(frames: seq<Frame>, p: Params, base: nat, i: nat)
    requires i < |frames| && forall q: nat :: !MarkedAt(frames, p, base, q, i)
    ensures Unmarked(frames, p, base, i) ==> Unmarked(frames, p, base, i + 1)
    ensures forall q: nat :: LastMarked(frames, p, base, q, i) ==> LastMarked(frames, p, base, q, i + 1)
  {
    hide MarkedAt;
  }

  /** The pause at a silent frame begins there if there was none. */
  lemma PauseBegins(frames: seq<Frame>, p: Params, tempEnd: int, base: nat, i: nat) returns (q: nat)
    requires FramesOk(frames) && p.window > 0 && base <= i < |frames| && frames[i].silent
    requires PauseIs(frames, p, tempEnd, base, i)
    ensures Pausing(frames, base, q, i + 1)
    ensures SampleOf(p, q) == if tempEnd == 0 then SampleOf(p, i) else tempEnd
  {
    hide SampleOf;
    if tempEnd == 0 {
      q := i;
      forall k: nat | base <= k < i && frames[k].silent
        ensures !NoSpeech(frames, k, i)
      {
        if NoSpeech(frames, k, i) {
          HasPause(frames, base, k, i);
        }
      }
    } else {
      q :| tempEnd == SampleOf(p, q) && Pausing(frames, base, q, i);
      assert NoSpeech(frames, q, i + 1);
    }
  }

  /** At a silent frame a pause is marked exactly if it has lasted long enough; no later one has been marked. */
  lemma MarkMoves(frames: seq<Frame>, p: Params, prevEnd: int, nextStart: int, base: nat, q: nat, i: nat)
    requires FramesOk(frames) && p.window > 0 && i < |frames| && frames[i].silent && Pausing(frames, base, q, i + 1)
    requires 0 < q <= i && MarkIs(frames, p, prevEnd, nextStart, base, i, i + 1)
    ensures MarkIs(frames, p,
              if SampleOf(p, i) - SampleOf(p, q) > MIN_SILENCE_AT_MAX then SampleOf(p, q) else prevEnd,
              nextStart, base, i + 1, i + 1)
  {
    hide SampleOf, LastMarked, Unmarked, NextIs, Pausing;
    if SampleOf(p, i) - SampleOf(p, q) > MIN_SILENCE_AT_MAX {
      SamplesCompare(p, 0, q);
      assert MarkedAt(frames, p, base, q, i);
      MarkedIsLast(frames, p, base, q, i);
      NextAfterMark(frames, p, prevEnd, nextStart, base, q, i);
    } else {
      forall r: nat
        ensures !MarkedAt(frames, p, base, r, i)
      {
        if MarkedAt(frames, p, base, r, i) {
          OnePause(frames, base, q, r, i + 1);
        }
      }
      NoNewMark(frames, p, base, i);
    }
  }

  lemma MarkedIsLast(frames: seq<Frame>, p: Params, base: nat, q: nat, i: nat)
    requires FramesOk(frames) && MarkedAt(frames, p, base, q, i)
    ensures LastMarked(frames, p, base, q, i + 1)
  {
    hide SampleOf;
    forall r: nat, k: nat | k < i + 1 && MarkedAt(frames, p, base, r, k)
      ensures r <= q
    {
      if q < r {
        assert false;
      }
    }
  }

  /** Speech after an earlier marked pause comes before the pause at hand. */
  lemma NextAfterMark(frames: seq<Frame>, p: Params, prevEnd: int, nextStart: int, base: nat, q: nat, i: nat)
    requires FramesOk(frames) && p.window > 0 && 0 < q <= i < |frames| && Pausing(frames, base, q, i + 1)
    requires MarkIs(frames, p, prevEnd, nextStart, base, i, i + 1)
    ensures NextIs(frames, p, nextStart, q, i + 1)
  {
    hide SampleOf, LastMarked, Unmarked;
    SamplesCompare(p, 0, q);
    if prevEnd != 0 {
      var r: nat :| r < i && prevEnd == SampleOf(p, r) && LastMarked(frames, p, base, r, i) &&
        NextIs(frames, p, nextStart, r, i + 1);
      if nextStart >= SampleOf(p, r) {
        var n: nat :| r < n < i + 1 && nextStart == SampleOf(p, n) && frames[n].speech && NoSpeech(frames, r, n);
        SamplesCompare(p, n, q);
      } else {
        MarkedIsBefore(frames, p, base, r, q, i);
        SamplesCompare(p, r, q);
      }
    }
  }

  lemma MarkedIsBefore(frames: seq<Frame>, p: Params, base: nat, r: nat, q: nat, i: nat)
    requires FramesOk(frames) && i < |frames| && Pausing(frames, base, q, i + 1) && LastMarked(frames, p, base, r, i)
    ensures r <= q
  {
    hide SampleOf;
    var k: nat :| k < i && MarkedAt(frames, p, base, r, k);
    if q < r {
      assert false;
    }
  }

  /** A silent frame whose pause is not long enough yet. */
  lemma PauseLasts(frames: seq<Frame>, p: Params, chain: seq<Stretch>, s: State, first: nat, base: nat, q: nat, i: nat)
    requires FramesOk(frames) && p.window > 0 && IsDuring(frames, p, chain, s, first, base, i) && frames[i].silent
    requires (base < i ==> !TooLong(p, first, i)) && 0 < q <= i && Pausing(frames, base, q, i + 1)
    requires SampleOf(p, q) == if s.tempEnd == 0 then SampleOf(p, i) else s.tempEnd
    requires SampleOf(p, i) - SampleOf(p, q) < p.minSilence
    ensures IsInside(frames, p, chain, AfterSilence(s, frames[i], p, SampleOf(p, i)), first, base, i + 1)
  {
    hide SampleOf, Begins, TooLong, Pausing, MarkIs;
    MarkMoves(frames, p, s.prevEnd, s.nextStart, base, q, i);
    SamplesCompare(p, 0, q);
    forall r: nat
      ensures !ClosedAt(frames, p, base, r, i)
    {
      if ClosedAt(frames, p, base, r, i) {
        OnePause(frames, base, q, r, i + 1);
      }
    }
    assert Lasts(frames, p, first, base, i + 1);
  }

  /** A silent frame whose pause is long enough: the stretch is over. */
  lemma PauseCloses(frames: seq<Frame>, p: Params, chain: seq<Stretch>, s: State, first: nat, base: nat, q: nat,
                    i: nat) returns (x: Stretch)
    requires ChainOk(frames, p, chain) && s.speeches == SegmentsOf(p, chain, |frames|)
    requires FramesOk(frames) && IsDuring(frames, p, chain, s, first, base, i) && frames[i].silent
    requires (base < i ==> !TooLong(p, first, i)) && first < q <= i && Pausing(frames, base, q, i + 1)
    requires SampleOf(p, q) == if s.tempEnd == 0 then SampleOf(p, i) else s.tempEnd
    requires SampleOf(p, i) - SampleOf(p, q) >= p.minSilence
    ensures ChainOk(frames, p, chain + [x])
    ensures AfterSilence(s, frames[i], p, SampleOf(p, i)) == Idle(SegmentsOf(p, chain + [x], |frames|), s.start)
    ensures IsIdle(frames, chain + [x], AfterSilence(s, frames[i], p, SampleOf(p, i)), i + 1)
  {
    hide SampleOf, Begins, TooLong, Lasts, MarkIs;
    x := Stretch(first, base, Paused(q, i));
    BaseIsLater(frames, chain, first, base);
    Pushed(frames, p, chain, x);
  }

  lemma BaseIsLater(frames: seq<Frame>, chain: seq<Stretch>, first: nat, base: nat)
    requires Begins(frames, chain, first, base)
    ensures first <= base && frames[first].speech
  {
  }

  lemma SilenceReads(frames: seq<Frame>, p: Params, chain: seq<Stretch>, s: State, first: nat, base: nat, i: nat)
    returns (r: seq<Stretch>)
    requires FramesOk(frames) && p.window > 0 && i < |frames|
    requires MaximumRead(frames, p, chain, s, first, base, i, false)
    ensures HasRead(frames, p, r, AfterSilence(s, frames[i], p, SampleOf(p, i)), first, base, i + 1)
  {
    hide SampleOf, Begins, TooLong, Lasts, MarkIs, ChainOk, SegmentsOf, IsIdle;
    r := chain;
    if s.inSpeech {
      if !frames[i].silent {
        QuietFrame(frames, p, chain, s, first, base, i);
      } else {
        var q := PauseBegins(frames, p, s.tempEnd, base, i);
        BaseIsLater(frames, chain, first, base);
        SamplesCompare(p, 0, q);
        if SampleOf(p, i) - SampleOf(p, q) < p.minSilence {
          PauseLasts(frames, p, chain, s, first, base, q, i);
        } else {
          var x := PauseCloses(frames, p, chain, s, first, base, q, i);
          r := chain + [x];
        }
      }
    }
  }

  /** The first speech after a stretch begins the next one. */
  lemma StartReads(frames: seq<Frame>, p: Params, chain: seq<Stretch>, s: State, i: nat)
    requires i < |frames| && frames[i].speech && !s.inSpeech && HasRead(frames, p, chain, s, 0, 0, i)
    requires FramesOk(frames)
    ensures HasRead(frames, p, chain, s.(inSpeech := true, start := SampleOf(p, i), hasCurrent := true), i, i, i + 1)
  {
    hide SampleOf, ChainOk, SegmentsOf, TooLong;
  }

  /** Every frame is read as the stretches say. */
  lemma StepReads(frames: seq<Frame>, p: Params, chain: seq<Stretch>, s: State, first: nat, base: nat, i: nat)
    returns (r: seq<Stretch>, first': nat, base': nat)
    requires FramesOk(frames) && p.window > 0 && i < |frames| && HasRead(frames, p, chain, s, first, base, i)
    ensures HasRead(frames, p, r, Step(s, frames[i], p, SampleOf(p, i)), first', base', i + 1)
  {
    hide SampleOf, IsInside, IsDuring, ChainOk, SegmentsOf;
    r, first', base' := chain, first, base;
    var f, now := frames[i], SampleOf(p, i);
    if !s.inSpeech {
      if f.speech {
        first', base' := i, i;
        StartReads(frames, p, chain, s, i);
      }
    } else {
      ResetReads(frames, p, chain, s, first, base, i);
      var m := AfterReset(s, f, now);
      assert base < i by {
        InsideIsLater(frames, p, chain, s, first, base, i);
      }
      r, first', base' := MaximumReads(frames, p, chain, m, first, base, i);
      if !AfterMaximum(m, p, now).1 {
        r := SilenceReads(frames, p, r, AfterMaximum(m, p, now).0, first', base', i);
      }
    }
  }

  lemma InsideIsLater(frames: seq<Frame>, p: Params, chain: seq<Stretch>, s: State, first: nat, base: nat, i: nat)
    requires IsInside(frames, p, chain, s, first, base, i)
    ensures base < i
  {
  }

  lemma {:induction false} RunReads(frames: seq<Frame>, p: Params, i: nat)
    returns (chain: seq<Stretch>, first: nat, base: nat)
    requires FramesOk(frames) && p.window > 0 && i <= |frames|
    ensures HasRead(frames, p, chain, Run(frames, p, i), first, base, i)
  {
    hide SampleOf, Step;
    if i == 0 {
      chain, first, base := [], 0, 0;
    } else {
      hide HasRead;
      chain, first, base := RunReads(frames, p, i - 1);
      chain, first, base := StepReads(frames, p, chain, Run(frames, p, i - 1), first, base, i - 1);
    }
  }

  // ---------------------------------------------------------------- What is detected

  /** The segments detected are those of the stretches of the frames. */
  lemma DetectedIsRead(frames: seq<Frame>, p: Params) returns (chain: seq<Stretch>)
    requires FramesOk(frames) && p.window > 0
    ensures IsReading(frames, p, chain) && Detected(frames, p) == SegmentsOf(p, chain, |frames|)
  {
    hide SampleOf, Run, Lasts, Begins;
    var n, s := |frames|, Run(frames, p, |frames|);
    var first, base;
    chain, first, base := RunReads(frames, p, n);
    if s.inSpeech {
      var x := Stretch(first, base, AtEnd);
      BaseIsLater(frames, chain, first, base);
      Pushed(frames, p, chain, x);
      chain := chain + [x];
    }
  }

  /** A frame lies in a stretch, or is the one at which a stretch is cut. */
  ghost predicate IsIn(x: Stretch, k: nat, n: nat) {
    x.first <= k < Stop(x, n) || x.ending == Cut(k)
  }

  /** Every speech before the search for the next stretch lies in a stretch. */
  lemma {:induction false} SpeechIsRead(frames: seq<Frame>, p: Params, chain: seq<Stretch>, k: nat) returns (x: Stretch)
    requires ChainOk(frames, p, chain) && k < From(chain, |frames|) && k < |frames| && frames[k].speech
    ensures x in chain && IsIn(x, k, |frames|)
  {
    hide StretchOk;
    var before := chain[..|chain| - 1];
    x := chain[|chain| - 1];
    if k < From(before, |frames|) {
      x := SpeechIsRead(frames, p, before, k);
    }
  }

  lemma {:induction false} KeptIsSegment(p: Params, chain: seq<Stretch>, n: nat, x: Stretch)
    requires x in chain && IsKept(p, x, n)
    ensures SegmentOf(p, x, n) in SegmentsOf(p, chain, n)
  {
    var before := chain[..|chain| - 1];
    if x != chain[|chain| - 1] {
      assert chain == before + [chain[|chain| - 1]];
      KeptIsSegment(p, before, n, x);
    }
  }

  lemma {:induction false} SegmentIsKept(p: Params, chain: seq<Stretch>, n: nat, y: Segment) returns (x: Stretch)
    requires y in SegmentsOf(p, chain, n)
    ensures x in chain && IsKept(p, x, n) && y == SegmentOf(p, x, n)
  {
    var before := chain[..|chain| - 1];
    x := chain[|chain| - 1];
    if y in SegmentsOf(p, before, n) {
      x := SegmentIsKept(p, before, n, y);
    }
  }

  /** A sample lies in one of the segments. */
  ghost predicate IsWithin(s: seq<Segment>, sample: int) {
    exists y :: y in s && y.start <= sample < y.end
  }

  /** One of the stretches of the frames (which have one reading). */
  ghost predicate IsStretch(frames: seq<Frame>, p: Params, x: Stretch) {
    exists chain :: IsReading(frames, p, chain) && x in chain
  }

  lemma {:induction false} StretchesAreOk(frames: seq<Frame>, p: Params, chain: seq<Stretch>, x: Stretch)
    requires ChainOk(frames, p, chain) && x in chain
    ensures StretchOk(frames, p, x)
  {
    hide StretchOk, Begins;
    if x != chain[|chain| - 1] {
      StretchesAreOk(frames, p, chain[..|chain| - 1], x);
    }
  }

  /** The frame lies in a stretch that is left out. */
  ghost predicate InLeftOut(frames: seq<Frame>, p: Params, k: nat) {
    exists x :: IsStretch(frames, p, x) && x.first <= k < Stop(x, |frames|) && !IsKept(p, x, |frames|)
  }

  /** At the frame a stretch without a marked pause is too long. */
  ghost predicate AtCut(frames: seq<Frame>, p: Params, k: nat) {
    exists x :: IsStretch(frames, p, x) && x.ending == Cut(k)
  }

  /** Every frame of speech is detected, unless its stretch is left out as too short or is cut at this very frame. */
  lemma SpeechIsDetected(frames: seq<Frame>, p: Params, k: nat)
    requires FramesOk(frames) && p.window > 0 && k < |frames| && frames[k].speech
    ensures IsWithin(Detected(frames, p), SampleOf(p, k)) || InLeftOut(frames, p, k) || AtCut(frames, p, k)
  {
    hide SampleOf, Detected, StretchOk, SegmentsOf;
    var chain := DetectedIsRead(frames, p);
    var x := SpeechIsRead(frames, p, chain, k);
    assert IsStretch(frames, p, x);
    if x.ending != Cut(k) && IsKept(p, x, |frames|) {
      KeptIsSegment(p, chain, |frames|, x);
      SampleInside(frames, p, x, k);
      assert SegmentOf(p, x, |frames|) in Detected(frames, p);
    }
  }

  lemma SampleInside(frames: seq<Frame>, p: Params, x: Stretch, k: nat)
    requires p.window > 0 && x.first <= k < Stop(x, |frames|)
    ensures SampleOf(p, x.first) <= SampleOf(p, k) < SampleOf(p, Stop(x, |frames|))
  {
    SampleGrows(p, x.first, k);
    SampleGrows(p, k, Stop(x, |frames|));
  }

  /** Every segment detected is a stretch: it begins at speech and ends where the first event ends it. */
  lemma DetectedIsStretch(frames: seq<Frame>, p: Params, y: Segment) returns (x: Stretch)
    requires FramesOk(frames) && p.window > 0 && y in Detected(frames, p)
    ensures IsStretch(frames, p, x) && StretchOk(frames, p, x)
    ensures IsKept(p, x, |frames|) && y == SegmentOf(p, x, |frames|)
  {
    hide SampleOf, Detected, StretchOk, SegmentsOf;
    var chain := DetectedIsRead(frames, p);
    x := SegmentIsKept(p, chain, |frames|, y);
    StretchesAreOk(frames, p, chain, x);
  }

  // ---------------------------------------------------------------- There is one reading

  function AtOf(x: Stretch, n: nat): nat {
    EventOf([x], n)
  }

  lemma AtIsInside(frames: seq<Frame>, p: Params, x: Stretch)
    requires StretchOk(frames, p, x)
    ensures AtOf(x, |frames|) <= |frames| && (AtOf(x, |frames|) == |frames| ==> x.ending == AtEnd)
  {
    hide SampleOf, Lasts, LastMarked, Unmarked, TooLong;
  }

  /** The first event ends a stretch. */
  lemma EndIsFirst(frames: seq<Frame>, p: Params, x: Stretch, y: Stretch)
    requires StretchOk(frames, p, x) && StretchOk(frames, p, y) && x.first == y.first && x.base == y.base
    ensures AtOf(x, |frames|) >= AtOf(y, |frames|)
  {
    hide SampleOf, LastMarked, Unmarked, TooLong, Pausing;
    AtIsInside(frames, p, y);
  }

  lemma EndingIsOne(frames: seq<Frame>, p: Params, x: Stretch, y: Stretch)
    requires StretchOk(frames, p, x) && StretchOk(frames, p, y) && x.first == y.first && x.base == y.base
    ensures x == y
  {
    hide SampleOf, Lasts, TooLong, Pausing, MarkedAt;
    EndIsFirst(frames, p, x, y);
    EndIsFirst(frames, p, y, x);
    AtIsInside(frames, p, x);
    AtIsInside(frames, p, y);
    if x.ending.Paused? && y.ending.Paused? {
      OnePause(frames, x.base, x.ending.q, y.ending.q, x.ending.at + 1);
    }
  }

  lemma NextIsOne(frames: seq<Frame>, p: Params, chain: seq<Stretch>, x: Stretch, y: Stretch)
    requires Begins(frames, chain, x.first, x.base) && StretchOk(frames, p, x)
    requires Begins(frames, chain, y.first, y.base) && StretchOk(frames, p, y)
    ensures x == y
  {
    hide StretchOk, From, EventOf;
    assert x.first == y.first;
    EndingIsOne(frames, p, x, y);
  }

  lemma {:induction false} PrefixOk(frames: seq<Frame>, p: Params, chain: seq<Stretch>, j: nat)
    requires ChainOk(frames, p, chain) && j <= |chain|
    ensures ChainOk(frames, p, chain[..j])
    ensures j < |chain| ==> Begins(frames, chain[..j], chain[j].first, chain[j].base) && StretchOk(frames, p, chain[j])
  {
    hide Begins, StretchOk;
    if j < |chain| - 1 {
      var before := chain[..|chain| - 1];
      PrefixOk(frames, p, before, j);
      assert before[..j] == chain[..j];
    } else {
      assert chain[..|chain|] == chain;
    }
  }

  lemma {:induction false} SamePrefix(frames: seq<Frame>, p: Params, c: seq<Stretch>, d: seq<Stretch>, j: nat)
    requires ChainOk(frames, p, c) && ChainOk(frames, p, d) && j <= |c| && j <= |d|
    ensures c[..j] == d[..j]
  {
    hide Begins, StretchOk, ChainOk;
    if j > 0 {
      SamePrefix(frames, p, c, d, j - 1);
      PrefixOk(frames, p, c, j - 1);
      PrefixOk(frames, p, d, j - 1);
      NextIsOne(frames, p, c[..j - 1], c[j - 1], d[j - 1]);
      assert c[..j] == c[..j - 1] + [c[j - 1]] && d[..j] == d[..j - 1] + [d[j - 1]];
    }
  }

  lemma ReadingIsLongest(frames: seq<Frame>, p: Params, c: seq<Stretch>, d: seq<Stretch>)
    requires IsReading(frames, p, c) && ChainOk(frames, p, d)
    ensures |d| <= |c|
  {
    hide StretchOk, ChainOk;
    assert c[..|c|] == c;
    if |c| < |d| {
      PrefixOk(frames, p, d, |c|);
      SamePrefix(frames, p, c, d, |c|);
    }
  }

  /** The frames have one reading, and the segments detected are those of its kept stretches. */
  lemma DetectedIsTheReading(frames: seq<Frame>, p: Params, chain: seq<Stretch>)
    requires FramesOk(frames) && p.window > 0 && IsReading(frames, p, chain)
    ensures Detected(frames, p) == SegmentsOf(p, chain, |frames|)
  {
    hide SampleOf, Detected, SegmentsOf, ChainOk;
    var read := DetectedIsRead(frames, p);
    ReadingIsLongest(frames, p, read, chain);
    ReadingIsLongest(frames, p, chain, read);
    SamePrefix(frames, p, read, chain, |read|);
    assert read[..|read|] == read && chain[..|read|] == chain;
  }
}
