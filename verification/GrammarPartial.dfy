/** The test of a partial character (`whisper_grammar_match_partial_char`) against its purpose: whether some code point
that the partial sequence can be completed to is accepted. Completions are defined by the encoding and the decoder
alone. */
module GrammarPartial {
  import opened GrammarLanguage
  import opened GrammarAdvance
  import opened GrammarAccept
  import opened GrammarMask
  import opened Utf8

  // ---------------------------------------------------------------- Completions

  /** The decoder stands at the partial sequence after `k` bytes of `c`, and more are to come. */
  ghost predicate PassesThrough(c: nat, k: nat, partial: Partial) {
    && 0 < k < |Encode(c)|
    && var d := FeedAll(Decoder([], 0, 0), Encode(c)[..k]); partial == Partial(d.value, d.nRemain)
  }

  ghost predicate Completes(partial: Partial, c: nat) {
    IsDecodable(c) && exists k: nat :: PassesThrough(c, k, partial)
  }

  /** Not an invalid sequence, and not the first byte of an overlong form of two bytes. */
  predicate OpenPartial(partial: Partial) {
    partial.nRemain > 0 && !(partial.nRemain == 1 && partial.value < 2)
  }

  /** The bits of `c` without those of its last `n` bytes. */
  function Leading(c: nat, n: nat): nat {
    if n == 1 then c / 0x40 else if n == 2 then c / 0x1000 else c / 0x4_0000
  }

  lemma PrefixIs(c: nat, k: nat)
    requires IsDecodable(c) && 0 < k < |Encode(c)|
    ensures FeedAll(Decoder([], 0, 0), Encode(c)[..k]) == Decoder([], Leading(c, |Encode(c)| - k), |Encode(c)| - k)
  {
    hide Feed;
    Digits(c);
    var f, d := Encode(c), Decoder([], 0, 0);
    FedFirst(d, f[0], c / if c < 0x80 then 1 else if c < 0x800 then 0x40 else if c < 0x1_0000 then 0x1000
      else 0x4_0000);
    if k == 1 {
      assert f[..1] == [f[0]];
      FeedOne(d, f[0]);
    } else if k == 2 {
      assert f[..2] == [f[0], f[1]];
      FeedTwo(d, f[0], f[1]);
      if |f| == 3 {
        FedNext(Decoder([], c / 0x1000, 2), c / 0x40 % 0x40);
      } else {
        FedNext(Decoder([], c / 0x4_0000, 3), c / 0x1000 % 0x40);
      }
    } else {
      assert f[..3] == [f[0], f[1], f[2]];
      FeedThree(d, f[0], f[1], f[2]);
      FedNext(Decoder([], c / 0x4_0000, 3), c / 0x1000 % 0x40);
      FedNext(Decoder([], c / 0x1000, 2), c / 0x40 % 0x40);
    }
  }

  /** The completions of a partial sequence that the decoder can stop at are the code points of its window; there are
      none exactly if the test rejects the sequence outright. */
  lemma CompletesIffInWindow(partial: Partial, c: nat)
    requires InReach(partial) && partial.nRemain > 0
    ensures Completes(partial, c) <==> OpenPartial(partial) && Window(partial).0 <= c <= Window(partial).1
  {
    hide Window, FeedAll, Encode;
    if Completes(partial, c) {
      var k: nat :| PassesThrough(c, k, partial);
      PrefixIs(c, k);
      LongCode(c, partial.nRemain);
      WindowHolds(c, partial.nRemain, partial.value);
    }
    if OpenPartial(partial) && Window(partial).0 <= c <= Window(partial).1 {
      InsideWindow(partial, c);
      LongCode(c, partial.nRemain);
      var k := |Encode(c)| - partial.nRemain;
      PrefixIs(c, k);
      assert PassesThrough(c, k, partial);
    }
  }

  /** How long the code of `c` is, in terms of `c`. */
  lemma LongCode(c: nat, n: int)
    ensures 1 <= n <= 3 ==> (|Encode(c)| > n <==> c >= if n == 1 then 0x80 else if n == 2 then 0x800 else 0x1_0000)
    ensures |Encode(c)| <= 4
  {
  }

  lemma InsideWindow(partial: Partial, c: nat)
    requires InReach(partial) && OpenPartial(partial) && Window(partial).0 <= c <= Window(partial).1
    ensures IsDecodable(c) && Leading(c, partial.nRemain) == partial.value
    ensures c >= if partial.nRemain == 1 then 0x80 else if partial.nRemain == 2 then 0x800 else 0x1_0000
  {
    SmallShifts(partial.value);
    SmallShifts(1);
  }

  lemma WindowHolds(c: nat, n: nat, v: nat)
    requires 1 <= n <= 3 && v == if n == 1 then c / 0x40 else if n == 2 then c / 0x1000 else c / 0x4_0000
    requires v == 0 ==> (n == 2 && c >= 0x800) || (n == 3 && c >= 0x1_0000)
    ensures Window(Partial(v, n)).0 <= c <= Window(Partial(v, n)).1
  {
    SmallShifts(v);
    SmallShifts(1);
  }

  lemma SmallShifts(v: nat)
    ensures Shifted(v, 1) == v * 0x40 && Shifted(v, 2) == v * 0x1000 && Shifted(v, 3) == v * 0x4_0000
  {
    assert Shifted(v, 1) == Shifted(v * 64, 0);
    assert Shifted(v, 2) == Shifted(v * 64, 1) == Shifted(v * 64 * 64, 0);
    assert Shifted(v, 3) == Shifted(v * 64, 2) == Shifted(v * 64 * 64, 1) == Shifted(v * 64 * 64 * 64, 0);
  }

  /** A partial sequence has a completion exactly if it is not rejected outright. */
  lemma HasCompletionIff(s: seq<Element>, partial: Partial)
    requires |s| > 0 && InReach(partial) && partial.nRemain != 0
    ensures (exists c :: Completes(partial, c)) <==> OpenPartial(partial)
    ensures !OpenPartial(partial) ==> !MatchesPartial(s, partial)
  {
    hide Window, InReach, FeedAll, Encode, ClassMeets;
    if OpenPartial(partial) {
      WindowIsNonEmpty(partial);
      CompletesIffInWindow(partial, Window(partial).0);
    } else if c :| Completes(partial, c) {
      var k: nat :| PassesThrough(c, k, partial);
      CompletesIffInWindow(partial, c);
    }
  }

  // ---------------------------------------------------------------- Classes and windows

  /** The range at the head of the class runs upwards; one that runs downwards contains nothing. */
  predicate RangeOrdered(s: seq<Element>)
    requires |s| > 0
  {
    RangeLen(s) == 2 ==> s[0].value <= s[1].value
  }

  predicate ClassOrdered(s: seq<Element>)
    requires |s| > 0
  {
    RangeOrdered(s) && (MoreRanges(s) ==> ClassOrdered(s[RangeLen(s)..]))
  }

  /** Some range of the class meets the window and runs upwards. */
  predicate ClassHits(s: seq<Element>, low: nat, high: nat)
    requires |s| > 0
  {
    (RangeMeets(s, low, high) && RangeOrdered(s)) || (MoreRanges(s) && ClassHits(s[RangeLen(s)..], low, high))
  }

  /** Some code point of the window is in the class. */
  ghost predicate ClassTouches(s: seq<Element>, low: nat, high: nat)
    requires |s| > 0
  {
    exists c: nat | low <= c <= high :: ClassHas(s, c)
  }

  /** Every code point of the window is in the class. */
  ghost predicate ClassFills(s: seq<Element>, low: nat, high: nat)
    requires |s| > 0
  {
    forall c: nat | low <= c <= high :: ClassHas(s, c)
  }

  lemma {:induction false} HitsInside(s: seq<Element>, low: nat, high: nat) returns (c: nat)
    requires |s| > 0 && low <= high && ClassHits(s, low, high)
    ensures low <= c <= high && ClassHas(s, c)
  {
    if RangeMeets(s, low, high) && RangeOrdered(s) {
      c := if s[0].value < low then low else s[0].value;
      assert RangeHas(s, c);
    } else {
      c := HitsInside(s[RangeLen(s)..], low, high);
    }
  }

  lemma {:induction false} InsideHits(s: seq<Element>, low: nat, high: nat, c: nat)
    requires |s| > 0 && low <= c <= high && ClassHas(s, c)
    ensures ClassHits(s, low, high)
  {
    if !RangeHas(s, c) {
      InsideHits(s[RangeLen(s)..], low, high, c);
    }
  }

  lemma {:induction false} HitsAreMet(s: seq<Element>, low: nat, high: nat)
    requires |s| > 0
    ensures ClassHits(s, low, high) ==> ClassMeets(s, low, high)
    ensures ClassOrdered(s) && ClassMeets(s, low, high) ==> ClassHits(s, low, high)
  {
    if MoreRanges(s) {
      HitsAreMet(s[RangeLen(s)..], low, high);
    }
  }

  /** Some completion of the partial sequence is accepted. */
  ghost predicate SomeCompletion(s: seq<Element>, partial: Partial)
    requires |s| > 0
  {
    exists c: nat | Completes(partial, c) :: Accepts(s, c)
  }

  ghost predicate AllCompletions(s: seq<Element>, partial: Partial)
    requires |s| > 0
  {
    forall c: nat | Completes(partial, c) :: Accepts(s, c)
  }

  lemma WindowIsNonEmpty(partial: Partial)
    requires OpenPartial(partial)
    ensures Window(partial).0 <= Window(partial).1
  {
    assert Pow64(1) == 64 * Pow64(0) == 64;
    assert Pow64(2) == 64 * Pow64(1) == 4096;
    assert Pow64(3) == 64 * Pow64(2) == 262144;
  }

  /** A class hits the window exactly if it contains a code point of it. */
  lemma HitsIffInside(s: seq<Element>, low: nat, high: nat)
    requires |s| > 0 && low <= high
    ensures ClassHits(s, low, high) <==> ClassTouches(s, low, high)
  {
    hide ClassHits;
    if ClassHits(s, low, high) {
      var c := HitsInside(s, low, high);
    }
    if ClassTouches(s, low, high) {
      var c: nat :| low <= c <= high && ClassHas(s, c);
      InsideHits(s, low, high, c);
    }
  }

  /** The partial test lets a positive class through whenever some completion is in the class, and a negated class only
      when every completion is accepted. It errs the other way exactly if all ranges that meet the window run
      downwards. */
  lemma PartialTestMeans(s: seq<Element>, partial: Partial)
    requires |s| > 0 && InReach(partial) && OpenPartial(partial)
    ensures var (low, high) := Window(partial);
      var reversed := ClassMeets(s, low, high) && !ClassHits(s, low, high);
      if s[0].kind.Char? then
        && (SomeCompletion(s, partial) ==> MatchesPartial(s, partial))
        && (MatchesPartial(s, partial) && !SomeCompletion(s, partial) <==> reversed)
      else
        && (MatchesPartial(s, partial) ==> AllCompletions(s, partial))
        && (AllCompletions(s, partial) && !MatchesPartial(s, partial) <==> reversed)
  {
    hide ClassMeets, ClassHits, Window, Completes, InReach;
    var (low, high) := Window(partial);
    WindowIsNonEmpty(partial);
    HitsIffInside(s, low, high);
    HitsAreMet(s, low, high);
    CompletionsAre(s, partial);
  }

  /** Completions, in terms of what the class contains of the window. */
  lemma CompletionsAre(s: seq<Element>, partial: Partial)
    requires |s| > 0 && InReach(partial) && OpenPartial(partial)
    ensures var (low, high) := Window(partial);
      if s[0].kind.Char? then
        SomeCompletion(s, partial) <==> ClassTouches(s, low, high)
      else
        && (AllCompletions(s, partial) <==> !ClassTouches(s, low, high))
        && (SomeCompletion(s, partial) <==> !ClassFills(s, low, high))
  {
    hide Window, Completes, InReach;
    var (low, high) := Window(partial);
    forall c: nat
      ensures Completes(partial, c) <==> low <= c <= high
    {
      CompletesIffInWindow(partial, c);
    }
    if s[0].kind.Char? {
      if ClassTouches(s, low, high) {
        var c: nat :| low <= c <= high && ClassHas(s, c);
        assert Accepts(s, c);
      }
    } else {
      if !ClassFills(s, low, high) {
        var c: nat :| low <= c <= high && !ClassHas(s, c);
        assert Accepts(s, c);
      }
      if AllCompletions(s, partial) {
        forall c: nat | low <= c <= high
          ensures !ClassHas(s, c)
        {
          assert Accepts(s, c);
        }
      }
    }
  }

  /** The source promises "some continuation could satisfy the class". The test keeps that promise exactly when no range
      meets the window, or, for a positive class, a range that runs upwards does, or, for a negated one, the ranges fill
      the window. */
  lemma PartialTestIsExactIff(s: seq<Element>, partial: Partial)
    requires |s| > 0 && InReach(partial) && OpenPartial(partial)
    ensures var (low, high) := Window(partial);
      (MatchesPartial(s, partial) <==> SomeCompletion(s, partial))
      <==> (!ClassMeets(s, low, high) || if s[0].kind.Char? then ClassHits(s, low, high) else ClassFills(s, low, high))
  {
    hide ClassMeets, ClassHits, Window, Completes, InReach;
    var (low, high) := Window(partial);
    WindowIsNonEmpty(partial);
    HitsIffInside(s, low, high);
    HitsAreMet(s, low, high);
    CompletionsAre(s, partial);
    if ClassFills(s, low, high) {
      assert ClassHas(s, low);
      assert ClassTouches(s, low, high);
    }
  }

  /** For classes whose ranges all run upwards, the promise is kept exactly by positive classes and by those that do not
      split the window. */
  lemma OrderedTestIsExactIff(s: seq<Element>, partial: Partial)
    requires |s| > 0 && ClassOrdered(s) && InReach(partial) && OpenPartial(partial)
    ensures (MatchesPartial(s, partial) <==> SomeCompletion(s, partial))
       <==> (s[0].kind.Char? || !SomeCompletion(s, partial) || AllCompletions(s, partial))
  {
    hide ClassMeets, ClassHits, ClassOrdered, Window, Completes, InReach;
    var (low, high) := Window(partial);
    PartialTestIsExactIff(s, partial);
    PartialTestMeans(s, partial);
    HitsAreMet(s, low, high);
    CompletionsAre(s, partial);
  }

  /** A positive class with a range that runs downwards: `[U+00FF-U+00C0]` after the byte C3 passes although nothing
      would match. */
  lemma PartialTestAcceptsTooMuch()
    ensures var s, partial := [Element(Char, 0xFF), Element(CharRngUpper, 0xC0), Element(End, 0)], Partial(3, 1);
      InReach(partial) && OpenPartial(partial) && MatchesPartial(s, partial) && !SomeCompletion(s, partial)
  {
    var s, partial := [Element(Char, 0xFF), Element(CharRngUpper, 0xC0), Element(End, 0)], Partial(3, 1);
    assert Shifted(3, 1) == Shifted(192, 0) == 192 && Shifted(1, 1) == Shifted(64, 0) == 64;
    assert !MoreRanges(s) && forall c: nat :: !RangeHas(s, c);
    assert ClassMeets(s, 192, 255);
  }

  /** A negated class that splits the window: `[^U+00E9]` after the byte C3 rejects although U+00E8 would match. */
  lemma PartialTestRejectsTooMuch()
    ensures var s, partial := [Element(CharNot, 0xE9), Element(End, 0)], Partial(3, 1);
      && ClassOrdered(s) && InReach(partial) && OpenPartial(partial)
      && !MatchesPartial(s, partial) && SomeCompletion(s, partial)
  {
    var s, partial := [Element(CharNot, 0xE9), Element(End, 0)], Partial(3, 1);
    assert Shifted(3, 1) == Shifted(192, 0) == 192 && Shifted(1, 1) == Shifted(64, 0) == 64;
    assert Window(partial) == (192, 255);
    CompletesIffInWindow(partial, 0xE8);
    assert Accepts(s, 0xE8);
  }

  // ---------------------------------------------------------------- The mask

  /** Every class of the rules is positive. */
  predicate NoneNegated(rules: Rules) {
    forall r, i | 0 <= r < |rules| && 0 <= i < |rules[r]| :: !rules[r][i].kind.CharNot?
  }

  /** A token that ends inside a character and begins some sentence is never penalised, if no class is negated. */
  lemma MaskKeepsPartialSentences(rules: Rules, stacks: seq<Stack>, toks: seq<Candidate>, rejects: seq<Candidate>,
                                  tok: Candidate, c: nat, rest: Word)
    requires WellFormed(rules) && NotLeftRecursive(rules) && AllAdvanced(rules, stacks) && CandidatesOk(toks)
    requires RejectsExactly(rules, stacks, toks, rejects) && NoneNegated(rules)
    requires tok in toks && InReach(tok.partial) && tok.partial.nRemain > 0 && Completes(tok.partial, c)
    requires SomeDerives(rules, stacks, WordFrom(tok.codePoints, tok.at) + ([c] + rest))
    ensures tok !in rejects
  {
    hide WellFormed, NotLeftRecursive, Completes, InReach, MatchesPartial, RejectsExactly, Accepts;
    var word := WordFrom(tok.codePoints, tok.at);
    AcceptWordIsDerivative(rules, stacks, word, [c] + rest);
    AcceptWordKeepsAdvanced(rules, stacks, word);
    var s :| s in AcceptWord(rules, stacks, word) && Derives(rules, s, [c] + rest);
    NotEmptyStack(rules, s, c, rest);
    ConsumeIsDerivative(rules, s, c, rest);
    CompletesIffInWindow(tok.partial, c);
    PartialTestMeans(Suffix(rules, Top(s)), tok.partial);
    assert FitsPartial(rules, s, tok.partial);
    ViableIsKept(rules, stacks, toks, rejects, tok);
  }

  lemma {:induction false} AcceptWordKeepsAdvanced(rules: Rules, stacks: seq<Stack>, w: Word)
    requires WellFormed(rules) && NotLeftRecursive(rules) && AllAdvanced(rules, stacks)
    ensures AllAdvanced(rules, AcceptWord(rules, stacks, w))
    decreases |w|
  {
    hide WellFormed, NotLeftRecursive;
    if w != [] {
      AcceptKeepsAdvanced(rules, stacks, w[0]);
      AcceptWordKeepsAdvanced(rules, Accept(rules, stacks, w[0]), w[1..]);
    }
  }

  lemma NotEmptyStack(rules: Rules, s: Stack, c: nat, rest: Word)
    requires Derives(rules, s, [c] + rest)
    ensures s != []
  {
  }

  lemma ViableIsKept(rules: Rules, stacks: seq<Stack>, toks: seq<Candidate>, rejects: seq<Candidate>, tok: Candidate)
    requires WellFormed(rules) && NotLeftRecursive(rules) && AllAdvanced(rules, stacks) && CandidatesOk(toks)
    requires RejectsExactly(rules, stacks, toks, rejects) && tok in toks && Viable(rules, stacks, tok)
    ensures tok !in rejects
  {
    assert tok in rejects <==> multiset(rejects)[tok] > 0;
  }
}
