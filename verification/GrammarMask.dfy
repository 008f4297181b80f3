/** The token mask (`whisper_grammar_reject_candidates`): which vocabulary tokens a grammar rules out.

A candidate points into its zero-terminated code points and carries the UTF-8 sequence its text ended in. */
module GrammarMask {
  import opened GrammarLanguage
  import opened GrammarAdvance
  import opened GrammarAccept
  import opened Utf8

  datatype Candidate = Candidate(id: nat, codePoints: seq<nat>, at: nat, partial: Partial)

  predicate CandidateOk(tok: Candidate) {
    tok.at < |tok.codePoints| && tok.codePoints[|tok.codePoints| - 1] == 0
  }

  ghost predicate CandidatesOk(toks: seq<Candidate>) {
    forall tok | tok in toks :: CandidateOk(tok)
  }

  /** The code points from index `at` up to the terminating zero. */
  ghost function WordFrom(codePoints: seq<nat>, at: nat): Word
    requires at < |codePoints| && codePoints[|codePoints| - 1] == 0
    decreases |codePoints| - at
  {
    if codePoints[at] == 0 then [] else [codePoints[at]] + WordFrom(codePoints, at + 1)
  }

  // ---------------------------------------------------------------- Partial characters

  ghost function Pow64(n: nat): (p: nat)
    ensures p > 0
  {
    Pow(64, n)
  }

  function Shifted(value: nat, n: nat): (v: nat)
    ensures v == value * Pow64(n)
    decreases n
  {
    if n == 0 then value else Shifted(value * 64, n - 1)
  }

  /** The code points that a partial sequence can be completed to, ignoring overlong forms below `low`. */
  function Window(partial: Partial): (w: (nat, nat))
    requires partial.nRemain >= 0
  {
    var low := Shifted(partial.value, partial.nRemain);
    var high := low + Shifted(1, partial.nRemain) - 1;
    if low == 0 && partial.nRemain == 2 then (0x800, high)
    else if low == 0 && partial.nRemain == 3 then (0x10000, high)
    else (low, high)
  }

  predicate RangeMeets(s: seq<Element>, low: nat, high: nat)
    requires |s| > 0
  {
    if RangeLen(s) == 2 then s[0].value <= high && low <= s[1].value else low <= s[0].value <= high
  }

  /** Whether some range of the class at the head of `s` meets the window. */
  predicate ClassMeets(s: seq<Element>, low: nat, high: nat)
    requires |s| > 0
  {
    RangeMeets(s, low, high) || (MoreRanges(s) && ClassMeets(s[RangeLen(s)..], low, high))
  }

  predicate MatchesPartial(s: seq<Element>, partial: Partial)
    requires |s| > 0
  {
    && partial.nRemain >= 0
    && !(partial.nRemain == 1 && partial.value < 2)
    && ClassMeets(s, Window(partial).0, Window(partial).1) == s[0].kind.Char?
  }

  // ---------------------------------------------------------------- What a mask should be

  /** The stack can go on with the partial sequence at the end of a token. */
  predicate FitsPartial(rules: Rules, stack: Stack, partial: Partial)
    requires Advanced(rules, stack)
  {
    partial.nRemain == 0 || (stack != [] && MatchesPartial(Suffix(rules, Top(stack)), partial))
  }

  /** Accepting the token's code points leaves a stack that fits its partial sequence. */
  ghost predicate Viable(rules: Rules, stacks: seq<Stack>, tok: Candidate)
    requires WellFormed(rules) && NotLeftRecursive(rules) && AllAdvanced(rules, stacks) && CandidateOk(tok)
  {
    exists s | s in AcceptWord(rules, stacks, WordFrom(tok.codePoints, tok.at)) :: FitsPartial(rules, s, tok.partial)
  }

  /** `out` holds each candidate that is not viable, as often as it was given, and nothing else. */
  ghost predicate RejectsExactly(rules: Rules, stacks: seq<Stack>, toks: seq<Candidate>, out: seq<Candidate>)
    requires WellFormed(rules) && NotLeftRecursive(rules) && AllAdvanced(rules, stacks) && CandidatesOk(toks)
  {
    && (forall tok | tok in out :: tok in toks)
    && (forall tok | tok in toks :: multiset(out)[tok] == if Viable(rules, stacks, tok) then 0 else multiset(toks)[tok])
  }

  // ---------------------------------------------------------------- Properties of viability

  lemma Associative(xs: seq<Stack>, ys: seq<Stack>, zs: seq<Stack>)
    ensures (xs + ys) + zs == xs + (ys + zs)
  {
  }

  lemma AcceptFirst(rules: Rules, xs: seq<Stack>, c: nat)
    requires WellFormed(rules) && NotLeftRecursive(rules) && AllAdvanced(rules, xs) && xs != []
    ensures Advanced(rules, xs[0])
    ensures Accept(rules, xs, c) == AcceptOne(rules, xs[0], c) + Accept(rules, xs[1..], c)
  {
    assert xs[0] in xs;
  }

  lemma HeadOfConcat(xs: seq<Stack>, ys: seq<Stack>)
    requires xs != []
    ensures xs + ys != [] && (xs + ys)[0] == xs[0] && (xs + ys)[1..] == xs[1..] + ys
  {
  }

  lemma AdvancedConcat(rules: Rules, xs: seq<Stack>, ys: seq<Stack>)
    requires AllAdvanced(rules, xs) && AllAdvanced(rules, ys)
    ensures AllAdvanced(rules, xs + ys) && AllAdvanced(rules, if xs == [] then [] else xs[1..])
  {
  }

  lemma {:induction false} AcceptConcat(rules: Rules, xs: seq<Stack>, ys: seq<Stack>, c: nat)
    requires WellFormed(rules) && NotLeftRecursive(rules) && AllAdvanced(rules, xs) && AllAdvanced(rules, ys)
    requires AllAdvanced(rules, xs + ys)
    ensures Accept(rules, xs + ys, c) == Accept(rules, xs, c) + Accept(rules, ys, c)
  {
    hide WellFormed, NotLeftRecursive, AllAdvanced, AcceptOne;
    if xs == [] {
      assert xs + ys == ys;
    } else {
      AdvancedConcat(rules, xs, ys);
      AdvancedConcat(rules, xs[1..], ys);
      AcceptConcat(rules, xs[1..], ys, c);
      AcceptFirst(rules, xs, c);
      HeadOfConcat(xs, ys);
      AcceptFirst(rules, xs + ys, c);
      Associative(AcceptOne(rules, xs[0], c), Accept(rules, xs[1..], c), Accept(rules, ys, c));
    }
  }

  lemma {:induction false} AcceptWordConcat(rules: Rules, xs: seq<Stack>, ys: seq<Stack>, w: Word)
    requires WellFormed(rules) && NotLeftRecursive(rules) && AllAdvanced(rules, xs) && AllAdvanced(rules, ys)
    ensures AllAdvanced(rules, xs + ys)
    ensures AcceptWord(rules, xs + ys, w) == AcceptWord(rules, xs, w) + AcceptWord(rules, ys, w)
    decreases |w|
  {
    AdvancedConcat(rules, xs, ys);
    if w != [] {
      AcceptConcat(rules, xs, ys, w[0]);
      AcceptKeepsAdvanced(rules, xs, w[0]);
      AcceptKeepsAdvanced(rules, ys, w[0]);
      AcceptWordConcat(rules, Accept(rules, xs, w[0]), Accept(rules, ys, w[0]), w[1..]);
    }
  }

  lemma {:induction false} AcceptWordOfNone(rules: Rules, w: Word)
    requires WellFormed(rules) && NotLeftRecursive(rules)
    ensures AcceptWord(rules, [], w) == []
    decreases |w|
  {
    if w != [] {
      AcceptWordOfNone(rules, w[1..]);
    }
  }

  lemma ViableConcat(rules: Rules, xs: seq<Stack>, ys: seq<Stack>, tok: Candidate)
    requires WellFormed(rules) && NotLeftRecursive(rules) && AllAdvanced(rules, xs) && AllAdvanced(rules, ys)
    requires CandidateOk(tok)
    ensures AllAdvanced(rules, xs + ys)
    ensures Viable(rules, xs + ys, tok) <==> Viable(rules, xs, tok) || Viable(rules, ys, tok)
  {
    var w := WordFrom(tok.codePoints, tok.at);
    AcceptWordConcat(rules, xs, ys, w);
    var all := AcceptWord(rules, xs + ys, w);
    if s :| s in AcceptWord(rules, xs, w) && FitsPartial(rules, s, tok.partial) {
      assert s in all;
    }
    if s :| s in AcceptWord(rules, ys, w) && FitsPartial(rules, s, tok.partial) {
      assert s in all;
    }
  }

  function Next(tok: Candidate): Candidate { tok.(at := tok.at + 1) }

  /** Viability for one stack, by looking at the first code point only. */
  lemma ViableOne(rules: Rules, stack: Stack, tok: Candidate)
    requires WellFormed(rules) && NotLeftRecursive(rules) && Advanced(rules, stack) && CandidateOk(tok)
    ensures AllAdvanced(rules, [stack])
    ensures tok.codePoints[tok.at] == 0 ==> (Viable(rules, [stack], tok) <==> FitsPartial(rules, stack, tok.partial))
    ensures tok.codePoints[tok.at] != 0 ==>
              && CandidateOk(Next(tok))
              && AllAdvanced(rules, AcceptOne(rules, stack, tok.codePoints[tok.at]))
              && (Viable(rules, [stack], tok) <==>
                Viable(rules, AcceptOne(rules, stack, tok.codePoints[tok.at]), Next(tok)))
  {
    var c := tok.codePoints[tok.at];
    if c == 0 {
      assert stack in [stack];
    } else {
      assert [stack][1..] == [];
      assert Accept(rules, [stack], c) == AcceptOne(rules, stack, c);
      AcceptKeepsAdvanced(rules, [stack], c);
      assert WordFrom(tok.codePoints, tok.at)[1..] == WordFrom(tok.codePoints, tok.at + 1);
    }
  }

  // ---------------------------------------------------------------- One stack

  /** The stack rejects the candidate without looking at its second code point. */
  predicate IsStuck(rules: Rules, stack: Stack, tok: Candidate)
    requires Advanced(rules, stack) && CandidateOk(tok)
  {
    if tok.codePoints[tok.at] == 0 then !FitsPartial(rules, stack, tok.partial)
    else stack == [] || !Accepts(Suffix(rules, Top(stack)), tok.codePoints[tok.at])
  }

  predicate IsMoved(rules: Rules, stack: Stack, tok: Candidate)
    requires Advanced(rules, stack) && CandidateOk(tok)
  {
    tok.codePoints[tok.at] != 0 && !IsStuck(rules, stack, tok)
  }

  ghost function Stuck(rules: Rules, stack: Stack, toks: seq<Candidate>): seq<Candidate>
    requires Advanced(rules, stack) && forall i | 0 <= i < |toks| :: CandidateOk(toks[i])
  {
    if toks == [] then []
    else Stuck(rules, stack, toks[..|toks| - 1])
         + if IsStuck(rules, stack, toks[|toks| - 1]) then [toks[|toks| - 1]] else []
  }

  ghost function Moved(rules: Rules, stack: Stack, toks: seq<Candidate>): seq<Candidate>
    requires Advanced(rules, stack) && forall i | 0 <= i < |toks| :: CandidateOk(toks[i])
  {
    if toks == [] then []
    else Moved(rules, stack, toks[..|toks| - 1])
         + if IsMoved(rules, stack, toks[|toks| - 1]) then [Next(toks[|toks| - 1])] else []
  }

  lemma {:induction false} CountStuck(rules: Rules, stack: Stack, toks: seq<Candidate>, tok: Candidate)
    requires Advanced(rules, stack) && forall i | 0 <= i < |toks| :: CandidateOk(toks[i])
    requires CandidateOk(tok)
    ensures multiset(Stuck(rules, stack, toks))[tok] == if IsStuck(rules, stack, tok) then multiset(toks)[tok] else 0
  {
    hide IsStuck, Advanced, CandidateOk;
    if toks != [] {
      var init, last := toks[..|toks| - 1], toks[|toks| - 1];
      CountStuck(rules, stack, init, tok);
      assert toks == init + [last];
    }
  }

  lemma {:induction false} CountMoved(rules: Rules, stack: Stack, toks: seq<Candidate>, tok: Candidate)
    requires Advanced(rules, stack) && forall i | 0 <= i < |toks| :: CandidateOk(toks[i])
    requires CandidateOk(tok)
    ensures multiset(Moved(rules, stack, toks))[Next(tok)] == if IsMoved(rules, stack, tok) then multiset(toks)[tok]
      else 0
  {
    hide IsMoved, Advanced, CandidateOk;
    if toks != [] {
      var init, last := toks[..|toks| - 1], toks[|toks| - 1];
      CountMoved(rules, stack, init, tok);
      assert toks == init + [last];
      assert Next(tok) == Next(last) <==> tok == last;
    }
  }

  lemma {:induction false} StuckAndMovedAreGiven(rules: Rules, stack: Stack, toks: seq<Candidate>)
    requires Advanced(rules, stack) && forall i | 0 <= i < |toks| :: CandidateOk(toks[i])
    ensures forall tok | tok in Stuck(rules, stack, toks) :: tok in toks
    ensures forall tok | tok in Moved(rules, stack, toks) ::
      CandidateOk(tok) && tok.at > 0 && tok.(at := tok.at - 1) in toks
  {
    hide WellFormed, IsStuck, Accepts;
    if toks != [] {
      var init, last := toks[..|toks| - 1], toks[|toks| - 1];
      StuckAndMovedAreGiven(rules, stack, init);
      assert toks == init + [last];
    }
  }

  /** The rejects handed back, pointing to where they were handed down. */
  ghost function Back(toks: seq<Candidate>): seq<Candidate>
    requires forall i | 0 <= i < |toks| :: toks[i].at > 0
  {
    if toks == [] then [] else Back(toks[..|toks| - 1]) + [toks[|toks| - 1].(at := toks[|toks| - 1].at - 1)]
  }

  lemma {:induction false} CountBack(toks: seq<Candidate>, tok: Candidate)
    requires forall i | 0 <= i < |toks| :: toks[i].at > 0
    ensures multiset(Back(toks))[tok] == multiset(toks)[Next(tok)]
  {
    if toks != [] {
      var init, last := toks[..|toks| - 1], toks[|toks| - 1];
      CountBack(init, tok);
      assert toks == init + [last];
      assert Back(toks) == Back(init) + [last.(at := last.at - 1)];
      assert tok == last.(at := last.at - 1) <==> Next(tok) == last;
    }
  }

  lemma StuckIsNotViable(rules: Rules, stack: Stack, tok: Candidate)
    requires WellFormed(rules) && NotLeftRecursive(rules) && Advanced(rules, stack) && CandidateOk(tok)
    ensures AllAdvanced(rules, [stack])
    ensures IsStuck(rules, stack, tok) ==> !Viable(rules, [stack], tok)
    ensures tok.codePoints[tok.at] == 0 && !IsStuck(rules, stack, tok) ==> Viable(rules, [stack], tok)
  {
    ViableOne(rules, stack, tok);
    if tok.codePoints[tok.at] != 0 && IsStuck(rules, stack, tok) {
      AcceptWordOfNone(rules, WordFrom(tok.codePoints, tok.at + 1));
    }
  }

  lemma CombinedCount(rules: Rules, stack: Stack, toks: seq<Candidate>, next: seq<Stack>, nextRejects: seq<Candidate>,
                      tok: Candidate)
    requires WellFormed(rules) && NotLeftRecursive(rules) && Advanced(rules, stack) && CandidatesOk(toks) && tok in toks
    requires CandidatesOk(Moved(rules, stack, toks)) && AllAdvanced(rules, next) && AllAdvanced(rules, [stack])
    requires IsMoved(rules, stack, tok) ==> AcceptOne(rules, stack, tok.codePoints[tok.at]) == next
    requires RejectsExactly(rules, next, Moved(rules, stack, toks), nextRejects)
    requires forall i | 0 <= i < |nextRejects| :: nextRejects[i].at > 0
    ensures multiset(Stuck(rules, stack, toks))[tok] + multiset(Back(nextRejects))[tok]
         == if Viable(rules, [stack], tok) then 0 else multiset(toks)[tok]
  {
    var moved := Moved(rules, stack, toks);
    CountStuck(rules, stack, toks, tok);
    CountMoved(rules, stack, toks, tok);
    CountBack(nextRejects, tok);
    StuckIsNotViable(rules, stack, tok);
    if IsMoved(rules, stack, tok) {
      ViableOne(rules, stack, tok);
      assert Next(tok) in moved;
    } else {
      assert Next(tok) !in moved && Next(tok) !in nextRejects;
    }
  }

  lemma BackIsGiven(toks: seq<Candidate>, moved: seq<Candidate>, nextRejects: seq<Candidate>)
    requires forall tok | tok in moved :: tok.at > 0 && tok.(at := tok.at - 1) in toks
    requires forall tok | tok in nextRejects :: tok in moved
    requires forall i | 0 <= i < |nextRejects| :: nextRejects[i].at > 0
    ensures forall tok | tok in Back(nextRejects) :: tok in toks
  {
    forall tok | tok in Back(nextRejects)
      ensures tok in toks
    {
      CountBack(nextRejects, tok);
      assert Next(tok) in nextRejects;
      assert Next(tok).(at := Next(tok).at - 1) == tok;
    }
  }

  lemma CombineRejects(rules: Rules, stack: Stack, toks: seq<Candidate>, next: seq<Stack>, nextRejects: seq<Candidate>)
    requires WellFormed(rules) && NotLeftRecursive(rules) && Advanced(rules, stack) && CandidatesOk(toks)
    requires CandidatesOk(Moved(rules, stack, toks)) && AllAdvanced(rules, next) && AllAdvanced(rules, [stack])
    requires forall tok | tok in toks && IsMoved(rules, stack, tok) ::
      AcceptOne(rules, stack, tok.codePoints[tok.at]) == next
    requires RejectsExactly(rules, next, Moved(rules, stack, toks), nextRejects)
    requires forall i | 0 <= i < |nextRejects| :: nextRejects[i].at > 0
    ensures RejectsExactly(rules, [stack], toks, Stuck(rules, stack, toks) + Back(nextRejects))
  {
    var here, back := Stuck(rules, stack, toks), Back(nextRejects);
    StuckAndMovedAreGiven(rules, stack, toks);
    BackIsGiven(toks, Moved(rules, stack, toks), nextRejects);
    MultisetConcat(here, back);
    forall tok | tok in toks
      ensures multiset(here + back)[tok] == if Viable(rules, [stack], tok) then 0 else multiset(toks)[tok]
    {
      CombinedCount(rules, stack, toks, next, nextRejects, tok);
    }
  }

  lemma MultisetConcat(xs: seq<Candidate>, ys: seq<Candidate>)
    ensures forall t :: multiset(xs + ys)[t] == multiset(xs)[t] + multiset(ys)[t]
    ensures forall t | t in xs + ys :: t in xs || t in ys
  {
  }

  /** Rejecting by one stack after the other rejects what all of them reject. */
  lemma ChainRejects(rules: Rules, xs: seq<Stack>, y: Stack, toks: seq<Candidate>, mid: seq<Candidate>,
                     out: seq<Candidate>)
    requires WellFormed(rules) && NotLeftRecursive(rules) && AllAdvanced(rules, xs) && Advanced(rules, y)
    requires CandidatesOk(toks) && CandidatesOk(mid) && AllAdvanced(rules, [y])
    requires RejectsExactly(rules, xs, toks, mid) && RejectsExactly(rules, [y], mid, out)
    ensures AllAdvanced(rules, xs + [y])
    ensures RejectsExactly(rules, xs + [y], toks, out)
  {
    AdvancedConcat(rules, xs, [y]);
    forall tok | tok in toks
      ensures multiset(out)[tok] == if Viable(rules, xs + [y], tok) then 0 else multiset(toks)[tok]
    {
      ViableConcat(rules, xs, [y], tok);
      assert tok in mid <==> multiset(mid)[tok] > 0;
      assert tok in out <==> multiset(out)[tok] > 0;
    }
  }

  // ---------------------------------------------------------------- The loops of the source

  ghost predicate LeftAtMost(toks: seq<Candidate>, b: nat) {
    forall i | 0 <= i < |toks| :: |toks[i].codePoints| - toks[i].at <= b
  }

  /** The most code points that any of the candidates has left. */
  ghost function MaxLeft(toks: seq<Candidate>): (m: nat)
    ensures LeftAtMost(toks, m)
    ensures forall b: nat | LeftAtMost(toks, b) :: m <= b
  {
    if toks == [] then 0
    else
      var m := MaxLeft(toks[1..]);
      var h := |toks[0].codePoints| - toks[0].at;
      assert forall b: nat | LeftAtMost(toks, b) :: h <= b && LeftAtMost(toks[1..], b);
      if h > m then h else m
  }

  lemma {:induction false} MovedHasLessLeft(rules: Rules, stack: Stack, toks: seq<Candidate>, b: nat)
    requires Advanced(rules, stack) && forall i | 0 <= i < |toks| :: CandidateOk(toks[i])
    requires LeftAtMost(toks, b)
    ensures forall tok | tok in Moved(rules, stack, toks) :: |tok.codePoints| - tok.at < b
  {
    if toks != [] {
      MovedHasLessLeft(rules, stack, toks[..|toks| - 1], b);
    }
  }

  lemma MaxLeftOfMoved(rules: Rules, stack: Stack, toks: seq<Candidate>)
    requires Advanced(rules, stack) && forall i | 0 <= i < |toks| :: CandidateOk(toks[i])
    ensures CandidatesOk(Moved(rules, stack, toks))
    ensures Moved(rules, stack, toks) == [] || MaxLeft(Moved(rules, stack, toks)) < MaxLeft(toks)
    ensures Moved(rules, stack, toks) == [] ==> MaxLeft(Moved(rules, stack, toks)) <= MaxLeft(toks)
  {
    StuckAndMovedAreGiven(rules, stack, toks);
    var moved, m := Moved(rules, stack, toks), MaxLeft(toks);
    MovedHasLessLeft(rules, stack, toks, m);
    if moved != [] {
      assert moved[0] in moved;
      assert LeftAtMost(moved, m - 1);
    } else {
      assert LeftAtMost(moved, m);
    }
  }

  /** Scans a class for a range that meets the window; stops at the first one. */
  method MeetsClass(rule: Rule, ruleCount: nat, start: nat, low: nat, high: nat) returns (meets: bool)
    requires WellFormedRule(rule, ruleCount) && start < |rule|
    requires rule[start].kind.Char? || rule[start].kind.CharNot?
    ensures meets == ClassMeets(rule[start..], low, high)
  {
    hide WellFormedRule, ClassMeets;
    var at, more := start, true;
    while more
      invariant at < |rule|
      invariant more ==> rule[at].kind.Char? || rule[at].kind.CharNot? || rule[at].kind.CharAlt?
      invariant ClassMeets(rule[start..], low, high) == (more && ClassMeets(rule[at..], low, high))
      decreases more, |rule| - at
    {
      MeetsStep(rule, ruleCount, at, low, high);
      if rule[at + 1].kind.CharRngUpper? {
        if rule[at].value <= high && low <= rule[at + 1].value {
          return true;
        }
        at := at + 2;
      } else {
        if low <= rule[at].value && rule[at].value <= high {
          return true;
        }
        at := at + 1;
      }
      more := rule[at].kind.CharAlt?;
    }
    meets := false;
  }

  /** Whether a partial sequence is let through by a class. */
  method MatchPartialChar(rules: Rules, pos: Pos, partial: Partial) returns (matched: bool)
    requires WellFormed(rules) && OnClass(rules, pos)
    ensures matched == MatchesPartial(Suffix(rules, pos), partial)
  {
    var isPositiveChar := ElementAt(rules, pos).kind.Char?;
    if partial.nRemain < 0 || (partial.nRemain == 1 && partial.value < 2) {
      return false;
    }
    var (low, high) := Window(partial);
    assert WellFormedRule(rules[pos.rule], |rules|);
    var meets := MeetsClass(rules[pos.rule], |rules|, pos.at, low, high);
    matched := if meets then isPositiveChar else !isPositiveChar;
  }

  lemma MeetsStep(rule: Rule, ruleCount: nat, at: nat, low: nat, high: nat)
    requires WellFormedRule(rule, ruleCount) && at < |rule|
    requires rule[at].kind.Char? || rule[at].kind.CharNot? || rule[at].kind.CharAlt?
    ensures at + 1 < |rule|
    ensures var (next, hit) := if rule[at + 1].kind.CharRngUpper?
                               then (at + 2, rule[at].value <= high && low <= rule[at + 1].value)
                               else (at + 1, low <= rule[at].value <= high);
      && next < |rule|
      && ClassMeets(rule[at..], low, high) == (hit || (rule[next].kind.CharAlt? && ClassMeets(rule[next..], low, high)))
  {
    ClassEndsInRule(rule, ruleCount, at);
    var s := rule[at..];
    assert s[RangeLen(s)..] == rule[at + RangeLen(s)..];
  }

  /** The test made on one candidate before its remaining code points are looked at. */
  method Classify(rules: Rules, stack: Stack, tok: Candidate) returns (stuck: bool, moved: bool)
    requires WellFormed(rules) && Advanced(rules, stack) && CandidateOk(tok)
    ensures stuck == IsStuck(rules, stack, tok) && moved == IsMoved(rules, stack, tok)
  {
    if stack == [] {
      stuck := tok.codePoints[tok.at] != 0 || tok.partial.nRemain != 0;
      moved := false;
    } else if tok.codePoints[tok.at] == 0 {
      var matches := MatchPartialChar(rules, Top(stack), tok.partial);
      stuck, moved := tok.partial.nRemain != 0 && !matches, false;
    } else {
      var matched, _ := MatchChar(rules, Top(stack), tok.codePoints[tok.at]);
      stuck, moved := !matched, matched;
    }
  }

  /** Sorts the candidates into those the stack rejects at once and those it moves on with. */
  method Partition(rules: Rules, stack: Stack, candidates: seq<Candidate>)
    returns (rejects: seq<Candidate>, nextCandidates: seq<Candidate>)
    requires WellFormed(rules) && Advanced(rules, stack) &&
      forall i | 0 <= i < |candidates| :: CandidateOk(candidates[i])
    ensures rejects == Stuck(rules, stack, candidates) && nextCandidates == Moved(rules, stack, candidates)
  {
    rejects, nextCandidates := [], [];
    for i := 0 to |candidates|
      invariant rejects == Stuck(rules, stack, candidates[..i])
      invariant nextCandidates == Moved(rules, stack, candidates[..i])
    {
      var tok := candidates[i];
      assert candidates[..i + 1][..i] == candidates[..i];
      var stuck, moved := Classify(rules, stack, tok);
      if moved {
        nextCandidates := nextCandidates + [tok.(at := tok.at + 1)];
      } else if stuck {
        rejects := rejects + [tok];
      }
    }
    assert candidates[..|candidates|] == candidates;
  }

  method AppendBack(rejects: seq<Candidate>, nextRejects: seq<Candidate>) returns (out: seq<Candidate>)
    requires forall i | 0 <= i < |nextRejects| :: nextRejects[i].at > 0
    ensures out == rejects + Back(nextRejects)
  {
    out := rejects;
    for j := 0 to |nextRejects|
      invariant out == rejects + Back(nextRejects[..j])
    {
      assert nextRejects[..j + 1][..j] == nextRejects[..j];
      out := out + [nextRejects[j].(at := nextRejects[j].at - 1)];
    }
    assert nextRejects[..|nextRejects|] == nextRejects;
  }

  /** The stacks on which the candidates that were moved on are tried. */
  method NextStacks(rules: Rules, stack: Stack) returns (next: seq<Stack>)
    requires WellFormed(rules) && NotLeftRecursive(rules) && Advanced(rules, stack) && stack != []
    ensures next == Advance(rules, Consume(rules, stack)) && next != [] && AllAdvanced(rules, next)
  {
    var _, after := MatchChar(rules, Top(stack), 0);
    AfterIsItem(rules, Top(stack));
    var stackAfter := UpdateTop(rules, stack, after);
    AdvanceReachesClasses(rules, stackAfter);
    next := AdvanceStack(rules, stackAfter, []);
  }

  lemma {:induction false} EmptyStackMovesNone(rules: Rules, toks: seq<Candidate>)
    requires forall i | 0 <= i < |toks| :: CandidateOk(toks[i])
    ensures Moved(rules, [], toks) == []
  {
    if toks != [] {
      EmptyStackMovesNone(rules, toks[..|toks| - 1]);
    }
  }

  lemma RejectsArePositive(toks: seq<Candidate>, moved: seq<Candidate>)
    requires forall tok | tok in moved :: tok.at > 0
    requires forall tok | tok in toks :: tok in moved
    ensures forall i | 0 <= i < |toks| :: toks[i].at > 0
  {
    forall i | 0 <= i < |toks|
      ensures toks[i].at > 0
    {
      assert toks[i] in toks;
    }
  }

  method RejectForStack(rules: Rules, stack: Stack, candidates: seq<Candidate>) returns (rejects: seq<Candidate>)
    requires WellFormed(rules) && NotLeftRecursive(rules) && Advanced(rules, stack) && CandidatesOk(candidates)
    ensures AllAdvanced(rules, [stack]) && RejectsExactly(rules, [stack], candidates, rejects)
    decreases MaxLeft(candidates), 1
  {
    var nextCandidates;
    rejects, nextCandidates := Partition(rules, stack, candidates);
    StuckAndMovedAreGiven(rules, stack, candidates);
    if stack == [] {
      EmptyStackMovesNone(rules, candidates);
      CombineRejects(rules, stack, candidates, [], []);
    } else {
      var nextStacks := NextStacks(rules, stack);
      MaxLeftOfMoved(rules, stack, candidates);
      var nextRejects := RejectCandidates(rules, nextStacks, nextCandidates);
      RejectsArePositive(nextRejects, nextCandidates);
      CombineRejects(rules, stack, candidates, nextStacks, nextRejects);
      rejects := AppendBack(rejects, nextRejects);
    }
  }

  lemma LeftAtMostOfSome(toks: seq<Candidate>, some: seq<Candidate>)
    requires forall tok | tok in some :: tok in toks
    ensures MaxLeft(some) <= MaxLeft(toks)
  {
    var m := MaxLeft(toks);
    assert LeftAtMost(toks, m);
    forall i | 0 <= i < |some|
      ensures |some[i].codePoints| - some[i].at <= m
    {
      assert some[i] in some;
      var k :| 0 <= k < |toks| && toks[k] == some[i];
    }
    assert LeftAtMost(some, m);
  }

  /** The tokens to penalise: for a grammar with stacks, exactly the candidates it cannot go on with. */
  method RejectCandidates(rules: Rules, stacks: seq<Stack>, candidates: seq<Candidate>)
    returns (rejects: seq<Candidate>)
    requires WellFormed(rules) && NotLeftRecursive(rules) && AllAdvanced(rules, stacks) && CandidatesOk(candidates)
    ensures stacks == [] ==> rejects == []
    ensures stacks != [] ==> RejectsExactly(rules, stacks, candidates, rejects)
    decreases MaxLeft(candidates), if candidates == [] then 0 else 2
  {
    if candidates == [] || stacks == [] {
      return [];
    }
    assert stacks[0] in stacks && stacks[..1] == [stacks[0]];
    rejects := RejectForStack(rules, stacks[0], candidates);
    for i := 1 to |stacks|
      invariant AllAdvanced(rules, stacks[..i]) && CandidatesOk(rejects)
      invariant RejectsExactly(rules, stacks[..i], candidates, rejects)
    {
      assert stacks[i] in stacks && stacks[..i + 1] == stacks[..i] + [stacks[i]];
      ghost var mid := rejects;
      LeftAtMostOfSome(candidates, rejects);
      rejects := RejectForStack(rules, stacks[i], rejects);
      ChainRejects(rules, stacks[..i], stacks[i], candidates, mid, rejects);
    }
    assert stacks[..|stacks|] == stacks;
  }

  // ---------------------------------------------------------------- What the mask means

  /** For a token of complete code points the mask agrees with the acceptor. */
  lemma MaskAgreesWithAcceptor(rules: Rules, stacks: seq<Stack>, toks: seq<Candidate>, rejects: seq<Candidate>,
                               tok: Candidate)
    requires WellFormed(rules) && NotLeftRecursive(rules) && AllAdvanced(rules, stacks) && CandidatesOk(toks)
    requires RejectsExactly(rules, stacks, toks, rejects)
    requires tok in toks && tok.partial.nRemain == 0
    ensures tok !in rejects <==> AcceptWord(rules, stacks, WordFrom(tok.codePoints, tok.at)) != []
  {
    var out := AcceptWord(rules, stacks, WordFrom(tok.codePoints, tok.at));
    assert tok in rejects <==> multiset(rejects)[tok] > 0;
    assert multiset(toks)[tok] > 0;
    if out != [] {
      assert out[0] in out;
    }
  }

  /** A complete token that begins some sentence of the grammar is never penalised. */
  lemma MaskKeepsSentences(rules: Rules, stacks: seq<Stack>, toks: seq<Candidate>, rejects: seq<Candidate>,
                           tok: Candidate, rest: Word)
    requires WellFormed(rules) && NotLeftRecursive(rules) && AllAdvanced(rules, stacks) && CandidatesOk(toks)
    requires RejectsExactly(rules, stacks, toks, rejects)
    requires tok in toks && tok.partial.nRemain == 0
    requires SomeDerives(rules, stacks, WordFrom(tok.codePoints, tok.at) + rest)
    ensures tok !in rejects
  {
    AcceptWordIsDerivative(rules, stacks, WordFrom(tok.codePoints, tok.at), rest);
    MaskAgreesWithAcceptor(rules, stacks, toks, rejects, tok);
  }
}
