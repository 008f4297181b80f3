/** Accepting code points (`whisper_grammar_match_char`, `whisper_grammar_accept`) and building the first
stacks (`whisper_grammar_init`): the acceptor computes language derivatives. */
module GrammarAccept {
  import opened GrammarLanguage
  import opened GrammarAdvance

  ghost predicate AllAdvanced(rules: Rules, stacks: seq<Stack>) {
    forall s | s in stacks :: Advanced(rules, s)
  }

  // ---------------------------------------------------------------- What is computed

  /** The stack after its top character class has taken a code point, before it is advanced. */
  function Consume(rules: Rules, stack: Stack): (s: Stack)
    requires WellFormed(rules) && Advanced(rules, stack) && stack != []
    ensures StackOk(rules, s)
  {
    AfterIsItem(rules, Top(stack));
    Push(rules, Pop(stack), After(rules, Top(stack)))
  }

  function AcceptOne(rules: Rules, stack: Stack, c: nat): seq<Stack>
    requires WellFormed(rules) && NotLeftRecursive(rules) && Advanced(rules, stack)
  {
    if stack != [] && Accepts(Suffix(rules, Top(stack)), c) then Advance(rules, Consume(rules, stack)) else []
  }

  function Accept(rules: Rules, stacks: seq<Stack>, c: nat): seq<Stack>
    requires WellFormed(rules) && NotLeftRecursive(rules) && AllAdvanced(rules, stacks)
  {
    if stacks == [] then []
    else
      assert stacks[0] in stacks;
      AcceptOne(rules, stacks[0], c) + Accept(rules, stacks[1..], c)
  }

  function AcceptWord(rules: Rules, stacks: seq<Stack>, w: Word): (out: seq<Stack>)
    requires WellFormed(rules) && NotLeftRecursive(rules) && AllAdvanced(rules, stacks)
    ensures AllAdvanced(rules, out)
    decreases |w|
  {
    if w == [] then stacks
    else
      AcceptKeepsAdvanced(rules, stacks, w[0]);
      AcceptWord(rules, Accept(rules, stacks, w[0]), w[1..])
  }

  function StartStacks(rules: Rules, start: nat): (stacks: seq<Stack>)
    requires WellFormed(rules) && start < |rules|
    ensures forall s | s in stacks :: StackOk(rules, s)
  {
    assert WellFormedRule(rules[start], |rules|);
    AlternativesOk(rules, [], start, 0);
    Alternatives(rules, [], start, 0)
  }

  /** The stacks with which a grammar starts. */
  function Init(rules: Rules, start: nat): seq<Stack>
    requires WellFormed(rules) && NotLeftRecursive(rules) && start < |rules|
  {
    AdvanceAll(rules, StartStacks(rules, start))
  }

  // ---------------------------------------------------------------- The derivative

  lemma {:induction false} AcceptKeepsAdvanced(rules: Rules, stacks: seq<Stack>, c: nat)
    requires WellFormed(rules) && NotLeftRecursive(rules) && AllAdvanced(rules, stacks)
    ensures AllAdvanced(rules, Accept(rules, stacks, c))
  {
    if stacks != [] {
      assert stacks[0] in stacks;
      if AcceptOne(rules, stacks[0], c) != [] {
        AdvanceReachesClasses(rules, Consume(rules, stacks[0]));
      }
      AcceptKeepsAdvanced(rules, stacks[1..], c);
    }
  }

  lemma ConsumeIsDerivative(rules: Rules, stack: Stack, c: nat, w: Word)
    requires WellFormed(rules) && Advanced(rules, stack) && stack != []
    ensures Derives(rules, stack, [c] + w)
      <==> Accepts(Suffix(rules, Top(stack)), c) && Derives(rules, Consume(rules, stack), w)
  {
    hide StackOk, WellFormed;
    var p := Top(stack);
    var s, q := Suffix(rules, p), After(rules, p);
    AfterIsItem(rules, p);
    var cw := [c] + w;
    assert s[0] == ElementAt(rules, p) && Suffix(rules, q) == s[ClassLen(s)..];
    if Derives(rules, stack, cw) {
      var n: nat :| StackGen(rules, stack, cw, n);
      var k := ConsumeSplit(rules, stack, c, w, n);
      PushJoin(rules, Pop(stack), q, w, n, k);
    }
    if Accepts(s, c) && Derives(rules, Consume(rules, stack), w) {
      var n: nat :| StackGen(rules, Consume(rules, stack), w, n);
      var k := PushSplit(rules, Pop(stack), q, w, n);
      ConsumeJoin(rules, stack, c, w, n, k);
    }
  }

  lemma ConsumeSplit(rules: Rules, stack: Stack, c: nat, w: Word, n: nat) returns (k: nat)
    requires stack != [] && OnClass(rules, Top(stack)) && StackGen(rules, stack, [c] + w, n)
    requires ClassLen(Suffix(rules, Top(stack))) <= |Suffix(rules, Top(stack))|
    ensures k <= |w| && Accepts(Suffix(rules, Top(stack)), c)
    ensures Gen(rules, Suffix(rules, Top(stack))[ClassLen(Suffix(rules, Top(stack)))..], w[..k], n)
    ensures StackGen(rules, Pop(stack), w[k..], n)
  {
    hide Gen, Accepts;
    var s, cw := Suffix(rules, Top(stack)), [c] + w;
    var l :| 0 <= l <= |cw| && Gen(rules, s, cw[..l], n) && StackGen(rules, Pop(stack), cw[l..], n);
    assert s[0] == ElementAt(rules, Top(stack));
    GenClassStep(rules, s, cw[..l], n);
    k := l - 1;
    assert cw[..l][0] == c && cw[..l][1..] == w[..k] && cw[l..] == w[k..];
  }

  lemma ConsumeJoin(rules: Rules, stack: Stack, c: nat, w: Word, n: nat, k: nat)
    requires stack != [] && OnClass(rules, Top(stack)) && Accepts(Suffix(rules, Top(stack)), c)
    requires InRules(rules, After(rules, Top(stack))) && k <= |w|
    requires Suffix(rules, After(rules, Top(stack))) == Suffix(rules, Top(stack))[ClassLen(Suffix(rules, Top(stack)))..]
    requires Gen(rules, Suffix(rules, After(rules, Top(stack))), w[..k], n) && StackGen(rules, Pop(stack), w[k..], n)
    ensures StackGen(rules, stack, [c] + w, n)
  {
    hide Gen, StackGen, Accepts;
    var cw := [c] + w;
    assert cw[..k + 1][0] == c && cw[..k + 1][1..] == w[..k] && cw[k + 1..] == w[k..];
    GenOfClass(rules, Suffix(rules, Top(stack)), cw[..k + 1], n);
    StackGenOf(rules, stack, cw, n, k + 1);
  }

  lemma AcceptOneIsDerivative(rules: Rules, stack: Stack, c: nat, w: Word)
    requires WellFormed(rules) && NotLeftRecursive(rules) && Advanced(rules, stack)
    ensures SomeDerives(rules, AcceptOne(rules, stack, c), w) <==> Derives(rules, stack, [c] + w)
  {
    if stack != [] {
      ConsumeIsDerivative(rules, stack, c, w);
      AdvanceKeepsLanguage(rules, Consume(rules, stack), w);
    }
  }

  /** Accepting a code point is the language derivative: `w` is derived after accepting `c` exactly when
      `c` followed by `w` was derived before. */
  lemma {:induction false} AcceptIsDerivative(rules: Rules, stacks: seq<Stack>, c: nat, w: Word)
    requires WellFormed(rules) && NotLeftRecursive(rules) && AllAdvanced(rules, stacks)
    ensures SomeDerives(rules, Accept(rules, stacks, c), w) <==> SomeDerives(rules, stacks, [c] + w)
  {
    if stacks != [] {
      assert stacks[0] in stacks;
      AcceptOneIsDerivative(rules, stacks[0], c, w);
      AcceptIsDerivative(rules, stacks[1..], c, w);
      SomeDerivesConcat(rules, AcceptOne(rules, stacks[0], c), Accept(rules, stacks[1..], c), w);
      assert stacks == [stacks[0]] + stacks[1..];
      SomeDerivesConcat(rules, [stacks[0]], stacks[1..], [c] + w);
      SomeDerivesOne(rules, stacks[0], [c] + w);
    }
  }

  /** Accepting a whole word leaves exactly its completions. */
  lemma {:induction false} AcceptWordIsDerivative(rules: Rules, stacks: seq<Stack>, u: Word, v: Word)
    requires WellFormed(rules) && NotLeftRecursive(rules) && AllAdvanced(rules, stacks)
    ensures SomeDerives(rules, AcceptWord(rules, stacks, u), v) <==> SomeDerives(rules, stacks, u + v)
    decreases |u|
  {
    if u == [] {
      assert u + v == v;
    } else {
      AcceptKeepsAdvanced(rules, stacks, u[0]);
      AcceptWordIsDerivative(rules, Accept(rules, stacks, u[0]), u[1..], v);
      AcceptIsDerivative(rules, stacks, u[0], u[1..] + v);
      assert [u[0]] + (u[1..] + v) == u + v;
    }
  }

  lemma EmptyWordNeedsEmptyStack(rules: Rules, stack: Stack)
    requires Advanced(rules, stack)
    ensures Derives(rules, stack, []) <==> stack == []
  {
    if stack == [] {
      assert StackGen(rules, stack, [], 0);
    } else {
      assert Suffix(rules, Top(stack))[0] == ElementAt(rules, Top(stack));
    }
  }

  /** The stacks of a new grammar derive the language of its start rule. */
  lemma InitIsRuleLanguage(rules: Rules, start: nat, w: Word)
    requires WellFormed(rules) && NotLeftRecursive(rules) && start < |rules|
    ensures AllAdvanced(rules, Init(rules, start))
    ensures SomeDerives(rules, Init(rules, start), w) <==> InRuleLanguage(rules, start, w)
  {
    var stacks := StartStacks(rules, start);
    AdvanceAllReachesClasses(rules, stacks);
    AdvanceAllKeepsLanguage(rules, stacks, w);
    if SomeDerives(rules, stacks, w) {
      var s :| s in stacks && Derives(rules, s, w);
      StartStackDerives(rules, start, s, w);
    }
    if InRuleLanguage(rules, start, w) {
      RuleWordIsStarted(rules, start, w);
    }
  }

  lemma StartStackDerives(rules: Rules, start: nat, s: Stack, w: Word)
    requires WellFormed(rules) && start < |rules| && s in StartStacks(rules, start) && Derives(rules, s, w)
    ensures InRuleLanguage(rules, start, w)
  {
    assert WellFormedRule(rules[start], |rules|);
    var a := VisitsAlternates(rules, [], start, 0, s);
    AltStartIsItem(rules, start, a);
    var n: nat :| StackGen(rules, s, w, n);
    var k := PushSplit(rules, [], Pos(start, a), w, n);
    assert w[..k] == w;
    assert RuleGen(rules, start, w, n);
  }

  lemma RuleWordIsStarted(rules: Rules, start: nat, w: Word)
    requires WellFormed(rules) && start < |rules| && InRuleLanguage(rules, start, w)
    ensures SomeDerives(rules, StartStacks(rules, start), w)
  {
    hide WellFormed, Gen, StackGen, Push, Alternatives;
    var n: nat :| RuleGen(rules, start, w, n);
    var a :| IsAltStart(rules[start], a) && Gen(rules, rules[start][a..], w, n);
    AltStartIsItem(rules, start, a);
    AlternateIsVisited(rules, [], start, 0, a);
    StartStackGen(rules, Pos(start, a), w, n);
    assert Derives(rules, Push(rules, [], Pos(start, a)), w);
  }

  lemma StartStackGen(rules: Rules, p: Pos, w: Word, n: nat)
    requires OnItemOrEnd(rules, p) && Gen(rules, Suffix(rules, p), w, n)
    ensures StackGen(rules, Push(rules, [], p), w, n)
  {
    hide Gen, Push;
    assert w[..|w|] == w && StackGen(rules, [], w[|w|..], n);
    PushJoin(rules, [], p, w, n, |w|);
  }

  /** A word is in the language of the start rule exactly when accepting its code points one by one from
      the first stacks ends with the empty stack among the stacks. */
  lemma RecognisesExactly(rules: Rules, start: nat, w: Word)
    requires WellFormed(rules) && NotLeftRecursive(rules) && start < |rules|
    ensures AllAdvanced(rules, Init(rules, start))
    ensures InRuleLanguage(rules, start, w) <==> [] in AcceptWord(rules, Init(rules, start), w)
  {
    InitIsRuleLanguage(rules, start, w);
    AcceptWordIsDerivative(rules, Init(rules, start), w, []);
    assert w + [] == w;
    var out := AcceptWord(rules, Init(rules, start), w);
    if SomeDerives(rules, out, []) {
      var s :| s in out && Derives(rules, s, []);
      EmptyWordNeedsEmptyStack(rules, s);
    }
    if [] in out {
      EmptyWordNeedsEmptyStack(rules, []);
    }
  }

  // ---------------------------------------------------------------- The loops of the source

  /** What is left of a class from its range at `at` on: whether it contains `c`, and where it ends. */
  ghost function ClassFrom(rule: Rule, at: nat, c: nat): (r: (bool, nat))
    requires at < |rule|
  {
    (ClassHas(rule[at..], c), at + ClassLen(rule[at..]))
  }

  lemma ClassIs(s: seq<Element>, c: nat)
    requires |s| > 0
    ensures ClassHas(s, c) <==> RangeHas(s, c) || (MoreRanges(s) && ClassHas(s[RangeLen(s)..], c))
    ensures ClassLen(s) == RangeLen(s) + if MoreRanges(s) then ClassLen(s[RangeLen(s)..]) else 0
  {
  }

  lemma ClassStep(rule: Rule, ruleCount: nat, at: nat, c: nat)
    requires WellFormedRule(rule, ruleCount) && at < |rule|
    requires rule[at].kind.Char? || rule[at].kind.CharNot? || rule[at].kind.CharAlt?
    ensures at + 1 < |rule|
    ensures var (next, hit) :=
        if rule[at + 1].kind.CharRngUpper? then (at + 2, rule[at].value <= c <= rule[at + 1].value)
        else (at + 1, rule[at].value == c);
      && next < |rule|
      && ClassFrom(rule, at, c) ==
           if rule[next].kind.CharAlt? then (hit || ClassFrom(rule, next, c).0, ClassFrom(rule, next, c).1)
           else (hit, next)
  {
    ClassEndsInRule(rule, ruleCount, at);
    hide WellFormedRule, ClassHas, ClassLen, ClassFrom;
    ClassFromIs(rule, at, c);
    assert rule[at..][0] == rule[at] && rule[at..][1] == rule[at + 1];
  }

  lemma ClassFromIs(rule: Rule, at: nat, c: nat)
    requires at < |rule| && at + RangeLen(rule[at..]) < |rule|
    ensures var next, hit := at + RangeLen(rule[at..]), RangeHas(rule[at..], c);
      ClassFrom(rule, at, c) ==
        if rule[next].kind.CharAlt? then (hit || ClassFrom(rule, next, c).0, ClassFrom(rule, next, c).1)
          else (hit, next)
  {
    hide ClassHas, ClassLen, RangeLen, RangeHas;
    var s := rule[at..];
    var k := RangeLen(s);
    ClassIs(s, c);
    assert s[k] == rule[at + k] && s[k..] == rule[at + k..];
  }

  /** Scans the ranges of a character class; also returns the position after the class. */
  method MatchChar(rules: Rules, pos: Pos, c: nat) returns (matched: bool, next: Pos)
    requires WellFormed(rules) && OnClass(rules, pos)
    ensures matched == Accepts(Suffix(rules, pos), c)
    ensures next == After(rules, pos)
  {
    var rule := rules[pos.rule];
    assert WellFormedRule(rule, |rules|);
    var isPositiveChar := rule[pos.at].kind.Char?;
    var found, at, more := false, pos.at, true;
    while more
      invariant at < |rule|
      invariant more ==> rule[at].kind.Char? || rule[at].kind.CharNot? || rule[at].kind.CharAlt?
      invariant ClassFrom(rule, pos.at, c)
             == if more then (found || ClassFrom(rule, at, c).0, ClassFrom(rule, at, c).1) else (found, at)
      decreases more, |rule| - at
    {
      ClassStep(rule, |rules|, at, c);
      if rule[at + 1].kind.CharRngUpper? {
        found := found || rule[at].value <= c <= rule[at + 1].value;
        at := at + 2;
      } else {
        found := found || rule[at].value == c;
        at := at + 1;
      }
      more := rule[at].kind.CharAlt?;
    }
    matched, next := found == isPositiveChar, Pos(pos.rule, at);
  }

  /** Updates the top of the stack to the next element, if any. */
  method UpdateTop(rules: Rules, stack: Stack, next: Pos) returns (newStack: Stack)
    requires stack != [] && InRules(rules, next)
    ensures newStack == Push(rules, Pop(stack), next)
  {
    newStack := stack[..|stack| - 1];
    if !IsEndOfSequence(ElementAt(rules, next)) {
      newStack := newStack + [next];
    }
  }

  method SkipAlternate(rule: Rule, start: nat) returns (end: nat)
    requires start < |rule| && rule[|rule| - 1].kind.End?
    ensures end == SequenceEnd(rule, start)
  {
    end := start;
    while !IsEndOfSequence(rule[end])
      invariant start <= end < |rule| && SequenceEnd(rule, end) == SequenceEnd(rule, start)
      decreases |rule| - end
    {
      end := end + 1;
    }
  }

  /** What is still to be produced when the alternates from `a` on have not been visited. */
  ghost function Remaining(rules: Rules, base: Stack, r: nat, a: nat): seq<Stack>
    requires WellFormed(rules) && NotLeftRecursive(rules) && StackOk(rules, base)
    requires r < |rules| && IsAltStart(rules[r], a)
  {
    AlternativesOk(rules, base, r, a);
    AdvanceAll(rules, Alternatives(rules, base, r, a))
  }

  lemma RemainingStep(rules: Rules, base: Stack, r: nat, a: nat)
    requires WellFormed(rules) && NotLeftRecursive(rules) && StackOk(rules, base)
    requires r < |rules| && IsAltStart(rules[r], a) && rules[r][|rules[r]| - 1].kind.End?
    ensures StackOk(rules, Push(rules, base, Pos(r, a)))
    ensures rules[r][SequenceEnd(rules[r], a)].kind.Alt? ==> IsAltStart(rules[r], SequenceEnd(rules[r], a) + 1)
    ensures Remaining(rules, base, r, a)
      == Advance(rules, Push(rules, base, Pos(r, a))) + RemainingAfter(rules, base, r, a)
  {
    AlternativesOk(rules, base, r, a);
    var e := SequenceEnd(rules[r], a);
    var all, rest := Alternatives(rules, base, r, a), if rules[r][e].kind.Alt? then Alternatives(rules, base, r, e + 1)
      else [];
    assert all[0] == Push(rules, base, Pos(r, a)) && all[0] in all && all[1..] == rest;
    assert AdvanceAll(rules, all) == Advance(rules, all[0]) + AdvanceAll(rules, rest);
  }

  ghost function RemainingAfter(rules: Rules, base: Stack, r: nat, a: nat): seq<Stack>
    requires WellFormed(rules) && NotLeftRecursive(rules) && StackOk(rules, base)
    requires r < |rules| && IsAltStart(rules[r], a) && rules[r][|rules[r]| - 1].kind.End?
  {
    var e := SequenceEnd(rules[r], a);
    if rules[r][e].kind.Alt? then Remaining(rules, base, r, e + 1) else []
  }

  /** Appending the expansions of one alternate takes them off what remains. */
  lemma RemainingAppend(rules: Rules, base: Stack, r: nat, a: nat, before: seq<Stack>, after: seq<Stack>)
    requires WellFormed(rules) && NotLeftRecursive(rules) && StackOk(rules, base)
    requires r < |rules| && IsAltStart(rules[r], a) && rules[r][|rules[r]| - 1].kind.End?
    requires StackOk(rules, Push(rules, base, Pos(r, a)))
    requires after == before + Advance(rules, Push(rules, base, Pos(r, a)))
    ensures after + RemainingAfter(rules, base, r, a) == before + Remaining(rules, base, r, a)
  {
    hide WellFormed, NotLeftRecursive, StackOk, Remaining, RemainingAfter, Advance, Push;
    RemainingStep(rules, base, r, a);
  }

  lemma NoExpansion(rules: Rules, stack: Stack)
    requires WellFormed(rules) && NotLeftRecursive(rules) && StackOk(rules, stack) && !RefOnTop(rules, stack)
    ensures Advance(rules, stack) == [stack]
  {
    hide WellFormed, NotLeftRecursive, StackOk, RefOnTop;
  }

  /** All alternates of the rule on top remain before the first is visited. */
  lemma AllRemain(rules: Rules, stack: Stack)
    requires WellFormed(rules) && NotLeftRecursive(rules) && RefOnTop(rules, stack) && StackOk(rules, stack)
    ensures Remaining(rules, ExpansionBase(rules, stack), TopRule(rules, stack), 0) == Advance(rules, stack)
  {
    hide WellFormed, NotLeftRecursive, StackOk, StackWeight, Alternatives, AdvanceAll, Push;
  }

  lemma AfterAlternate(rules: Rules, base: Stack, r: nat, a: nat)
    requires WellFormed(rules) && NotLeftRecursive(rules) && StackOk(rules, base)
    requires r < |rules| && IsAltStart(rules[r], a) && rules[r][|rules[r]| - 1].kind.End?
    ensures var e := SequenceEnd(rules[r], a);
      RemainingAfter(rules, base, r, a) == if rules[r][e].kind.Alt? then Remaining(rules, base, r, e + 1) else []
  {
    hide WellFormed, NotLeftRecursive, StackOk, SequenceEnd, Remaining;
  }

  /** Appends the expansions of `stack` to `newStacks`. */
  method AdvanceStack(rules: Rules, stack: Stack, newStacks: seq<Stack>) returns (out: seq<Stack>)
    requires WellFormed(rules) && NotLeftRecursive(rules) && StackOk(rules, stack)
    ensures out == newStacks + Advance(rules, stack)
    decreases StackWeight(rules, Order(rules), stack)
  {
    hide StackWeight, NotLeftRecursive, WellFormed, SequenceEnd, Remaining, RemainingAfter, Advance, IsLeftOrder;
    out := newStacks;
    if !RefOnTop(rules, stack) {
      NoExpansion(rules, stack);
    }
    if stack == [] {
      return out + [[]];
    }
    var pos := Top(stack);
    match ElementAt(rules, pos).kind
    case RuleRef =>
      var ruleId := TopRule(rules, stack);
      var rule := rules[ruleId];
      ghost var base := ExpansionBase(rules, stack);
      AllRemain(rules, stack);
      ghost var all := out + Remaining(rules, base, ruleId, 0);
      var subpos, more := 0, true;
      while more
        invariant more ==> IsAltStart(rule, subpos) && out + Remaining(rules, base, ruleId, subpos) == all
        invariant !more ==> out + [] == all
        decreases more, |rule| - subpos
      {
        AfterIsItem(rules, pos);
        var newStack := UpdateTop(rules, stack, Pos(pos.rule, pos.at + 1));
        if !IsEndOfSequence(rule[subpos]) {
          newStack := newStack + [Pos(ruleId, subpos)];
        }
        RemainingStep(rules, base, ruleId, subpos);
        ExpandDecreases(rules, Order(rules), stack, subpos);
        ghost var before := out;
        out := AdvanceStack(rules, newStack, out);
        RemainingAppend(rules, base, ruleId, subpos, before, out);
        AfterAlternate(rules, base, ruleId, subpos);
        var end := SkipAlternate(rule, subpos);
        if rule[end].kind.Alt? {
          subpos := end + 1;
        } else {
          more := false;
        }
      }
    case Char => out := out + [stack];
    case CharNot => out := out + [stack];
    case _ => assert false;
  }

  lemma AcceptAppend(rules: Rules, stacks: seq<Stack>, i: nat, c: nat, before: seq<Stack>, after: seq<Stack>)
    requires WellFormed(rules) && NotLeftRecursive(rules) && AllAdvanced(rules, stacks) && i < |stacks|
    requires Advanced(rules, stacks[i]) && after == before + AcceptOne(rules, stacks[i], c)
    ensures after + Accept(rules, stacks[i + 1..], c) == before + Accept(rules, stacks[i..], c)
  {
    hide AcceptOne, WellFormed, NotLeftRecursive;
    var here, rest := AcceptOne(rules, stacks[i], c), Accept(rules, stacks[i + 1..], c);
    assert stacks[i..][0] == stacks[i] && stacks[i..][1..] == stacks[i + 1..];
    assert Accept(rules, stacks[i..], c) == here + rest;
    assert (before + here) + rest == before + (here + rest);
  }

  /** The stacks left after `c`, in the order of the stacks they come from. */
  method AcceptStacks(rules: Rules, stacks: seq<Stack>, c: nat) returns (newStacks: seq<Stack>)
    requires WellFormed(rules) && NotLeftRecursive(rules) && AllAdvanced(rules, stacks)
    ensures newStacks == Accept(rules, stacks, c)
  {
    newStacks := [];
    ghost var all := Accept(rules, stacks, c);
    for i := 0 to |stacks|
      invariant newStacks + Accept(rules, stacks[i..], c) == all
    {
      assert stacks[i] in stacks;
      ghost var before := newStacks;
      newStacks := AcceptStack(rules, stacks[i], c, newStacks);
      AcceptAppend(rules, stacks, i, c, before, newStacks);
    }
  }

  /** The body of the loop: appends what is left of one stack. */
  method AcceptStack(rules: Rules, stack: Stack, c: nat, newStacks: seq<Stack>) returns (out: seq<Stack>)
    requires WellFormed(rules) && NotLeftRecursive(rules) && Advanced(rules, stack)
    ensures out == newStacks + AcceptOne(rules, stack, c)
  {
    out := newStacks;
    if stack == [] {
      return;
    }
    var matched, pos := MatchChar(rules, Top(stack), c);
    if matched {
      AfterIsItem(rules, Top(stack));
      var newStack := UpdateTop(rules, stack, pos);
      out := AdvanceStack(rules, newStack, out);
    }
  }

  lemma RuleHasStart(rules: Rules, r: nat)
    requires WellFormed(rules) && r < |rules|
    ensures IsAltStart(rules[r], 0)
  {
    assert WellFormedRule(rules[r], |rules|);
  }

  lemma InitRemains(rules: Rules, start: nat)
    requires WellFormed(rules) && NotLeftRecursive(rules) && start < |rules| && IsAltStart(rules[start], 0)
    ensures StackOk(rules, []) && Remaining(rules, [], start, 0) == Init(rules, start)
  {
  }

  /** The stacks of a new grammar. */
  method InitStacks(rules: Rules, start: nat) returns (stacks: seq<Stack>)
    requires WellFormed(rules) && NotLeftRecursive(rules) && start < |rules|
    ensures stacks == Init(rules, start)
  {
    hide WellFormed, NotLeftRecursive, Remaining, RemainingAfter, SequenceEnd, Advance, Init;
    var rule := rules[start];
    RuleHasStart(rules, start);
    EndOfAlternate(rules, start, 0);
    stacks := [];
    ghost var all := stacks + Remaining(rules, [], start, 0);
    InitRemains(rules, start);
    assert all == Init(rules, start);
    var pos, more := 0, true;
    while more
      invariant more ==> IsAltStart(rule, pos) && stacks + Remaining(rules, [], start, pos) == all
      invariant !more ==> stacks + [] == all
      decreases more, |rule| - pos
    {
      var stack: Stack := [];
      if !IsEndOfSequence(rule[pos]) {
        stack := stack + [Pos(start, pos)];
      }
      RemainingStep(rules, [], start, pos);
      ghost var before := stacks;
      stacks := AdvanceStack(rules, stack, stacks);
      RemainingAppend(rules, [], start, pos, before, stacks);
      AfterAlternate(rules, [], start, pos);
      var end := SkipAlternate(rule, pos);
      if rule[end].kind.Alt? {
        pos := end + 1;
      } else {
        more := false;
      }
    }
  }
}
