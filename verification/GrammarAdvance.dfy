/** What expanding the rule reference on top of a stack gives (`whisper_grammar_advance_stack`), and that the language
of the stack is kept. The loops of the source that compute it are in `GrammarAccept`.

Expansion ends when no rule is left-recursive, also not through rules that derive the empty word; `GrammarTermination`
shows that it ends only then. */
module GrammarAdvance {
  import opened GrammarLanguage

  // ---------------------------------------------------------------- No left recursion

  /** A witness that a grammar is not left-recursive: rules that may be empty, and a rank that falls
      from a rule to every rule it can start with. */
  datatype LeftOrder = LeftOrder(nullable: set<nat>, rank: seq<nat>)

  predicate AllNullable(s: seq<Element>, o: LeftOrder) {
    AtEnd(s) || (s[0].kind.RuleRef? && s[0].value in o.nullable && AllNullable(s[1..], o))
  }

  /** Every rule that `s` can start with has a rank below `k`. */
  predicate LeadsBelow(s: seq<Element>, o: LeftOrder, k: nat) {
    AtEnd(s) || !s[0].kind.RuleRef?
    || (&& s[0].value < |o.rank| && o.rank[s[0].value] < k
        && (s[0].value in o.nullable ==> LeadsBelow(s[1..], o, k)))
  }

  ghost predicate IsLeftOrder(rules: Rules, o: LeftOrder) {
    && |o.rank| == |rules|
    && forall r, a | 0 <= r < |rules| && IsAltStart(rules[r], a) ::
         && LeadsBelow(rules[r][a..], o, o.rank[r])
         && (AllNullable(rules[r][a..], o) ==> r in o.nullable)
  }

  ghost predicate NotLeftRecursive(rules: Rules) {
    exists o :: IsLeftOrder(rules, o)
  }

  ghost function Order(rules: Rules): (o: LeftOrder)
    requires NotLeftRecursive(rules)
    ensures IsLeftOrder(rules, o)
  {
    var o :| IsLeftOrder(rules, o); o
  }

  // ---------------------------------------------------------------- The termination measure

  ghost function Pow(b: nat, e: nat): (p: nat)
    ensures b > 0 ==> p > 0
  {
    if e == 0 then 1 else b * Pow(b, e - 1)
  }

  lemma {:induction false} PowMonotone(b: nat, e: nat, f: nat)
    requires b > 0 && e <= f
    ensures Pow(b, e) <= Pow(b, f)
    decreases f
  {
    if e < f {
      PowMonotone(b, e, f - 1);
      assert Pow(b, f) == b * Pow(b, f - 1);
    }
  }

  ghost function MaxLength(rules: Rules): (m: nat)
    ensures forall r | 0 <= r < |rules| :: |rules[r]| <= m
  {
    if rules == [] then 0
    else var m := MaxLength(rules[..|rules| - 1]);
      if |rules[|rules| - 1]| > m then |rules[|rules| - 1]| else m
  }

  /** The weight of the references that `s` can start with. */
  ghost function Weight(s: seq<Element>, o: LeftOrder, b: nat): nat {
    if AtEnd(s) || !s[0].kind.RuleRef? || s[0].value >= |o.rank| then 0
    else Pow(b, o.rank[s[0].value]) + if s[0].value in o.nullable then Weight(s[1..], o, b) else 0
  }

  ghost function Base(rules: Rules): nat { MaxLength(rules) + 1 }

  ghost function StackWeight(rules: Rules, o: LeftOrder, stack: Stack): nat
    requires StackOk(rules, stack)
    decreases |stack|
  {
    if stack == [] then 0
    else Weight(Suffix(rules, Top(stack)), o, Base(rules))
         + if AllNullable(Suffix(rules, Top(stack)), o) then StackWeight(rules, o, Pop(stack)) else 0
  }

  lemma {:induction false} WeightBound(s: seq<Element>, o: LeftOrder, k: nat, b: nat)
    requires LeadsBelow(s, o, k) && b > 0
    ensures Weight(s, o, b) * b <= |s| * Pow(b, k)
    decreases |s|
  {
    if AtEnd(s) || !s[0].kind.RuleRef? || s[0].value >= |o.rank| {
    } else {
      var rank := o.rank[s[0].value];
      PowMonotone(b, rank + 1, k);
      assert Pow(b, rank) * b <= Pow(b, k);
      if s[0].value in o.nullable {
        WeightBound(s[1..], o, k, b);
        OneMoreBound(Pow(b, rank), Weight(s[1..], o, b), b, Pow(b, k), |s|);
      } else {
        OneMoreBound(Pow(b, rank), 0, b, Pow(b, k), |s|);
      }
    }
  }

  lemma OneMoreBound(p: nat, w: nat, b: nat, q: nat, n: nat)
    requires p * b <= q && n > 0 && (w * b <= (n - 1) * q || w == 0)
    ensures (p + w) * b <= n * q
  {
    assert (p + w) * b == p * b + w * b && n * q == q + (n - 1) * q;
  }

  lemma AlternateWeight(rules: Rules, o: LeftOrder, r: nat, a: nat)
    requires IsLeftOrder(rules, o) && r < |rules| && IsAltStart(rules[r], a)
    ensures Weight(rules[r][a..], o, Base(rules)) < Pow(Base(rules), o.rank[r])
  {
    var s, b := rules[r][a..], Base(rules);
    WeightBound(s, o, o.rank[r], b);
    CancelFactor(Weight(s, o, b), Pow(b, o.rank[r]), |s|, b);
  }

  lemma CancelFactor(w: nat, p: nat, len: nat, b: nat)
    requires w * b <= len * p && len < b && p > 0
    ensures w < p
  {
    assert len * p <= (b - 1) * p;
    if p <= w {
      MultiplyBoth(p, w, b);
    }
  }

  lemma MultiplyBoth(p: nat, w: nat, b: nat)
    requires p <= w
    ensures p * b <= w * b
  {
  }

  lemma PushWeight(rules: Rules, o: LeftOrder, stack: Stack, p: Pos)
    requires StackOk(rules, stack) && OnItemOrEnd(rules, p)
    ensures StackOk(rules, Push(rules, stack, p))
    ensures StackWeight(rules, o, Push(rules, stack, p))
         == Weight(Suffix(rules, p), o, Base(rules))
            + if AllNullable(Suffix(rules, p), o) then StackWeight(rules, o, stack) else 0
  {
    var pushed := Push(rules, stack, p);
    if !IsEndOfSequence(ElementAt(rules, p)) {
      assert Top(pushed) == p && Pop(pushed) == stack;
    }
  }

  // ---------------------------------------------------------------- Advancing a stack

  predicate RefOnTop(rules: Rules, stack: Stack) {
    StackOk(rules, stack) && stack != [] && ElementAt(rules, Top(stack)).kind.RuleRef?
  }

  /** The rule that the top of the stack refers to. */
  function TopRule(rules: Rules, stack: Stack): (r: nat)
    requires WellFormed(rules) && RefOnTop(rules, stack)
    ensures r < |rules| && |rules[r]| > 0 && rules[r][|rules[r]| - 1].kind.End?
  {
    assert WellFormedRule(rules[Top(stack).rule], |rules|);
    var r := ElementAt(rules, Top(stack)).value;
    assert WellFormedRule(rules[r], |rules|);
    r
  }

  /** The stack with its top reference replaced by the rest of its alternate and the alternate `sub`. */
  function Expand(rules: Rules, stack: Stack, sub: Pos): Stack
    requires WellFormed(rules) && RefOnTop(rules, stack)
    requires InRules(rules, sub)
  {
    AfterIsItem(rules, Top(stack));
    Push(rules, Push(rules, Pop(stack), After(rules, Top(stack))), sub)
  }

  /** The index of the end of the alternate that contains index `a`. */
  function SequenceEnd(rule: Rule, a: nat): (e: nat)
    requires a < |rule| && rule[|rule| - 1].kind.End?
    ensures a <= e < |rule| && IsEndOfSequence(rule[e])
    ensures forall i | a <= i < e :: !IsEndOfSequence(rule[i])
    decreases |rule| - a
  {
    if IsEndOfSequence(rule[a]) then a else SequenceEnd(rule, a + 1)
  }

  lemma NextAlternate(rule: Rule, a: nat, b: nat)
    requires IsAltStart(rule, b) && a < b && rule[|rule| - 1].kind.End?
    requires forall i | 0 <= i < |rule| - 1 :: !rule[i].kind.End?
    ensures var e := SequenceEnd(rule, a); e + 1 <= b && rule[e].kind.Alt? && IsAltStart(rule, e + 1)
  {
    var e := SequenceEnd(rule, a);
    assert e <= b - 1;
  }

  lemma AltStartIsItem(rules: Rules, r: nat, a: nat)
    requires WellFormed(rules) && r < |rules| && IsAltStart(rules[r], a)
    ensures OnItemOrEnd(rules, Pos(r, a))
  {
    assert WellFormedRule(rules[r], |rules|);
  }

  /** The suffixes of which an expanded stack is made. */
  lemma ExpandParts(rules: Rules, stack: Stack, a: nat)
    requires WellFormed(rules) && RefOnTop(rules, stack) && IsAltStart(rules[TopRule(rules, stack)], a)
    ensures var p, q, sub := Top(stack), After(rules, Top(stack)), Pos(TopRule(rules, stack), a);
      && OnItemOrEnd(rules, q) && OnItemOrEnd(rules, sub)
      && Suffix(rules, p)[0] == Element(RuleRef, sub.rule)
      && Suffix(rules, p)[1..] == Suffix(rules, q)
      && Suffix(rules, sub) == rules[sub.rule][a..]
      && StackOk(rules, Push(rules, Pop(stack), q))
      && StackOk(rules, Expand(rules, stack, sub))
      && Expand(rules, stack, sub) == Push(rules, Push(rules, Pop(stack), q), sub)
  {
    AltStartIsItem(rules, TopRule(rules, stack), a);
    AfterIsItem(rules, Top(stack));
    PushOk(rules, Pop(stack), After(rules, Top(stack)));
    PushOk(rules, Push(rules, Pop(stack), After(rules, Top(stack))), Pos(TopRule(rules, stack), a));
  }

  lemma ExpandWeight(rules: Rules, o: LeftOrder, stack: Stack, a: nat)
    requires WellFormed(rules) && RefOnTop(rules, stack) && IsAltStart(rules[TopRule(rules, stack)], a)
    requires |o.rank| == |rules|
    requires Weight(rules[TopRule(rules, stack)][a..], o, Base(rules)) < Pow(Base(rules), o.rank[TopRule(rules, stack)])
    requires AllNullable(rules[TopRule(rules, stack)][a..], o) ==> TopRule(rules, stack) in o.nullable
    ensures StackOk(rules, Expand(rules, stack, Pos(TopRule(rules, stack), a)))
    ensures StackWeight(rules, o, Expand(rules, stack, Pos(TopRule(rules, stack), a))) < StackWeight(rules, o, stack)
  {
    var q, sub := After(rules, Top(stack)), Pos(TopRule(rules, stack), a);
    ExpandParts(rules, stack, a);
    PushWeight(rules, o, Pop(stack), q);
    PushWeight(rules, o, Push(rules, Pop(stack), q), sub);
  }

  lemma ExpandDecreases(rules: Rules, o: LeftOrder, stack: Stack, a: nat)
    requires WellFormed(rules) && IsLeftOrder(rules, o) && RefOnTop(rules, stack)
    requires IsAltStart(rules[TopRule(rules, stack)], a)
    ensures StackOk(rules, Expand(rules, stack, Pos(TopRule(rules, stack), a)))
    ensures StackWeight(rules, o, Expand(rules, stack, Pos(TopRule(rules, stack), a))) < StackWeight(rules, o, stack)
  {
    AlternateWeight(rules, o, TopRule(rules, stack), a);
    ExpandWeight(rules, o, stack, a);
  }

  /** `base` with each alternate of rule `r` from the one at `a` on, in the order of the rule. */
  function Alternatives(rules: Rules, base: Stack, r: nat, a: nat): (out: seq<Stack>)
    requires WellFormed(rules) && r < |rules| && a < |rules[r]|
    decreases |rules[r]| - a
  {
    assert WellFormedRule(rules[r], |rules|);
    var e := SequenceEnd(rules[r], a);
    [Push(rules, base, Pos(r, a))] + if rules[r][e].kind.Alt? then Alternatives(rules, base, r, e + 1) else []
  }

  /** The loop over the alternates visits each of them, ... */
  lemma {:induction false} AlternateIsVisited(rules: Rules, base: Stack, r: nat, a: nat, b: nat)
    requires WellFormed(rules) && r < |rules| && IsAltStart(rules[r], a) && IsAltStart(rules[r], b) && a <= b
    ensures Push(rules, base, Pos(r, b)) in Alternatives(rules, base, r, a)
    decreases |rules[r]| - a
  {
    hide Push, WellFormed, WellFormedRule;
    EndOfAlternate(rules, r, a);
    if a < b {
      NextAlternate(rules[r], a, b);
      AlternateIsVisited(rules, base, r, SequenceEnd(rules[r], a) + 1, b);
    }
  }

  lemma EndOfAlternate(rules: Rules, r: nat, a: nat)
    requires WellFormed(rules) && r < |rules| && IsAltStart(rules[r], a)
    ensures |rules[r]| > 0 && rules[r][|rules[r]| - 1].kind.End?
    ensures forall i | 0 <= i < |rules[r]| - 1 :: !rules[r][i].kind.End?
    ensures var e := SequenceEnd(rules[r], a); rules[r][e].kind.Alt? ==> IsAltStart(rules[r], e + 1)
  {
    assert WellFormedRule(rules[r], |rules|);
  }

  /** ... and nothing else. */
  lemma {:induction false} VisitsAlternates(rules: Rules, base: Stack, r: nat, a: nat, s: Stack) returns (b: nat)
    requires WellFormed(rules) && r < |rules| && IsAltStart(rules[r], a)
    requires s in Alternatives(rules, base, r, a)
    ensures IsAltStart(rules[r], b) && s == Push(rules, base, Pos(r, b))
    decreases |rules[r]| - a
  {
    hide Push, WellFormed;
    EndOfAlternate(rules, r, a);
    if s == Push(rules, base, Pos(r, a)) {
      b := a;
    } else {
      b := VisitsAlternates(rules, base, r, SequenceEnd(rules[r], a) + 1, s);
    }
  }

  lemma AlternativesOk(rules: Rules, base: Stack, r: nat, a: nat)
    requires WellFormed(rules) && StackOk(rules, base) && r < |rules| && IsAltStart(rules[r], a)
    ensures forall s | s in Alternatives(rules, base, r, a) :: StackOk(rules, s)
  {
    forall s | s in Alternatives(rules, base, r, a)
      ensures StackOk(rules, s)
    {
      var b := VisitsAlternates(rules, base, r, a, s);
      AltStartIsItem(rules, r, b);
      PushOk(rules, base, Pos(r, b));
    }
  }

  /** The stack below the alternates that replace the reference on top. */
  function ExpansionBase(rules: Rules, stack: Stack): (base: Stack)
    requires WellFormed(rules) && RefOnTop(rules, stack)
    ensures StackOk(rules, base)
  {
    AfterIsItem(rules, Top(stack));
    Push(rules, Pop(stack), After(rules, Top(stack)))
  }

  function Expansions(rules: Rules, stack: Stack): seq<Stack>
    requires WellFormed(rules) && RefOnTop(rules, stack)
  {
    Alternatives(rules, ExpansionBase(rules, stack), TopRule(rules, stack), 0)
  }

  lemma ExpansionsAreAlternates(rules: Rules, stack: Stack, s: Stack) returns (b: nat)
    requires WellFormed(rules) && RefOnTop(rules, stack) && s in Expansions(rules, stack)
    ensures IsAltStart(rules[TopRule(rules, stack)], b) && s == Expand(rules, stack, Pos(TopRule(rules, stack), b))
  {
    b := VisitsAlternates(rules, ExpansionBase(rules, stack), TopRule(rules, stack), 0, s);
  }

  lemma AlternatesAreExpansions(rules: Rules, stack: Stack, b: nat)
    requires WellFormed(rules) && RefOnTop(rules, stack) && IsAltStart(rules[TopRule(rules, stack)], b)
    ensures Expand(rules, stack, Pos(TopRule(rules, stack), b)) in Expansions(rules, stack)
  {
    AlternateIsVisited(rules, ExpansionBase(rules, stack), TopRule(rules, stack), 0, b);
  }

  lemma ExpansionsDecrease(rules: Rules, o: LeftOrder, stack: Stack)
    requires WellFormed(rules) && IsLeftOrder(rules, o) && RefOnTop(rules, stack)
    ensures AllBelow(rules, o, Expansions(rules, stack), StackWeight(rules, o, stack))
  {
    forall s | s in Expansions(rules, stack)
      ensures StackOk(rules, s) && StackWeight(rules, o, s) < StackWeight(rules, o, stack)
    {
      var a := ExpansionsAreAlternates(rules, stack, s);
      ExpandDecreases(rules, o, stack, a);
    }
  }

  ghost predicate AllBelow(rules: Rules, o: LeftOrder, stacks: seq<Stack>, bound: nat) {
    forall s | s in stacks :: StackOk(rules, s) && StackWeight(rules, o, s) < bound
  }

  /** A bound on the weights of `stacks`. */
  ghost function Bound(rules: Rules, o: LeftOrder, stacks: seq<Stack>): (m: nat)
    requires forall s | s in stacks :: StackOk(rules, s)
    ensures AllBelow(rules, o, stacks, m)
    ensures forall b: nat | AllBelow(rules, o, stacks, b) :: m <= b
  {
    if stacks == [] then 0
    else
      assert stacks[0] in stacks;
      var m := Bound(rules, o, stacks[1..]);
      var h := StackWeight(rules, o, stacks[0]) + 1;
      assert forall b: nat | AllBelow(rules, o, stacks, b) :: h <= b && AllBelow(rules, o, stacks[1..], b);
      if h > m then h else m
  }

  /** All the stacks that `stack` expands to, in the order in which they are produced. */
  function Advance(rules: Rules, stack: Stack): seq<Stack>
    requires WellFormed(rules) && NotLeftRecursive(rules) && StackOk(rules, stack)
    decreases StackWeight(rules, Order(rules), stack), 1, 0
  {
    if RefOnTop(rules, stack) then
      ExpansionsDecrease(rules, Order(rules), stack);
      AdvanceAll(rules, Expansions(rules, stack))
    else [stack]
  }

  function AdvanceAll(rules: Rules, stacks: seq<Stack>): seq<Stack>
    requires WellFormed(rules) && NotLeftRecursive(rules)
    requires forall s | s in stacks :: StackOk(rules, s)
    decreases Bound(rules, Order(rules), stacks), 0, |stacks|
  {
    if stacks == [] then []
    else
      assert stacks[0] in stacks;
      assert AllBelow(rules, Order(rules), stacks[1..], Bound(rules, Order(rules), stacks));
      Advance(rules, stacks[0]) + AdvanceAll(rules, stacks[1..])
  }

  /** Advancing returns at least one stack, and each is empty or has a character class on top. */
  lemma {:induction false} AdvanceReachesClasses(rules: Rules, stack: Stack)
    requires WellFormed(rules) && NotLeftRecursive(rules) && StackOk(rules, stack)
    ensures |Advance(rules, stack)| > 0
    ensures forall s | s in Advance(rules, stack) :: Advanced(rules, s)
    decreases StackWeight(rules, Order(rules), stack), 1, 0
  {
    if RefOnTop(rules, stack) {
      ExpansionsDecrease(rules, Order(rules), stack);
      AdvanceAllReachesClasses(rules, Expansions(rules, stack));
    }
  }

  lemma {:induction false} AdvanceAllReachesClasses(rules: Rules, stacks: seq<Stack>)
    requires WellFormed(rules) && NotLeftRecursive(rules)
    requires forall s | s in stacks :: StackOk(rules, s)
    ensures |AdvanceAll(rules, stacks)| >= |stacks|
    ensures forall s | s in AdvanceAll(rules, stacks) :: Advanced(rules, s)
    decreases Bound(rules, Order(rules), stacks), 0, |stacks|
  {
    if stacks != [] {
      assert stacks[0] in stacks;
      assert AllBelow(rules, Order(rules), stacks[1..], Bound(rules, Order(rules), stacks));
      AdvanceReachesClasses(rules, stacks[0]);
      AdvanceAllReachesClasses(rules, stacks[1..]);
    }
  }

  // ---------------------------------------------------------------- Advancing keeps the language

  lemma GenReference(rules: Rules, s: seq<Element>, a: nat, u: Word, k: nat, n: nat)
    requires |s| > 0 && s[0].kind.RuleRef? && s[0].value < |rules| && IsAltStart(rules[s[0].value], a)
    requires k <= |u| && Gen(rules, rules[s[0].value][a..], u[..k], n) && Gen(rules, s[1..], u[k..], n)
    ensures Gen(rules, s, u, n + 1)
  {
    hide Gen;
    GenMonotone(rules, s[1..], u[k..], n, n + 1);
    GenOfSteps(rules, s, u, n + 1, a, k);
  }

  lemma ExpandGen(rules: Rules, stack: Stack, a: nat, w: Word, n: nat)
    requires WellFormed(rules) && RefOnTop(rules, stack) && IsAltStart(rules[TopRule(rules, stack)], a)
    requires StackGen(rules, Expand(rules, stack, Pos(TopRule(rules, stack), a)), w, n)
    ensures StackGen(rules, stack, w, n + 1)
  {
    var q, sub := After(rules, Top(stack)), Pos(TopRule(rules, stack), a);
    ExpandParts(rules, stack, a);
    var k := PushSplit(rules, Push(rules, Pop(stack), q), sub, w, n);
    var l := PushSplit(rules, Pop(stack), q, w[k..], n);
    JoinReference(rules, stack, a, w, n, k, l);
  }

  lemma JoinReference(rules: Rules, stack: Stack, a: nat, w: Word, n: nat, k: nat, l: nat)
    requires WellFormed(rules) && RefOnTop(rules, stack) && IsAltStart(rules[TopRule(rules, stack)], a)
    requires k + l <= |w|
    requires InRules(rules, After(rules, Top(stack)))
    requires Suffix(rules, Top(stack))[1..] == Suffix(rules, After(rules, Top(stack)))
    requires Gen(rules, Suffix(rules, Pos(TopRule(rules, stack), a)), w[..k], n)
    requires Gen(rules, Suffix(rules, After(rules, Top(stack))), w[k..][..l], n)
    requires StackGen(rules, Pop(stack), w[k..][l..], n)
    ensures StackGen(rules, stack, w, n + 1)
  {
    hide WellFormed, Gen, StackGen;
    var u := w[..k + l];
    assert u[..k] == w[..k] && u[k..] == w[k..][..l] && w[k..][l..] == w[k + l..];
    GenReference(rules, Suffix(rules, Top(stack)), a, u, k, n);
    StackGenMonotone(rules, Pop(stack), w[k + l..], n, n + 1);
    StackGenOf(rules, stack, w, n + 1, k + l);
  }

  lemma ChooseAlternate(rules: Rules, stack: Stack, w: Word, n: nat) returns (a: nat)
    requires WellFormed(rules) && RefOnTop(rules, stack)
    requires StackGen(rules, stack, w, n)
    ensures IsAltStart(rules[TopRule(rules, stack)], a)
    ensures StackOk(rules, Expand(rules, stack, Pos(TopRule(rules, stack), a)))
    ensures StackGen(rules, Expand(rules, stack, Pos(TopRule(rules, stack), a)), w, n)
  {
    hide Gen, StackGen, WellFormed, Expand, StackOk;
    var m := StackGenSteps(rules, stack, w, n);
    var k;
    ExpandParts(rules, stack, 0);
    a, k := GenSteps(rules, Suffix(rules, Top(stack)), w[..m], n);
    assert w[..m][..k] == w[..k] && w[..m][k..] == w[k..m];
    GenMonotone(rules, rules[TopRule(rules, stack)][a..], w[..k], n - 1, n);
    JoinExpansion(rules, stack, a, w, n, k, m);
  }

  lemma JoinExpansion(rules: Rules, stack: Stack, a: nat, w: Word, n: nat, k: nat, m: nat)
    requires WellFormed(rules) && RefOnTop(rules, stack) && IsAltStart(rules[TopRule(rules, stack)], a)
    requires k <= m <= |w|
    requires Gen(rules, rules[TopRule(rules, stack)][a..], w[..k], n)
    requires Gen(rules, Suffix(rules, Top(stack))[1..], w[k..m], n)
    requires StackGen(rules, Pop(stack), w[m..], n)
    ensures StackOk(rules, Expand(rules, stack, Pos(TopRule(rules, stack), a)))
    ensures StackGen(rules, Expand(rules, stack, Pos(TopRule(rules, stack), a)), w, n)
  {
    hide WellFormed, Gen, StackGen, Push;
    var q, sub := After(rules, Top(stack)), Pos(TopRule(rules, stack), a);
    ExpandParts(rules, stack, a);
    var v := w[k..];
    assert v[..m - k] == w[k..m] && v[m - k..] == w[m..];
    PushJoin(rules, Pop(stack), q, v, n, m - k);
    PushJoin(rules, Push(rules, Pop(stack), q), sub, w, n, k);
  }

  lemma ExpansionsKeepLanguage(rules: Rules, stack: Stack, w: Word)
    requires WellFormed(rules) && RefOnTop(rules, stack)
    ensures SomeDerives(rules, Expansions(rules, stack), w) <==> Derives(rules, stack, w)
  {
    if SomeDerives(rules, Expansions(rules, stack), w) {
      var s :| s in Expansions(rules, stack) && Derives(rules, s, w);
      var n: nat :| StackGen(rules, s, w, n);
      var a := ExpansionsAreAlternates(rules, stack, s);
      ExpandGen(rules, stack, a, w, n);
    }
    if Derives(rules, stack, w) {
      var n: nat :| StackGen(rules, stack, w, n);
      var a := ChooseAlternate(rules, stack, w, n);
      AlternatesAreExpansions(rules, stack, a);
      assert Derives(rules, Expand(rules, stack, Pos(TopRule(rules, stack), a)), w);
    }
  }

  /** Advancing a stack keeps its language. */
  lemma {:induction false} AdvanceKeepsLanguage(rules: Rules, stack: Stack, w: Word)
    requires WellFormed(rules) && NotLeftRecursive(rules) && StackOk(rules, stack)
    ensures SomeDerives(rules, Advance(rules, stack), w) <==> Derives(rules, stack, w)
    decreases StackWeight(rules, Order(rules), stack), 1, 0
  {
    if RefOnTop(rules, stack) {
      ExpansionsDecrease(rules, Order(rules), stack);
      ExpansionsKeepLanguage(rules, stack, w);
      AdvanceAllKeepsLanguage(rules, Expansions(rules, stack), w);
    } else {
      SomeDerivesOne(rules, stack, w);
    }
  }

  lemma {:induction false} AdvanceAllKeepsLanguage(rules: Rules, stacks: seq<Stack>, w: Word)
    requires WellFormed(rules) && NotLeftRecursive(rules)
    requires forall s | s in stacks :: StackOk(rules, s)
    ensures SomeDerives(rules, AdvanceAll(rules, stacks), w) <==> SomeDerives(rules, stacks, w)
    decreases Bound(rules, Order(rules), stacks), 0, |stacks|
  {
    if stacks != [] {
      assert stacks[0] in stacks;
      assert AllBelow(rules, Order(rules), stacks[1..], Bound(rules, Order(rules), stacks));
      AdvanceKeepsLanguage(rules, stacks[0], w);
      AdvanceAllKeepsLanguage(rules, stacks[1..], w);
      SomeDerivesConcat(rules, Advance(rules, stacks[0]), AdvanceAll(rules, stacks[1..]), w);
      assert stacks == [stacks[0]] + stacks[1..];
      SomeDerivesConcat(rules, [stacks[0]], stacks[1..], w);
      SomeDerivesOne(rules, stacks[0], w);
    }
  }
}
