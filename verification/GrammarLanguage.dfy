/** The compiled grammar format (whisper.h) and the language it denotes.

A rule is a flat sequence of elements: alternates separated by `Alt`, closed by a single `End`.
A character class is a `Char` or `CharNot` element followed by its `CharRngUpper`/`CharAlt` parts.
*/
module GrammarLanguage {

  datatype Kind = End | Alt | RuleRef | Char | CharNot | CharRngUpper | CharAlt

  datatype Element = Element(kind: Kind, value: nat)

  type Rule = seq<Element>
  type Rules = seq<Rule>
  type Word = seq<nat>

  /** An element pointer: an index into one of the rules. */
  datatype Pos = Pos(rule: nat, at: nat)

  /** A pushdown stack; the top is the last element. */
  type Stack = seq<Pos>

  // ---------------------------------------------------------------- Character classes

  predicate IsEndOfSequence(e: Element) {
    e.kind.End? || e.kind.Alt?
  }

  predicate AtEnd(s: seq<Element>) {
    |s| == 0 || IsEndOfSequence(s[0])
  }

  /** Number of elements taken by the range or single character at the head of `s`. */
  function RangeLen(s: seq<Element>): (k: nat)
    requires |s| > 0
    ensures 1 <= k <= |s|
  {
    if |s| > 1 && s[1].kind.CharRngUpper? then 2 else 1
  }

  predicate RangeHas(s: seq<Element>, c: nat)
    requires |s| > 0
  {
    if RangeLen(s) == 2 then s[0].value <= c <= s[1].value else s[0].value == c
  }

  /** Whether the class goes on after its first range. */
  predicate MoreRanges(s: seq<Element>)
    requires |s| > 0
  {
    RangeLen(s) < |s| && s[RangeLen(s)].kind.CharAlt?
  }

  /** Number of elements taken by the whole character class at the head of `s`. */
  function ClassLen(s: seq<Element>): (k: nat)
    requires |s| > 0
    ensures 1 <= k <= |s|
  {
    if MoreRanges(s) then RangeLen(s) + ClassLen(s[RangeLen(s)..]) else RangeLen(s)
  }

  /** Whether some range of the class at the head of `s` contains `c`. */
  predicate ClassHas(s: seq<Element>, c: nat)
    requires |s| > 0
  {
    RangeHas(s, c) || (MoreRanges(s) && ClassHas(s[RangeLen(s)..], c))
  }

  /** Whether the (positive or negated) class at the head of `s` accepts `c`. */
  predicate Accepts(s: seq<Element>, c: nat)
    requires |s| > 0
  {
    ClassHas(s, c) == s[0].kind.Char?
  }

  // ---------------------------------------------------------------- Well-formed rules

  predicate WellFormedRule(rule: Rule, ruleCount: nat) {
    && |rule| > 0
    && (forall i | 0 <= i < |rule| :: rule[i].kind.End? <==> i == |rule| - 1)
    && (forall i | 0 <= i < |rule| :: rule[i].kind.RuleRef? ==> rule[i].value < ruleCount)
    && (forall i | 0 <= i < |rule| :: rule[i].kind.CharRngUpper? ==>
          i > 0 && (rule[i - 1].kind.Char? || rule[i - 1].kind.CharNot? || rule[i - 1].kind.CharAlt?))
    && (forall i | 0 <= i < |rule| :: rule[i].kind.CharAlt? ==>
          i > 0 && (rule[i - 1].kind.Char? || rule[i - 1].kind.CharNot? || rule[i - 1].kind.CharAlt?
                    || rule[i - 1].kind.CharRngUpper?))
  }

  predicate WellFormed(rules: Rules) {
    forall r | 0 <= r < |rules| :: WellFormedRule(rules[r], |rules|)
  }

  predicate IsAltStart(rule: Rule, a: int) {
    0 <= a < |rule| && (a == 0 || rule[a - 1].kind.Alt?)
  }

  // ---------------------------------------------------------------- The language

  /** `w` is derived by the rest `s` of an alternate, with rules nested at most `n` deep. */
  ghost predicate Gen(rules: Rules, s: seq<Element>, w: Word, n: nat)
    decreases n, |s|
  {
    if AtEnd(s) then w == []
    else match s[0].kind
      case RuleRef =>
        n > 0 && s[0].value < |rules| &&
        exists a, k | 0 <= k <= |w| ::
          && IsAltStart(rules[s[0].value], a)
          && Gen(rules, rules[s[0].value][a..], w[..k], n - 1)
          && Gen(rules, s[1..], w[k..], n)
      case Char => |w| > 0 && Accepts(s, w[0]) && Gen(rules, s[ClassLen(s)..], w[1..], n)
      case CharNot => |w| > 0 && Accepts(s, w[0]) && Gen(rules, s[ClassLen(s)..], w[1..], n)
      case _ => false
  }

  /** The language of a rule: the union of the languages of its alternates. */
  ghost predicate RuleGen(rules: Rules, r: nat, w: Word, n: nat) {
    r < |rules| && exists a :: IsAltStart(rules[r], a) && Gen(rules, rules[r][a..], w, n)
  }

  ghost predicate InRuleLanguage(rules: Rules, r: nat, w: Word) {
    exists n: nat :: RuleGen(rules, r, w, n)
  }

  lemma GenSteps(rules: Rules, s: seq<Element>, w: Word, n: nat) returns (a: nat, k: nat)
    requires Gen(rules, s, w, n) && |s| > 0 && s[0].kind.RuleRef?
    ensures n > 0 && s[0].value < |rules| && IsAltStart(rules[s[0].value], a) && k <= |w|
    ensures Gen(rules, rules[s[0].value][a..], w[..k], n - 1) && Gen(rules, s[1..], w[k..], n)
  {
    var b, l :| 0 <= l <= |w| && IsAltStart(rules[s[0].value], b)
      && Gen(rules, rules[s[0].value][b..], w[..l], n - 1) && Gen(rules, s[1..], w[l..], n);
    a, k := b, l;
  }

  lemma GenOfSteps(rules: Rules, s: seq<Element>, w: Word, n: nat, a: nat, k: nat)
    requires |s| > 0 && s[0].kind.RuleRef?
    requires n > 0 && s[0].value < |rules| && IsAltStart(rules[s[0].value], a) && k <= |w|
    requires Gen(rules, rules[s[0].value][a..], w[..k], n - 1) && Gen(rules, s[1..], w[k..], n)
    ensures Gen(rules, s, w, n)
  {
  }

  lemma GenOfClass(rules: Rules, s: seq<Element>, w: Word, n: nat)
    requires |s| > 0 && (s[0].kind.Char? || s[0].kind.CharNot?) && |w| > 0 && Accepts(s, w[0])
    requires Gen(rules, s[ClassLen(s)..], w[1..], n)
    ensures Gen(rules, s, w, n)
  {
    hide Accepts, ClassLen;
  }

  lemma GenClassStep(rules: Rules, s: seq<Element>, w: Word, n: nat)
    requires Gen(rules, s, w, n) && !AtEnd(s) && !s[0].kind.RuleRef?
    ensures (s[0].kind.Char? || s[0].kind.CharNot?) && |w| > 0 && Accepts(s, w[0]) &&
      Gen(rules, s[ClassLen(s)..], w[1..], n)
  {
    hide Accepts, ClassLen;
  }

  lemma GenAtEnd(rules: Rules, s: seq<Element>, w: Word, n: nat)
    requires AtEnd(s)
    ensures Gen(rules, s, w, n) <==> w == []
  {
  }

  lemma {:induction false} GenMonotone(rules: Rules, s: seq<Element>, w: Word, n: nat, m: nat)
    requires Gen(rules, s, w, n) && n <= m
    ensures Gen(rules, s, w, m)
    decreases n, |s|
  {
    hide Gen, Accepts;
    if AtEnd(s) {
      GenAtEnd(rules, s, w, n);
      GenAtEnd(rules, s, w, m);
    } else if s[0].kind.RuleRef? {
      var a, k := GenSteps(rules, s, w, n);
      var rule := rules[s[0].value];
      GenMonotone(rules, rule[a..], w[..k], n - 1, m - 1);
      GenMonotone(rules, s[1..], w[k..], n, m);
      GenOfSteps(rules, s, w, m, a, k);
    } else {
      GenClassStep(rules, s, w, n);
      GenMonotone(rules, s[ClassLen(s)..], w[1..], n, m);
      GenOfClass(rules, s, w, m);
    }
  }

  // ---------------------------------------------------------------- Positions and stacks

  predicate InRules(rules: Rules, p: Pos) {
    p.rule < |rules| && p.at < |rules[p.rule]|
  }

  function ElementAt(rules: Rules, p: Pos): Element
    requires InRules(rules, p)
  {
    rules[p.rule][p.at]
  }

  function Suffix(rules: Rules, p: Pos): (s: seq<Element>)
    requires InRules(rules, p)
  {
    rules[p.rule][p.at..]
  }

  predicate OnClass(rules: Rules, p: Pos) {
    InRules(rules, p) && (ElementAt(rules, p).kind.Char? || ElementAt(rules, p).kind.CharNot?)
  }

  predicate OnItem(rules: Rules, p: Pos) {
    OnClass(rules, p) || (InRules(rules, p) && ElementAt(rules, p).kind.RuleRef?)
  }

  predicate OnItemOrEnd(rules: Rules, p: Pos) {
    OnItem(rules, p) || (InRules(rules, p) && IsEndOfSequence(ElementAt(rules, p)))
  }

  predicate StackOk(rules: Rules, stack: Stack) {
    forall i | 0 <= i < |stack| :: OnItem(rules, stack[i])
  }

  /** A stack on which no rule reference is waiting to be expanded. */
  predicate Advanced(rules: Rules, stack: Stack) {
    StackOk(rules, stack) && (stack == [] || OnClass(rules, stack[|stack| - 1]))
  }

  function Top(stack: Stack): Pos
    requires stack != []
  {
    stack[|stack| - 1]
  }

  function Pop(stack: Stack): Stack
    requires stack != []
  {
    stack[..|stack| - 1]
  }

  ghost predicate StackGen(rules: Rules, stack: Stack, w: Word, n: nat)
    decreases |stack|
  {
    if stack == [] then w == []
    else
      && OnItem(rules, Top(stack))
      && exists k | 0 <= k <= |w| ::
           Gen(rules, Suffix(rules, Top(stack)), w[..k], n) && StackGen(rules, Pop(stack), w[k..], n)
  }

  /** The language of a stack: its top item first, then the rest of the stack. */
  ghost predicate Derives(rules: Rules, stack: Stack, w: Word) {
    exists n: nat :: StackGen(rules, stack, w, n)
  }

  ghost predicate SomeDerives(rules: Rules, stacks: seq<Stack>, w: Word) {
    exists s | s in stacks :: Derives(rules, s, w)
  }

  lemma {:induction false} StackGenMonotone(rules: Rules, stack: Stack, w: Word, n: nat, m: nat)
    requires StackGen(rules, stack, w, n) && n <= m
    ensures StackGen(rules, stack, w, m)
    decreases |stack|
  {
    if stack != [] {
      var k :| 0 <= k <= |w| && Gen(rules, Suffix(rules, Top(stack)), w[..k], n)
        && StackGen(rules, Pop(stack), w[k..], n);
      GenMonotone(rules, Suffix(rules, Top(stack)), w[..k], n, m);
      StackGenMonotone(rules, Pop(stack), w[k..], n, m);
    }
  }

  lemma StackGenSteps(rules: Rules, stack: Stack, w: Word, n: nat) returns (k: nat)
    requires stack != [] && StackGen(rules, stack, w, n)
    ensures OnItem(rules, Top(stack)) && k <= |w|
    ensures Gen(rules, Suffix(rules, Top(stack)), w[..k], n) && StackGen(rules, Pop(stack), w[k..], n)
  {
    hide Gen;
    var l :| 0 <= l <= |w| && Gen(rules, Suffix(rules, Top(stack)), w[..l], n) &&
      StackGen(rules, Pop(stack), w[l..], n);
    k := l;
  }

  lemma StackGenOf(rules: Rules, stack: Stack, w: Word, n: nat, k: nat)
    requires stack != [] && OnItem(rules, Top(stack)) && k <= |w|
    requires Gen(rules, Suffix(rules, Top(stack)), w[..k], n) && StackGen(rules, Pop(stack), w[k..], n)
    ensures StackGen(rules, stack, w, n)
  {
    hide Gen, Suffix, OnItem;
  }

  lemma SomeDerivesConcat(rules: Rules, xs: seq<Stack>, ys: seq<Stack>, w: Word)
    ensures SomeDerives(rules, xs + ys, w) <==> SomeDerives(rules, xs, w) || SomeDerives(rules, ys, w)
  {
    if s :| s in xs && Derives(rules, s, w) {
      assert s in xs + ys;
    }
    if s :| s in ys && Derives(rules, s, w) {
      assert s in xs + ys;
    }
  }

  lemma SomeDerivesOne(rules: Rules, s: Stack, w: Word)
    ensures SomeDerives(rules, [s], w) <==> Derives(rules, s, w)
  {
    assert s in [s];
  }

  /** The position after the item at `p`. */
  function After(rules: Rules, p: Pos): (q: Pos)
    requires OnItem(rules, p)
  {
    if ElementAt(rules, p).kind.RuleRef? then Pos(p.rule, p.at + 1)
    else Pos(p.rule, p.at + ClassLen(Suffix(rules, p)))
  }

  /** Inside a well-formed rule the item after an item starts an item or ends the alternate. */
  lemma AfterIsItem(rules: Rules, p: Pos)
    requires WellFormed(rules) && OnItem(rules, p)
    ensures OnItemOrEnd(rules, After(rules, p))
    ensures Suffix(rules, After(rules, p))
      == Suffix(rules, p)[if ElementAt(rules, p).kind.RuleRef? then 1 else ClassLen(Suffix(rules, p))..]
  {
    assert WellFormedRule(rules[p.rule], |rules|);
    if OnClass(rules, p) {
      ClassEndsInRule(rules[p.rule], |rules|, p.at);
    }
  }

  lemma {:induction false} ClassEndsInRule(rule: Rule, ruleCount: nat, at: nat)
    requires WellFormedRule(rule, ruleCount) && at < |rule|
    requires rule[at].kind.Char? || rule[at].kind.CharNot? || rule[at].kind.CharAlt?
    ensures var e := at + ClassLen(rule[at..]);
      e < |rule| && !rule[e].kind.CharAlt? && !rule[e].kind.CharRngUpper?
    decreases |rule| - at
  {
    var s := rule[at..];
    var next := at + RangeLen(s);
    assert rule[next - 1].kind != End;
    if MoreRanges(s) {
      assert s[RangeLen(s)..] == rule[next..];
      ClassEndsInRule(rule, ruleCount, next);
    }
  }

  /** Pushing a position drops it when it has reached the end of its alternate. */
  function Push(rules: Rules, stack: Stack, p: Pos): Stack
    requires InRules(rules, p)
  {
    if IsEndOfSequence(ElementAt(rules, p)) then stack else stack + [p]
  }

  lemma PushOk(rules: Rules, stack: Stack, p: Pos)
    requires StackOk(rules, stack) && OnItemOrEnd(rules, p)
    ensures StackOk(rules, Push(rules, stack, p))
  {
  }

  /** A pushed position derives a prefix of what the stack derives, ... */
  lemma PushSplit(rules: Rules, stack: Stack, p: Pos, w: Word, n: nat) returns (k: nat)
    requires OnItemOrEnd(rules, p)
    requires StackGen(rules, Push(rules, stack, p), w, n)
    ensures k <= |w| && Gen(rules, Suffix(rules, p), w[..k], n) && StackGen(rules, stack, w[k..], n)
  {
    var pushed := Push(rules, stack, p);
    if IsEndOfSequence(ElementAt(rules, p)) {
      k := 0;
      assert AtEnd(Suffix(rules, p)) && w[..0] == [] && w[0..] == w;
    } else {
      assert Top(pushed) == p && Pop(pushed) == stack;
      k :| 0 <= k <= |w| && Gen(rules, Suffix(rules, p), w[..k], n) && StackGen(rules, stack, w[k..], n);
    }
  }

  /** ... and the other way around. */
  lemma PushJoin(rules: Rules, stack: Stack, p: Pos, w: Word, n: nat, k: nat)
    requires OnItemOrEnd(rules, p)
    requires k <= |w| && Gen(rules, Suffix(rules, p), w[..k], n) && StackGen(rules, stack, w[k..], n)
    ensures StackGen(rules, Push(rules, stack, p), w, n)
  {
    var pushed := Push(rules, stack, p);
    if IsEndOfSequence(ElementAt(rules, p)) {
      assert AtEnd(Suffix(rules, p)) && w[k..] == w;
    } else {
      assert Top(pushed) == p && Pop(pushed) == stack;
    }
  }
}
