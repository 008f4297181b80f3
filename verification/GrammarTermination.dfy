/** Expanding references ends exactly for rules that are not left-recursive (`whisper_grammar_advance_stack`).

If every chain of expansions ends, the length of the longest one from each rule ranks the rules. */
module GrammarTermination {
  import opened GrammarLanguage
  import opened GrammarAdvance

  /** `n` expansions in a row are possible from the stack. */
  ghost predicate Chain(rules: Rules, s: Stack, n: nat)
    requires WellFormed(rules)
    decreases n
  {
    n == 0 || (RefOnTop(rules, s) && exists t | t in Expansions(rules, s) :: Chain(rules, t, n - 1))
  }

  ghost predicate Ends(rules: Rules, s: Stack)
    requires WellFormed(rules)
  {
    exists n: nat :: !Chain(rules, s, n)
  }

  /** No stack can be expanded for ever. */
  ghost predicate AllEnd(rules: Rules)
    requires WellFormed(rules)
  {
    forall s | StackOk(rules, s) :: Ends(rules, s)
  }

  /** `k` expansions lead from `s` to `t`. */
  ghost predicate Reaches(rules: Rules, s: Stack, t: Stack, k: nat)
    requires WellFormed(rules)
    decreases k
  {
    if k == 0 then s == t
    else RefOnTop(rules, s) && exists u | u in Expansions(rules, s) :: Reaches(rules, u, t, k - 1)
  }

  // ---------------------------------------------------------------- An order bounds the chains

  lemma {:induction false} ChainIsBounded(rules: Rules, o: LeftOrder, s: Stack, n: nat)
    requires WellFormed(rules) && IsLeftOrder(rules, o) && StackOk(rules, s) && Chain(rules, s, n)
    ensures n <= StackWeight(rules, o, s)
    decreases n
  {
    hide WellFormed, IsLeftOrder, StackWeight, Expansions;
    if n > 0 {
      var t :| t in Expansions(rules, s) && Chain(rules, t, n - 1);
      ExpansionsDecrease(rules, o, s);
      ChainIsBounded(rules, o, t, n - 1);
    }
  }

  // ---------------------------------------------------------------- Chains

  lemma {:induction false} ChainShorter(rules: Rules, s: Stack, n: nat, m: nat)
    requires WellFormed(rules) && Chain(rules, s, n) && m <= n
    ensures Chain(rules, s, m)
    decreases m
  {
    hide WellFormed, Expansions, RefOnTop;
    if m > 0 {
      var t :| t in Expansions(rules, s) && Chain(rules, t, n - 1);
      ChainShorter(rules, t, n - 1, m - 1);
    }
  }

  lemma {:induction false} ReachesChain(rules: Rules, s: Stack, t: Stack, k: nat, n: nat)
    requires WellFormed(rules) && Reaches(rules, s, t, k) && Chain(rules, t, n)
    ensures Chain(rules, s, k + n)
    decreases k
  {
    hide WellFormed, Expansions, RefOnTop;
    if k > 0 {
      var u :| u in Expansions(rules, s) && Reaches(rules, u, t, k - 1);
      ReachesChain(rules, u, t, k - 1, n);
    }
  }

  lemma {:induction false} ReachesJoin(rules: Rules, s: Stack, t: Stack, u: Stack, k: nat, l: nat)
    requires WellFormed(rules) && Reaches(rules, s, t, k) && Reaches(rules, t, u, l)
    ensures Reaches(rules, s, u, k + l)
    decreases k
  {
    hide WellFormed, Expansions, RefOnTop;
    if k > 0 {
      var v :| v in Expansions(rules, s) && Reaches(rules, v, t, k - 1);
      ReachesJoin(rules, v, t, u, k - 1, l);
    }
  }

  /** What is below the part that is expanded does not matter. */
  lemma ExpandOnBase(rules: Rules, base: Stack, s: Stack, b: nat)
    requires WellFormed(rules) && RefOnTop(rules, s) && StackOk(rules, base) && IsAltStart(rules[TopRule(rules, s)], b)
    ensures RefOnTop(rules, base + s) && TopRule(rules, base + s) == TopRule(rules, s)
    ensures Expand(rules, base + s, Pos(TopRule(rules, s), b)) == base + Expand(rules, s, Pos(TopRule(rules, s), b))
    ensures base + Expand(rules, s, Pos(TopRule(rules, s), b)) in Expansions(rules, base + s)
  {
    hide WellFormed, Expansions;
    var more := base + s;
    assert Top(more) == Top(s) && Pop(more) == base + Pop(s);
    AfterIsItem(rules, Top(s));
    AlternatesAreExpansions(rules, more, b);
  }

  lemma {:induction false} ChainOnBase(rules: Rules, base: Stack, s: Stack, n: nat)
    requires WellFormed(rules) && StackOk(rules, base) && Chain(rules, s, n)
    ensures Chain(rules, base + s, n)
    decreases n
  {
    hide WellFormed, Expansions, RefOnTop, StackOk, Expand;
    if n > 0 {
      var t :| t in Expansions(rules, s) && Chain(rules, t, n - 1);
      var b := ExpansionsAreAlternates(rules, s, t);
      ExpandOnBase(rules, base, s, b);
      ChainOnBase(rules, base, t, n - 1);
    }
  }

  // ---------------------------------------------------------------- Rules that may be empty

  /** Expanding a position that derives the empty word can take it off the stack. */
  lemma {:induction false} EmptyReaches(rules: Rules, base: Stack, p: Pos, n: nat) returns (k: nat)
    requires WellFormed(rules) && StackOk(rules, base) && OnItemOrEnd(rules, p) && Gen(rules, Suffix(rules, p), [], n)
    ensures Reaches(rules, Push(rules, base, p), base, k)
    decreases n, |Suffix(rules, p)|
  {
    hide WellFormed, Expansions, Gen, Reaches;
    if IsEndOfSequence(ElementAt(rules, p)) {
      k := 0;
      ReachesSelf(rules, base);
    } else {
      EmptyIsReference(rules, Suffix(rules, p), n);
      var stack, s := Push(rules, base, p), Suffix(rules, p);
      assert s[0] == ElementAt(rules, p) && Top(stack) == p && Pop(stack) == base;
      var a, j := GenSteps(rules, s, [], n);
      var q, sub := After(rules, p), Pos(TopRule(rules, stack), a);
      ExpandParts(rules, stack, a);
      AlternatesAreExpansions(rules, stack, a);
      var k1 := EmptyReaches(rules, Push(rules, base, q), sub, n - 1);
      var k2 := EmptyReaches(rules, base, q, n);
      ReachesJoin(rules, Push(rules, Push(rules, base, q), sub), Push(rules, base, q), base, k1, k2);
      ReachesMore(rules, stack, Expand(rules, stack, sub), base, k1 + k2);
      k := 1 + (k1 + k2);
    }
  }

  lemma EmptyIsReference(rules: Rules, s: seq<Element>, n: nat)
    requires Gen(rules, s, [], n) && |s| > 0 && !IsEndOfSequence(s[0])
    ensures s[0].kind.RuleRef?
  {
  }

  lemma ReachesSelf(rules: Rules, s: Stack)
    requires WellFormed(rules)
    ensures Reaches(rules, s, s, 0)
  {
  }

  lemma ReachesMore(rules: Rules, s: Stack, t: Stack, u: Stack, k: nat)
    requires WellFormed(rules) && RefOnTop(rules, s) && t in Expansions(rules, s) && Reaches(rules, t, u, k)
    ensures Reaches(rules, s, u, 1 + k)
  {
    hide WellFormed, Expansions, RefOnTop;
  }

  ghost function NullableRules(rules: Rules): set<nat> {
    set r: nat | r < |rules| && InRuleLanguage(rules, r, [])
  }

  /** What consists of references to rules that may be empty derives the empty word. */
  lemma {:induction false} AllNullableGen(rules: Rules, s: seq<Element>, o: LeftOrder) returns (n: nat)
    requires AllNullable(s, o) && o.nullable == NullableRules(rules)
    ensures Gen(rules, s, [], n)
    decreases |s|
  {
    hide Gen;
    if AtEnd(s) {
      n := 0;
      GenAtEnd(rules, s, [], 0);
    } else {
      var v := s[0].value;
      var m, a := EmptyAlternate(rules, v);
      var l := AllNullableGen(rules, s[1..], o);
      n := m + 1 + l;
      GenMonotone(rules, rules[v][a..], [], m, n - 1);
      GenMonotone(rules, s[1..], [], l, n);
      GenOfSteps(rules, s, [], n, a, 0);
    }
  }

  lemma EmptyAlternate(rules: Rules, r: nat) returns (n: nat, a: nat)
    requires r in NullableRules(rules)
    ensures r < |rules| && IsAltStart(rules[r], a) && Gen(rules, rules[r][a..], [], n)
  {
    hide Gen;
    n :| RuleGen(rules, r, [], n);
    var b :| IsAltStart(rules[r], b) && Gen(rules, rules[r][b..], [], n);
    a := b;
  }

  // ---------------------------------------------------------------- Ranks by the longest chain

  /** The stack of one alternate. */
  function Start(rules: Rules, r: nat, a: nat): (s: Stack)
    requires WellFormed(rules) && r < |rules| && IsAltStart(rules[r], a)
    ensures StackOk(rules, s)
  {
    AltStartIsItem(rules, r, a);
    Push(rules, [], Pos(r, a))
  }

  ghost function Least(rules: Rules, s: Stack, n: nat): (d: nat)
    requires WellFormed(rules) && !Chain(rules, s, n)
    ensures d > 0 && !Chain(rules, s, d) && Chain(rules, s, d - 1)
  {
    if Chain(rules, s, n - 1) then n else Least(rules, s, n - 1)
  }

  /** One more than the length of the longest chain. */
  ghost function Depth(rules: Rules, s: Stack): (d: nat)
    requires WellFormed(rules) && Ends(rules, s)
    ensures d > 0 && !Chain(rules, s, d) && Chain(rules, s, d - 1)
  {
    var n: nat :| !Chain(rules, s, n);
    Least(rules, s, n)
  }

  ghost function StartDepth(rules: Rules, r: nat, a: nat): nat
    requires WellFormed(rules) && AllEnd(rules) && r < |rules|
  {
    if IsAltStart(rules[r], a) then Depth(rules, Start(rules, r, a)) else 0
  }

  /** The greatest depth of the alternates that begin before `k`. */
  ghost function RankTo(rules: Rules, r: nat, k: nat): nat
    requires WellFormed(rules) && AllEnd(rules) && r < |rules|
  {
    if k == 0 then 0
    else
      var d, rest := StartDepth(rules, r, k - 1), RankTo(rules, r, k - 1);
      if d > rest then d else rest
  }

  ghost function Ranked(rules: Rules): (o: LeftOrder)
    requires WellFormed(rules) && AllEnd(rules)
  {
    LeftOrder(NullableRules(rules), seq(|rules|, r requires 0 <= r < |rules| => RankTo(rules, r, |rules[r]|)))
  }

  lemma {:induction false} RankIsMost(rules: Rules, r: nat, a: nat, k: nat)
    requires WellFormed(rules) && AllEnd(rules) && r < |rules| && a < k
    ensures StartDepth(rules, r, a) <= RankTo(rules, r, k)
  {
    hide WellFormed, AllEnd, StartDepth;
    if a < k - 1 {
      RankIsMost(rules, r, a, k - 1);
    }
  }

  lemma {:induction false} RankIsBelow(rules: Rules, r: nat, k: nat, bound: nat)
    requires WellFormed(rules) && AllEnd(rules) && r < |rules| && bound > 0
    requires forall b: nat | IsAltStart(rules[r], b) :: StartDepth(rules, r, b) < bound
    ensures RankTo(rules, r, k) < bound
  {
    hide WellFormed, AllEnd;
    if k > 0 {
      RankIsBelow(rules, r, k - 1, bound);
    }
  }

  /** A reference on top, with whatever below, makes a longer chain than each alternate of its rule alone. */
  lemma ReferenceIsDeeper(rules: Rules, s: Stack, t: Stack, k: nat, b: nat)
    requires WellFormed(rules) && AllEnd(rules) && StackOk(rules, s) && Reaches(rules, s, t, k) && RefOnTop(rules, t)
    requires IsAltStart(rules[TopRule(rules, t)], b)
    ensures StartDepth(rules, TopRule(rules, t), b) < Depth(rules, s)
  {
    hide WellFormed, Expansions, Chain, Reaches, StackOk, RefOnTop;
    var v := TopRule(rules, t);
    var start, d := Start(rules, v, b), StartDepth(rules, v, b);
    var sub, base := Pos(v, b), ExpansionBase(rules, t);
    AlternatesAreExpansions(rules, t, b);
    ExpandIsAbove(rules, t, b);
    ChainOnBase(rules, base, start, d - 1);
    ChainMore(rules, t, base + start, d - 1);
    ReachesChain(rules, s, t, k, d);
    if Depth(rules, s) <= d {
      ChainShorter(rules, s, k + d, Depth(rules, s));
    }
  }

  lemma ExpandIsAbove(rules: Rules, t: Stack, b: nat)
    requires WellFormed(rules) && RefOnTop(rules, t) && IsAltStart(rules[TopRule(rules, t)], b)
    ensures Expand(rules, t, Pos(TopRule(rules, t), b)) == ExpansionBase(rules, t) + Start(rules, TopRule(rules, t), b)
  {
    hide WellFormed;
  }

  lemma ChainMore(rules: Rules, s: Stack, t: Stack, n: nat)
    requires WellFormed(rules) && RefOnTop(rules, s) && t in Expansions(rules, s) && Chain(rules, t, n)
    ensures Chain(rules, s, n + 1)
  {
    hide WellFormed, Expansions, RefOnTop;
  }

  // ---------------------------------------------------------------- The order

  /** From position `j` of the alternate at `a`, which the alternate's expansion comes to. */
  lemma {:induction false} RankedLeads(rules: Rules, r: nat, a: nat, j: nat, k: nat)
    requires WellFormed(rules) && AllEnd(rules) && r < |rules| && IsAltStart(rules[r], a) && a <= j
    requires OnItemOrEnd(rules, Pos(r, j)) && Reaches(rules, Start(rules, r, a), Push(rules, [], Pos(r, j)), k)
    ensures LeadsBelow(rules[r][j..], Ranked(rules), Ranked(rules).rank[r])
    decreases |rules[r]| - j
  {
    hide AllEnd, Expansions, Reaches, Chain, Gen, NullableRules, RankTo, StartDepth, Depth;
    var o, s := Ranked(rules), rules[r][j..];
    assert s[0] == rules[r][j];
    if !AtEnd(s) && s[0].kind.RuleRef? {
      var t, start := Push(rules, [], Pos(r, j)), Start(rules, r, a);
      assert Top(t) == Pos(r, j) && Pop(t) == [];
      var v := TopRule(rules, t);
      VisitedIsLower(rules, r, a, t, k);
      if v in o.nullable {
        var l := ReferenceIsPassed(rules, t);
        AfterIsItem(rules, Pos(r, j));
        ReachesJoin(rules, start, t, Push(rules, [], Pos(r, j + 1)), k, l);
        RankedLeads(rules, r, a, j + 1, k + l);
      }
      assert s[1..] == rules[r][j + 1..];
    }
  }

  lemma VisitedIsLower(rules: Rules, r: nat, a: nat, t: Stack, k: nat)
    requires WellFormed(rules) && AllEnd(rules) && r < |rules| && IsAltStart(rules[r], a)
    requires Reaches(rules, Start(rules, r, a), t, k) && RefOnTop(rules, t)
    ensures Ranked(rules).rank[TopRule(rules, t)] < Ranked(rules).rank[r]
  {
    hide WellFormed, AllEnd, Reaches, RefOnTop, NullableRules, RankTo, Depth;
    var v, bound := TopRule(rules, t), Ranked(rules).rank[r];
    RankIsMost(rules, r, a, |rules[r]|);
    forall b: nat | IsAltStart(rules[v], b)
      ensures StartDepth(rules, v, b) < bound
    {
      ReferenceIsDeeper(rules, Start(rules, r, a), t, k, b);
    }
    RankIsBelow(rules, v, |rules[v]|, bound);
  }

  /** A reference to a rule that may be empty can be passed. */
  lemma ReferenceIsPassed(rules: Rules, t: Stack) returns (l: nat)
    requires WellFormed(rules) && RefOnTop(rules, t) && TopRule(rules, t) in NullableRules(rules)
    ensures Reaches(rules, t, ExpansionBase(rules, t), l)
  {
    hide WellFormed, Expansions, Reaches, Gen, NullableRules;
    var v, base := TopRule(rules, t), ExpansionBase(rules, t);
    var n, b := EmptyAlternate(rules, v);
    AltStartIsItem(rules, v, b);
    AlternatesAreExpansions(rules, t, b);
    var m := EmptyReaches(rules, base, Pos(v, b), n);
    ReachesMore(rules, t, Push(rules, base, Pos(v, b)), base, m);
    l := 1 + m;
  }

  lemma RankedIsOrder(rules: Rules)
    requires WellFormed(rules) && AllEnd(rules)
    ensures IsLeftOrder(rules, Ranked(rules))
  {
    hide AllEnd, Reaches, Gen, RankTo, LeadsBelow, AllNullable, WellFormed;
    var o := Ranked(rules);
    forall r: nat, a: nat | r < |rules| && IsAltStart(rules[r], a)
      ensures LeadsBelow(rules[r][a..], o, o.rank[r])
      ensures AllNullable(rules[r][a..], o) ==> r in o.nullable
    {
      AltStartIsItem(rules, r, a);
      ReachesSelf(rules, Start(rules, r, a));
      RankedLeads(rules, r, a, a, 0);
      if AllNullable(rules[r][a..], o) {
        var n := AllNullableGen(rules, rules[r][a..], o);
        assert RuleGen(rules, r, [], n);
      }
    }
  }

  /** No stack can be expanded for ever exactly if the rules are not left-recursive. */
  lemma EndsIffNotLeftRecursive(rules: Rules)
    requires WellFormed(rules)
    ensures AllEnd(rules) <==> NotLeftRecursive(rules)
  {
    hide WellFormed, IsLeftOrder, StackOk, Chain, StackWeight;
    if AllEnd(rules) {
      RankedIsOrder(rules);
    }
    if NotLeftRecursive(rules) {
      var o :| IsLeftOrder(rules, o);
      forall s | StackOk(rules, s)
        ensures Ends(rules, s)
      {
        if Chain(rules, s, StackWeight(rules, o, s) + 1) {
          ChainIsBounded(rules, o, s, StackWeight(rules, o, s) + 1);
        }
      }
    }
  }
}
